/**
 * main.go: populateVPC runs the mapping passes in a fixed order once every
 * fetch has come back, getRegionData merges one region's result into the
 * shared per-region map, validateRegion checks a region override, and main
 * chooses what to run.
 */
module Pipeline {
  import opened Wrappers
  import opened Ec2
  import opened Model
  import opened MapBase
  import opened MapRoutes
  import opened MapGateways
  import opened MapLinks
  import opened MapEndpoints
  import opened MapInterfaces
  import opened SubnetKeys

  /**
   * RecievedData once every fetch has finished: `error` is the failure some
   * fetch stored (None when all succeeded), `account` the caller identity's
   * account, and one slice per fetch.
   */
  datatype Received = Received(
    error: Option<string>,
    account: string,
    vpcs: seq<RawVpc>,
    subnets: seq<RawSubnet>,
    reservations: seq<Reservation>,
    instanceStatuses: seq<RawInstanceStatus>,
    volumes: seq<RawVolume>,
    natGateways: seq<RawNatGateway>,
    routeTables: seq<RawRouteTable>,
    internetGateways: seq<RawInternetGateway>,
    eoInternetGateways: seq<RawEgressOnlyInternetGateway>,
    vpnGateways: seq<RawVpnGateway>,
    transitGateways: seq<RawTransitGatewayVpcAttachment>,
    peeringConnections: seq<RawVpcPeeringConnection>,
    vpcEndpoints: seq<RawVpcEndpoint>,
    networkInterfaces: seq<RawNetworkInterface>)

  // The passes in populateVPC's order. Each `...Fit` predicate says that the
  // passes up to that stage do not panic; each stage function is the map
  // those passes leave behind.

  function AfterVpcs(d: Received): Vpcs
  {
    MappedVpcs(map[], d.vpcs)
  }

  predicate SubnetsFit(d: Received)
  {
    SubnetsPlaceable(AfterVpcs(d), d.subnets)
  }

  function AfterSubnets(d: Received): Vpcs
    requires SubnetsFit(d)
  {
    MappedSubnets(AfterVpcs(d), d.subnets)
  }

  predicate InstancesFit(d: Received)
  {
    SubnetsFit(d) && ReservationsPlaceable(AfterSubnets(d), d.reservations)
  }

  /** After mapInstances, mapInstanceStatuses and mapVolumes. */
  function AfterVolumes(d: Received): Vpcs
    requires InstancesFit(d)
  {
    MappedVolumes(MappedStatuses(MappedInstances(AfterSubnets(d), d.reservations), d.instanceStatuses), d.volumes)
  }

  predicate TablesFit(d: Received)
  {
    && InstancesFit(d)
    && NatGatewaysPlaceable(AfterVolumes(d), d.natGateways)
    && RouteTablesPlaceable(MappedNatGateways(AfterVolumes(d), d.natGateways), d.routeTables)
  }

  /** After mapNatGateways and mapRouteTables. */
  function AfterRouteTables(d: Received): Vpcs
    requires TablesFit(d)
  {
    MappedRouteTables(MappedNatGateways(AfterVolumes(d), d.natGateways), d.routeTables)
  }

  /** After mapInternetGateways, mapEgressOnlyInternetGateways and mapVPNGateways. */
  function AfterGateways(d: Received): Vpcs
    requires TablesFit(d)
  {
    AppendAll(AppendAll(AppendAll(AfterRouteTables(d), InternetLinks(d.internetGateways)),
                        EgressOnlyLinks(d.eoInternetGateways)),
              VpnLinks(d.vpnGateways))
  }

  predicate LinksFit(d: Received)
  {
    && TablesFit(d)
    && TgwsPlaceable(AfterGateways(d), d.transitGateways, d.account)
    && PeersPlaceable(MappedTgws(AfterGateways(d), d.transitGateways, d.account), d.peeringConnections)
  }

  /** After mapTransitGatewayVpcAttachments and mapVpcPeeringConnections: what mapVpcEndpoints reads. */
  function BeforeEndpoints(d: Received): Vpcs
    requires LinksFit(d)
  {
    MappedPeers(MappedTgws(AfterGateways(d), d.transitGateways, d.account), d.peeringConnections)
  }

  predicate EndpointsFit(d: Received)
  {
    LinksFit(d) && EndpointsPlaceable(BeforeEndpoints(d), BeforeEndpoints(d).Keys, SubnetIds(BeforeEndpoints(d)), d.vpcEndpoints)
  }

  function AfterEndpoints(d: Received): Vpcs
    requires EndpointsFit(d)
  {
    MappedEndpoints(BeforeEndpoints(d), BeforeEndpoints(d).Keys, SubnetIds(BeforeEndpoints(d)), d.vpcEndpoints)
  }

  /** No pass of populateVPC panics on `d`. */
  predicate NoPanic(d: Received)
  {
    EndpointsFit(d) && InterfacesPlaceable(AfterEndpoints(d), d.networkInterfaces)
  }

  /** The topology populateVPC returns. */
  function Populated(d: Received): Vpcs
    requires NoPanic(d)
  {
    MappedInterfaces(AfterEndpoints(d), d.networkInterfaces)
  }

  /** What mapVpcEndpoints prints about endpoints it cannot place. */
  function PopulateWarnings(d: Received): seq<Warning>
    requires LinksFit(d)
  {
    MappedWarnings(BeforeEndpoints(d).Keys, SubnetIds(BeforeEndpoints(d)), d.vpcEndpoints)
  }

  function PopulateFailure(cause: string): string
  {
    "failed to populate VPCs: " + cause
  }

  /**
   * populateVPC after the fetch barrier: a failed fetch gives an empty
   * topology and a wrapped error; otherwise the fourteen passes run in
   * order on one map.
   */
  method PopulateVpc(d: Received) returns (vpcs: Vpcs, warnings: seq<Warning>, err: Option<string>)
    requires d.error.None? ==> NoPanic(d)
    ensures d.error.Some? ==> vpcs == map[] && warnings == [] && err == Some(PopulateFailure(d.error.value))
    ensures d.error.None? ==> err.None? && vpcs == Populated(d) && warnings == PopulateWarnings(d)
  {
    if d.error.Some? {
      return map[], [], Some(PopulateFailure(d.error.value));
    }
    vpcs := map[];
    vpcs := MapVpcs(vpcs, d.vpcs);
    vpcs := MapSubnets(vpcs, d.subnets);
    vpcs := MapInstances(vpcs, d.reservations);
    vpcs := MapInstanceStatuses(vpcs, d.instanceStatuses);
    vpcs := MapVolumes(vpcs, d.volumes);
    vpcs := MapNatGateways(vpcs, d.natGateways);
    vpcs := MapRouteTables(vpcs, d.routeTables);
    vpcs := MapInternetGateways(vpcs, d.internetGateways);
    vpcs := MapEgressOnlyInternetGateways(vpcs, d.eoInternetGateways);
    vpcs := MapVpnGateways(vpcs, d.vpnGateways);
    vpcs := MapTransitGatewayVpcAttachments(vpcs, d.transitGateways, d.account);
    vpcs := MapVpcPeeringConnections(vpcs, d.peeringConnections);
    vpcs, warnings := MapVpcEndpoints(vpcs, d.vpcEndpoints);
    vpcs := MapNetworkInterfaces(vpcs, d.networkInterfaces);
    err := None;
  }

  /**
   * The VPCs of the result are the fetched VPC ids and the ids some gateway
   * attachment names (the latter as stubs when no VPC record has them).
   */
  lemma PopulatedKeys(d: Received, v: string)
    requires NoPanic(d)
    ensures v in Populated(d) <==>
      || (exists i :: 0 <= i < |d.vpcs| && d.vpcs[i].vpcId == v)
      || IdsFor(InternetLinks(d.internetGateways), v) != []
      || IdsFor(EgressOnlyLinks(d.eoInternetGateways), v) != []
      || IdsFor(VpnLinks(d.vpnGateways), v) != []
  {
    MappedVpcsKeys(map[], d.vpcs);
    var g1 := AppendAll(AfterRouteTables(d), InternetLinks(d.internetGateways));
    var g2 := AppendAll(g1, EgressOnlyLinks(d.eoInternetGateways));
    AppendAllAt(AfterRouteTables(d), InternetLinks(d.internetGateways), v);
    AppendAllAt(g1, EgressOnlyLinks(d.eoInternetGateways), v);
    AppendAllAt(g2, VpnLinks(d.vpnGateways), v);
    assert v in AfterVpcs(d) <==> exists i :: 0 <= i < |d.vpcs| && d.vpcs[i].vpcId == v;
  }

  /** The three gateway passes, peerings and TGW attachments leave a VPC's subnet data and Gateway endpoints as they were. */
  lemma LinksKeepSubnets(m: Vpcs, ls1: seq<Link>, ls2: seq<Link>, ls3: seq<Link>,
                         ts: seq<RawTransitGatewayVpcAttachment>, account: string, cs: seq<RawVpcPeeringConnection>, v: string)
    requires v in m
    requires TgwsPlaceable(AppendAll(AppendAll(AppendAll(m, ls1), ls2), ls3), ts, account)
    ensures var p := MappedPeers(MappedTgws(AppendAll(AppendAll(AppendAll(m, ls1), ls2), ls3), ts, account), cs);
      && v in p && SubnetDataOf(p[v]) == SubnetDataOf(m[v])
      && p[v].subnets.Keys == m[v].subnets.Keys
      && forall s :: s in m[v].subnets ==> p[v].subnets[s].gatewayEndpoints == m[v].subnets[s].gatewayEndpoints
  {
    var g1 := AppendAll(m, ls1);
    var g2 := AppendAll(g1, ls2);
    var g := AppendAll(g2, ls3);
    AppendAllAt(m, ls1, v);
    AppendAllAt(g1, ls2, v);
    AppendAllAt(g2, ls3, v);
    assert g[v].subnets == m[v].subnets;
    var t := MappedTgws(g, ts, account);
    forall s | s in g[v].subnets
      ensures t[v].subnets[s].data == g[v].subnets[s].data
      ensures t[v].subnets[s].gatewayEndpoints == g[v].subnets[s].gatewayEndpoints
    {
      MappedTgwsAt(g, ts, account, v, s);
    }
    MappedPeersAt(t, cs, v);
  }

  /** The endpoint pass adds the Gateway endpoints that reach a subnet, and the interface pass keeps them. */
  lemma EndpointsThenInterfaces(p: Vpcs, es: seq<RawVpcEndpoint>, xs: seq<RawNetworkInterface>, v: string, s: string)
    requires EndpointsPlaceable(p, p.Keys, SubnetIds(p), es)
    requires InterfacesPlaceable(MappedEndpoints(p, p.Keys, SubnetIds(p), es), xs)
    requires v in p && s in p[v].subnets
    ensures var r := MappedInterfaces(MappedEndpoints(p, p.Keys, SubnetIds(p), es), xs);
      && v in r && s in r[v].subnets
      && r[v].subnets[s].gatewayEndpoints == p[v].subnets[s].gatewayEndpoints + GatewayEndpointsFor(es, p.Keys, SubnetDataOf(p[v]), v, s)
  {
    MappedEndpointsAt(p, p.Keys, SubnetIds(p), es, v, s);
    MappedInterfacesFrame(MappedEndpoints(p, p.Keys, SubnetIds(p), es), xs, v, s);
  }

  /** Between mapRouteTables and mapVpcEndpoints no pass changes a subnet's data or its Gateway endpoints. */
  lemma KeptUntilEndpoints(d: Received, v: string)
    requires LinksFit(d) && v in AfterRouteTables(d)
    ensures v in BeforeEndpoints(d)
    ensures SubnetDataOf(BeforeEndpoints(d)[v]) == SubnetDataOf(AfterRouteTables(d)[v])
    ensures BeforeEndpoints(d)[v].subnets.Keys == AfterRouteTables(d)[v].subnets.Keys
    ensures forall s :: s in AfterRouteTables(d)[v].subnets ==>
      BeforeEndpoints(d)[v].subnets[s].gatewayEndpoints == AfterRouteTables(d)[v].subnets[s].gatewayEndpoints
  {
    LinksKeepSubnets(AfterRouteTables(d), InternetLinks(d.internetGateways), EgressOnlyLinks(d.eoInternetGateways),
                     VpnLinks(d.vpnGateways), d.transitGateways, d.account, d.peeringConnections, v);
  }

  /**
   * mapVpcEndpoints runs after mapRouteTables, so the Gateway endpoints a
   * subnet ends up with are those the route tables of that pass select.
   */
  lemma GatewayEndpointsFollowRouteTables(d: Received, v: string, s: string)
    requires NoPanic(d)
    requires v in AfterRouteTables(d) && s in AfterRouteTables(d)[v].subnets
    ensures v in Populated(d) && s in Populated(d)[v].subnets
    ensures Populated(d)[v].subnets[s].gatewayEndpoints ==
      AfterRouteTables(d)[v].subnets[s].gatewayEndpoints +
      GatewayEndpointsFor(d.vpcEndpoints, BeforeEndpoints(d).Keys, SubnetDataOf(AfterRouteTables(d)[v]), v, s)
  {
    KeptUntilEndpoints(d, v);
    EndpointsThenInterfaces(BeforeEndpoints(d), d.vpcEndpoints, d.networkInterfaces, v, s);
  }

  /**
   * Up to mapVpcEndpoints every subnet is stored under its own id or is a
   * zero value with an empty id: mapSubnets keys subnets by id, the passes
   * up to mapRouteTables keep each subnet's id, and mapRouteTables adds only
   * zero values.
   */
  lemma TablesKeyedById(d: Received)
    requires TablesFit(d)
    ensures IdsKeyed(AfterRouteTables(d))
  {
    VpcsUntabled(d.vpcs);
    SubnetsKeyed(AfterVpcs(d), d.subnets);
    var m1 := AfterSubnets(d);
    MappedInstancesIds(m1, d.reservations);
    var m2 := MappedInstances(m1, d.reservations);
    StatusesIds(m2, d.instanceStatuses);
    var m3 := MappedStatuses(m2, d.instanceStatuses);
    VolumesIds(m3, d.volumes);
    SameIdsTransitive(m1, m2, m3);
    SameIdsTransitive(m1, m3, AfterVolumes(d));
    NatGatewaysIds(AfterVolumes(d), d.natGateways);
    SameIdsTransitive(m1, AfterVolumes(d), MappedNatGateways(AfterVolumes(d), d.natGateways));
    SameIdsKeyed(m1, MappedNatGateways(AfterVolumes(d), d.natGateways));
    RouteTablesKeyed(MappedNatGateways(AfterVolumes(d), d.natGateways), d.routeTables);
  }

  /**
   * A Gateway endpoint lands in a subnet with an id exactly when the subnet
   * is stored under that id and the route table mapRouteTables gave it is
   * one of the endpoint's tables; it lands under the empty key when some
   * zero-valued subnet has one of the endpoint's tables.
   */
  lemma GatewayEndpointPlacement(d: Received, v: string, s: string, k: string)
    requires NoPanic(d)
    requires v in AfterRouteTables(d) && s in AfterRouteTables(d)[v].subnets
    ensures v in Populated(d) && s in Populated(d)[v].subnets
    ensures s != "" ==>
      (k in Populated(d)[v].subnets[s].gatewayEndpoints <==>
        || k in AfterRouteTables(d)[v].subnets[s].gatewayEndpoints
        || (exists e :: e in d.vpcEndpoints && IsGateway(e) && e.vpcId == v && e.vpcEndpointId == k &&
             AfterRouteTables(d)[v].subnets[s].data.id == s &&
             UsesTable(AfterRouteTables(d)[v].subnets[s].data, e.routeTableIds)))
    ensures s == "" ==>
      (k in Populated(d)[v].subnets[s].gatewayEndpoints <==>
        || k in AfterRouteTables(d)[v].subnets[s].gatewayEndpoints
        || (exists e :: e in d.vpcEndpoints && IsGateway(e) && e.vpcId == v && e.vpcEndpointId == k &&
             exists z :: z in SubnetDataOf(AfterRouteTables(d)[v]) && SubnetDataOf(AfterRouteTables(d)[v])[z].id == "" &&
               UsesTable(SubnetDataOf(AfterRouteTables(d)[v])[z], e.routeTableIds)))
  {
    GatewayEndpointsFollowRouteTables(d, v, s);
    KeptUntilEndpoints(d, v);
    TablesKeyedById(d);
    IdsKeyedData(AfterRouteTables(d), v);
    var dt := SubnetDataOf(AfterRouteTables(d)[v]);
    if s != "" {
      GatewayEndpointsForExactly(d.vpcEndpoints, BeforeEndpoints(d).Keys, dt, v, s, k);
      assert dt[s] == AfterRouteTables(d)[v].subnets[s].data;
    } else {
      GatewayEndpointsForZero(d.vpcEndpoints, BeforeEndpoints(d).Keys, dt, v, k);
    }
  }

  /** No subnet of `m` has a route table yet. */
  predicate Untabled(m: Vpcs)
  {
    forall v, s :: v in m && s in m[v].subnets ==> m[v].subnets[s].data.routeTable.None?
  }

  lemma {:induction false} VpcsUntabled(xs: seq<RawVpc>)
    ensures Untabled(MappedVpcs(map[], xs))
    ensures forall v :: v in MappedVpcs(map[], xs) ==> MappedVpcs(map[], xs)[v].subnets == map[]
  {
    if |xs| > 0 {
      VpcsUntabled(xs[..|xs| - 1]);
    }
  }

  lemma {:induction false} SubnetsUntabled(m: Vpcs, xs: seq<RawSubnet>)
    requires SubnetsPlaceable(m, xs) && Untabled(m)
    ensures Untabled(MappedSubnets(m, xs))
  {
    if |xs| > 0 {
      var p := xs[..|xs| - 1];
      assert SubnetsPlaceable(m, p);
      SubnetsUntabled(m, p);
    }
  }

  /** With no subnet routed, no Gateway endpoint reaches any subnet. */
  lemma {:induction false} GatewayEndpointsForUntabled(es: seq<RawVpcEndpoint>, vpcIds: set<string>, dt: map<string, SubnetData>, v: string, s: string)
    requires forall k :: k in dt ==> dt[k].routeTable.None?
    ensures GatewayEndpointsFor(es, vpcIds, dt, v, s) == map[]
  {
    if |es| > 0 {
      GatewayEndpointsForUntabled(es[..|es| - 1], vpcIds, dt, v, s);
      assert !RoutesTo(dt, es[|es| - 1].routeTableIds, s);
    }
  }

  /**
   * Why mapVpcEndpoints must follow mapRouteTables: mapSubnets leaves every
   * route table unset, so an endpoint pass run straight after it would
   * place no Gateway endpoint anywhere.
   */
  lemma EndpointsBeforeRouteTablesPlaceNone(d: Received, es: seq<RawVpcEndpoint>, v: string, s: string)
    requires SubnetsFit(d) && v in AfterSubnets(d)
    ensures GatewayEndpointsFor(es, AfterSubnets(d).Keys, SubnetDataOf(AfterSubnets(d)[v]), v, s) == map[]
  {
    VpcsUntabled(d.vpcs);
    SubnetsUntabled(AfterVpcs(d), d.subnets);
    GatewayEndpointsForUntabled(es, AfterSubnets(d).Keys, SubnetDataOf(AfterSubnets(d)[v]), v, s);
  }

  /** Every Interface endpoint mapVpcEndpoints creates starts with no interfaces. */
  lemma {:induction false} InterfaceEndpointsForBare(es: seq<RawVpcEndpoint>, vpcIds: set<string>, subnetIds: set<string>, v: string, s: string)
    ensures forall k :: k in InterfaceEndpointsFor(es, vpcIds, subnetIds, v, s) ==>
      InterfaceEndpointsFor(es, vpcIds, subnetIds, v, s)[k].interfaces == map[]
  {
    if |es| > 0 {
      InterfaceEndpointsForBare(es[..|es| - 1], vpcIds, subnetIds, v, s);
    }
  }

  /**
   * Why mapNetworkInterfaces must follow mapVpcEndpoints: run on a subnet
   * that has no Interface endpoints yet it attaches nothing to them, and the
   * endpoints the endpoint pass then adds carry no interfaces.
   */
  lemma InterfacesBeforeEndpointsLoseThem(m: Vpcs, xs: seq<RawNetworkInterface>, es: seq<RawVpcEndpoint>, v: string, s: string, k: string)
    requires InterfacesPlaceable(m, xs)
    requires v in m && s in m[v].subnets && m[v].subnets[s].interfaceEndpoints == map[]
    requires EndpointsPlaceable(MappedInterfaces(m, xs), m.Keys, SubnetIds(MappedInterfaces(m, xs)), es)
    ensures var r := MappedEndpoints(MappedInterfaces(m, xs), m.Keys, SubnetIds(MappedInterfaces(m, xs)), es);
      k in r[v].subnets[s].interfaceEndpoints ==> r[v].subnets[s].interfaceEndpoints[k].interfaces == map[]
  {
    var q := MappedInterfaces(m, xs);
    MappedInterfacesFrame(m, xs, v, s);
    MappedEndpointsAt(q, q.Keys, SubnetIds(q), es, v, s);
    InterfaceEndpointsForBare(es, q.Keys, SubnetIds(q), v, s);
  }

  /** What populateVPC returned for one region. */
  datatype Outcome = Outcome(region: string, vpcs: Vpcs, err: Option<string>)

  /**
   * getRegionData, given what populateVPC returned for the region: a failed
   * region is not written; a successful one replaces the region's entry.
   */
  method GetRegionData(fullData: map<string, RegionData>, outcome: Outcome) returns (r: map<string, RegionData>)
    ensures outcome.err.Some? ==> r == fullData
    ensures outcome.err.None? ==> r.Keys == fullData.Keys + {outcome.region} && r[outcome.region] == RegionData(outcome.vpcs)
    ensures forall k :: k in fullData && k != outcome.region ==> k in r && r[k] == fullData[k]
  {
    if outcome.err.Some? {
      return fullData;
    }
    r := fullData[outcome.region := RegionData(outcome.vpcs)];
  }

  function Succeeded(outcomes: seq<Outcome>): set<string>
  {
    set i | 0 <= i < |outcomes| && outcomes[i].err.None? :: outcomes[i].region
  }

  /**
   * doAllRegions' merge, one getRegionData per region (sequentialised: the
   * writes are mutex-guarded and the regions distinct, so they commute):
   * the map holds exactly the regions whose population succeeded, each with
   * its own topology.
   */
  method MergeRegions(outcomes: seq<Outcome>) returns (fullData: map<string, RegionData>)
    ensures fullData.Keys == Succeeded(outcomes)
    ensures forall i :: 0 <= i < |outcomes| && outcomes[i].err.None? && LastFor(outcomes, i) ==>
      fullData[outcomes[i].region] == RegionData(outcomes[i].vpcs)
  {
    fullData := map[];
    for i := 0 to |outcomes|
      invariant fullData.Keys == Succeeded(outcomes[..i])
      invariant forall j :: 0 <= j < i && outcomes[j].err.None? && LastFor(outcomes[..i], j) ==>
        fullData[outcomes[j].region] == RegionData(outcomes[j].vpcs)
    {
      SucceededSnoc(outcomes, i);
      fullData := GetRegionData(fullData, outcomes[i]);
    }
    assert outcomes[..|outcomes|] == outcomes;
  }

  /** One more outcome adds its region when it succeeded; an earlier outcome overwritten by it is no longer last. */
  lemma SucceededSnoc(outcomes: seq<Outcome>, i: int)
    requires 0 <= i < |outcomes|
    ensures Succeeded(outcomes[..i + 1]) == Succeeded(outcomes[..i]) + (if outcomes[i].err.None? then {outcomes[i].region} else {})
    ensures forall j :: 0 <= j < i && LastFor(outcomes[..i + 1], j) ==>
      LastFor(outcomes[..i], j) && outcomes[j].region != outcomes[i].region
  {
    var p := outcomes[..i + 1];
    assert forall j :: 0 <= j < i ==> p[j] == outcomes[..i][j];
    assert p[i] == outcomes[i];
  }

  /** No later outcome is for the same region as outcome `i`. */
  predicate LastFor(outcomes: seq<Outcome>, i: int)
    requires 0 <= i < |outcomes|
  {
    forall j :: i < j < |outcomes| ==> outcomes[j].region != outcomes[i].region
  }

  /** validateRegion, with getRegions' answer as a parameter. */
  method ValidateRegion(region: string, regions: seq<string>) returns (isValid: bool)
    ensures isValid <==> region in regions
  {
    isValid := false;
    for i := 0 to |regions|
      invariant isValid <==> region in regions[..i]
    {
      assert regions[..i + 1] == regions[..i] + [regions[i]];
      if region == regions[i] {
        isValid := true;
      }
    }
    assert regions[..|regions|] == regions;
  }

  datatype Action =
    | CredentialsMissing
    | InvalidRegion(region: string)
    | AllRegions
    | SpecificRegion(region: string)
    | DefaultRegion

  /**
   * main after flag parsing: missing credentials and an invalid override
   * exit first; then -all wins over -region, and neither means the
   * profile's region.
   */
  method Dispatch(credentialsLoaded: bool, allRegions: bool, regionOverride: string, regions: seq<string>) returns (a: Action)
    ensures a == CredentialsMissing <==> !credentialsLoaded
    ensures a == InvalidRegion(regionOverride) <==> credentialsLoaded && regionOverride != "" && regionOverride !in regions
    ensures a == AllRegions <==> credentialsLoaded && allRegions && (regionOverride == "" || regionOverride in regions)
    ensures a == SpecificRegion(regionOverride) <==>
      credentialsLoaded && !allRegions && regionOverride != "" && regionOverride in regions
    ensures a == DefaultRegion <==> credentialsLoaded && !allRegions && regionOverride == ""
    ensures a.InvalidRegion? || a.SpecificRegion? ==> a.region == regionOverride
  {
    if !credentialsLoaded {
      return CredentialsMissing;
    }
    if regionOverride != "" {
      var valid := ValidateRegion(regionOverride, regions);
      if !valid {
        return InvalidRegion(regionOverride);
      }
    }
    if allRegions {
      a := AllRegions;
    } else if regionOverride != "" {
      a := SpecificRegion(regionOverride);
    } else {
      a := DefaultRegion;
    }
  }
}
