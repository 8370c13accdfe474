/**
 * mapVpcEndpoints, dumpVpcIds and dumpSubnetIDs (mappings.go). The pass
 * checks each endpoint against snapshots of the VPC and subnet ids taken
 * before it starts, reports what it skips, and files Interface endpoints
 * under the subnets they list and Gateway endpoints under the subnets whose
 * route table they name. The printed warnings are returned as values.
 */
module MapEndpoints {
  import opened Wrappers
  import opened Ec2
  import opened Model
  import opened MapBase

  // ------------------------------------------------ dumpVpcIds, dumpSubnetIDs

  /** Every subnet id of every VPC. */
  function SubnetIds(m: Vpcs): set<string>
  {
    set v, s | v in m && s in m[v].subnets :: s
  }

  method DumpVpcIds(vpcs: Vpcs) returns (keys: set<string>)
    ensures keys == vpcs.Keys
  {
    keys := {};
    var rest := vpcs.Keys;
    while rest != {}
      invariant rest <= vpcs.Keys && keys == vpcs.Keys - rest
      decreases |rest|
    {
      var vpcId :| vpcId in rest;
      keys := keys + {vpcId};
      rest := rest - {vpcId};
    }
  }

  /** The subnet ids of the VPCs in `vids`. */
  ghost function SubnetIdsOf(m: Vpcs, vids: set<string>): set<string>
  {
    set v, s | v in m && v in vids && s in m[v].subnets :: s
  }

  method DumpSubnetIds(vpcs: Vpcs) returns (keys: set<string>)
    ensures keys == SubnetIds(vpcs)
  {
    keys := {};
    var rest := vpcs.Keys;
    while rest != {}
      invariant rest <= vpcs.Keys && keys == SubnetIdsOf(vpcs, vpcs.Keys - rest)
      decreases |rest|
    {
      var vpcId :| vpcId in rest;
      ghost var done := vpcs.Keys - rest;
      keys := keys + vpcs[vpcId].subnets.Keys;
      rest := rest - {vpcId};
      assert SubnetIdsOf(vpcs, done + {vpcId}) == SubnetIdsOf(vpcs, done) + vpcs[vpcId].subnets.Keys;
      assert vpcs.Keys - rest == done + {vpcId};
    }
    assert SubnetIdsOf(vpcs, vpcs.Keys) == SubnetIds(vpcs);
  }

  // --------------------------------------------------------- mapVpcEndpoints

  datatype Warning =
    | UndiscoveredVpc(vpcId: string, endpointId: string)
    | UndiscoveredSubnet(subnetId: string, endpointId: string)

  function NewInterfaceEndpoint(e: RawVpcEndpoint): InterfaceEndpoint
  {
    InterfaceEndpoint(InterfaceEndpointData(e, e.vpcEndpointId, e.serviceName, NameTag(e.tags)), map[])
  }

  function NewGatewayEndpoint(e: RawVpcEndpoint): GatewayEndpoint
  {
    GatewayEndpoint(e.vpcEndpointId, e.serviceName, NameTag(e.tags))
  }

  /** The subnet data of one VPC, by subnet key. */
  function SubnetDataOf(v: Vpc): map<string, SubnetData>
  {
    map s | s in v.subnets :: v.subnets[s].data
  }

  /** The subnet data of every VPC: what the endpoint and interface passes read and never write. */
  function DataOf(m: Vpcs): map<string, map<string, SubnetData>>
  {
    map v | v in m :: SubnetDataOf(m[v])
  }

  /** Replacing a VPC by one with the same subnet data keeps DataOf. */
  lemma DataOfUpdate(m: Vpcs, vid: string, v: Vpc)
    requires vid in m && SubnetDataOf(v) == SubnetDataOf(m[vid])
    ensures DataOf(m[vid := v]) == DataOf(m)
  {
    var r := m[vid := v];
    assert r.Keys == m.Keys;
    forall x | x in m
      ensures DataOf(r)[x] == DataOf(m)[x]
    {
    }
  }

  /** Replacing a subnet by one with the same data keeps DataOf. */
  lemma WithSubnetData(m: Vpcs, vid: string, sid: string, s: Subnet)
    requires vid in m && sid in m[vid].subnets && s.data == m[vid].subnets[sid].data
    ensures DataOf(WithSubnet(m, vid, sid, s)) == DataOf(m)
  {
    var v := m[vid].(subnets := m[vid].subnets[sid := s]);
    assert SubnetDataOf(v) == SubnetDataOf(m[vid]) by {
      assert v.subnets.Keys == m[vid].subnets.Keys;
      forall x | x in v.subnets
        ensures SubnetDataOf(v)[x] == SubnetDataOf(m[vid])[x]
      {
      }
    }
    DataOfUpdate(m, vid, v);
    assert WithSubnet(m, vid, sid, s) == m[vid := v];
  }

  predicate RoutedBy(d: SubnetData, rtb: string)
  {
    d.routeTable.Some? && d.routeTable.value.id == rtb
  }

  /**
   * Whether the gateway loop writes into subnet `s` for table `rtb`: some
   * subnet routed by `rtb` has `s` as its own id (the write goes to the key
   * held in the subnet's data, not to the key it is stored under).
   */
  predicate Targeted(d: map<string, SubnetData>, rtb: string, s: string)
  {
    exists k :: k in d && RoutedBy(d[k], rtb) && d[k].id == s
  }

  predicate IsInterface(e: RawVpcEndpoint)
  {
    e.vpcEndpointType == "Interface"
  }

  predicate IsGateway(e: RawVpcEndpoint)
  {
    e.vpcEndpointType == "Gateway"
  }

  /** Each known subnet an Interface endpoint lists is a writable subnet of its VPC (else the write panics). */
  predicate InterfacePlaceable(m: Vpcs, subnetIds: set<string>, e: RawVpcEndpoint)
  {
    forall sid :: sid in e.subnetIds && sid in subnetIds ==> Writable(m, e.vpcId, sid)
  }

  /**
   * A Gateway endpoint with route tables reads the route table of every
   * subnet of its VPC (a subnet without one panics), and each subnet a
   * table routes names a writable subnet by its id.
   */
  predicate GatewayPlaceable(m: Vpcs, e: RawVpcEndpoint)
  {
    && e.vpcId in m
    && (|e.routeTableIds| > 0 ==> forall k :: k in m[e.vpcId].subnets ==> m[e.vpcId].subnets[k].data.routeTable.Some?)
    && forall rtb, k :: rtb in e.routeTableIds && k in m[e.vpcId].subnets && RoutedBy(m[e.vpcId].subnets[k].data, rtb) ==>
         Writable(m, e.vpcId, m[e.vpcId].subnets[k].data.id)
  }

  predicate EndpointPlaceable(m: Vpcs, vpcIds: set<string>, subnetIds: set<string>, e: RawVpcEndpoint)
  {
    e.vpcId in vpcIds ==>
      && (IsInterface(e) ==> InterfacePlaceable(m, subnetIds, e))
      && (IsGateway(e) ==> GatewayPlaceable(m, e))
  }

  predicate EndpointsPlaceable(m: Vpcs, vpcIds: set<string>, subnetIds: set<string>, es: seq<RawVpcEndpoint>)
  {
    forall e :: e in es ==> EndpointPlaceable(m, vpcIds, subnetIds, e)
  }

  /** The placement conditions only read the layout and the subnet data. */
  lemma EndpointPlaceableSame(m: Vpcs, q: Vpcs, vpcIds: set<string>, subnetIds: set<string>, e: RawVpcEndpoint)
    requires SameLayout(q, m) && DataOf(q) == DataOf(m)
    requires EndpointPlaceable(m, vpcIds, subnetIds, e)
    ensures EndpointPlaceable(q, vpcIds, subnetIds, e)
  {
    SameLayoutWritable(q, m);
    if e.vpcId in m {
      forall k | k in m[e.vpcId].subnets
        ensures q[e.vpcId].subnets[k].data == m[e.vpcId].subnets[k].data
      {
        assert DataOf(q)[e.vpcId] == DataOf(m)[e.vpcId];
        assert SubnetDataOf(q[e.vpcId])[k] == SubnetDataOf(m[e.vpcId])[k];
      }
    }
  }

  function AddInterfaceEndpoint(sub: Subnet, e: RawVpcEndpoint): Subnet
  {
    sub.(interfaceEndpoints := sub.interfaceEndpoints[e.vpcEndpointId := NewInterfaceEndpoint(e)])
  }

  function AddGatewayEndpoint(sub: Subnet, e: RawVpcEndpoint): Subnet
  {
    sub.(gatewayEndpoints := sub.gatewayEndpoints[e.vpcEndpointId := NewGatewayEndpoint(e)])
  }

  /** The loop over an Interface endpoint's subnet ids: known ones receive the endpoint. */
  function InterfaceSubnets(m: Vpcs, e: RawVpcEndpoint, subnetIds: set<string>, sids: seq<string>): (r: Vpcs)
    requires forall sid :: sid in sids && sid in subnetIds ==> Writable(m, e.vpcId, sid)
    ensures SameLayout(r, m)
    ensures DataOf(r) == DataOf(m)
  {
    if |sids| == 0 then m
    else
      var sid := sids[|sids| - 1];
      var p := sids[..|sids| - 1];
      assert forall x :: x in p ==> x in sids;
      var q := InterfaceSubnets(m, e, subnetIds, p);
      if sid in subnetIds then
        SameLayoutWritableAt(q, m, e.vpcId, sid);
        var sub := q[e.vpcId].subnets[sid];
        WithSubnetData(q, e.vpcId, sid, AddInterfaceEndpoint(sub, e));
        WithSubnetLayout(q, e.vpcId, sid, AddInterfaceEndpoint(sub, e));
        SameLayoutTransitive(WithSubnet(q, e.vpcId, sid, AddInterfaceEndpoint(sub, e)), q, m);
        WithSubnet(q, e.vpcId, sid, AddInterfaceEndpoint(sub, e))
      else q
  }

  /** The warnings that loop prints: one per unknown subnet id, in order. */
  function InterfaceWarnings(e: RawVpcEndpoint, subnetIds: set<string>, sids: seq<string>): seq<Warning>
  {
    if |sids| == 0 then []
    else
      var sid := sids[|sids| - 1];
      InterfaceWarnings(e, subnetIds, sids[..|sids| - 1]) +
        (if sid in subnetIds then [] else [UndiscoveredSubnet(sid, e.vpcEndpointId)])
  }

  /** One route table of a Gateway endpoint, within its VPC: every subnet it targets receives the endpoint. */
  function GatewayVpc(v: Vpc, e: RawVpcEndpoint, rtb: string): (r: Vpc)
    ensures r.(subnets := v.subnets) == v && r.subnets.Keys == v.subnets.Keys
    ensures forall s :: s in v.subnets ==> r.subnets[s].stub == v.subnets[s].stub
  {
    var d := SubnetDataOf(v);
    v.(subnets := map s | s in v.subnets :: if Targeted(d, rtb, s) then AddGatewayEndpoint(v.subnets[s], e) else v.subnets[s])
  }

  lemma GatewayVpcData(v: Vpc, e: RawVpcEndpoint, rtb: string)
    ensures SubnetDataOf(GatewayVpc(v, e, rtb)) == SubnetDataOf(v)
  {
    var r := GatewayVpc(v, e, rtb);
    forall x | x in v.subnets
      ensures SubnetDataOf(r)[x] == SubnetDataOf(v)[x]
    {
    }
  }

  function GatewayRouteTable(m: Vpcs, e: RawVpcEndpoint, rtb: string): (r: Vpcs)
    requires e.vpcId in m
    ensures SameLayout(r, m)
    ensures DataOf(r) == DataOf(m)
  {
    GatewayVpcData(m[e.vpcId], e, rtb);
    DataOfUpdate(m, e.vpcId, GatewayVpc(m[e.vpcId], e, rtb));
    WithVpcLayout(m, e.vpcId, GatewayVpc(m[e.vpcId], e, rtb));
    m[e.vpcId := GatewayVpc(m[e.vpcId], e, rtb)]
  }

  function GatewayRouteTables(m: Vpcs, e: RawVpcEndpoint, rtbs: seq<string>): (r: Vpcs)
    requires e.vpcId in m
    ensures SameLayout(r, m) && DataOf(r) == DataOf(m)
  {
    if |rtbs| == 0 then m
    else GatewayRouteTable(GatewayRouteTables(m, e, rtbs[..|rtbs| - 1]), e, rtbs[|rtbs| - 1])
  }

  /** One endpoint: skipped when its VPC is unknown, else filed by its type. */
  function EndpointStep(m: Vpcs, vpcIds: set<string>, subnetIds: set<string>, e: RawVpcEndpoint): (r: Vpcs)
    requires vpcIds == m.Keys
    requires EndpointPlaceable(m, vpcIds, subnetIds, e)
    ensures SameLayout(r, m) && DataOf(r) == DataOf(m)
  {
    if e.vpcId !in vpcIds then m
    else
      var q := if IsInterface(e) then InterfaceSubnets(m, e, subnetIds, e.subnetIds) else m;
      if IsGateway(e) then GatewayRouteTables(q, e, e.routeTableIds) else q
  }

  function EndpointWarnings(vpcIds: set<string>, subnetIds: set<string>, e: RawVpcEndpoint): seq<Warning>
  {
    if e.vpcId !in vpcIds then [UndiscoveredVpc(e.vpcId, e.vpcEndpointId)]
    else if IsInterface(e) then InterfaceWarnings(e, subnetIds, e.subnetIds)
    else []
  }

  function MappedEndpoints(m: Vpcs, vpcIds: set<string>, subnetIds: set<string>, es: seq<RawVpcEndpoint>): (r: Vpcs)
    requires vpcIds == m.Keys
    requires EndpointsPlaceable(m, vpcIds, subnetIds, es)
    ensures SameLayout(r, m) && DataOf(r) == DataOf(m)
  {
    if |es| == 0 then m
    else
      var e := es[|es| - 1];
      var p := es[..|es| - 1];
      assert EndpointsPlaceable(m, vpcIds, subnetIds, p) by {
        forall y | y in p ensures y in es { }
      }
      var q := MappedEndpoints(m, vpcIds, subnetIds, p);
      assert e in es;
      EndpointPlaceableSame(m, q, vpcIds, subnetIds, e);
      EndpointStep(q, vpcIds, subnetIds, e)
  }

  function MappedWarnings(vpcIds: set<string>, subnetIds: set<string>, es: seq<RawVpcEndpoint>): seq<Warning>
  {
    if |es| == 0 then []
    else MappedWarnings(vpcIds, subnetIds, es[..|es| - 1]) + EndpointWarnings(vpcIds, subnetIds, es[|es| - 1])
  }

  method MapVpcEndpoints(vpcs: Vpcs, vpcEndpoints: seq<RawVpcEndpoint>) returns (r: Vpcs, warnings: seq<Warning>)
    requires EndpointsPlaceable(vpcs, vpcs.Keys, SubnetIds(vpcs), vpcEndpoints)
    ensures r == MappedEndpoints(vpcs, vpcs.Keys, SubnetIds(vpcs), vpcEndpoints)
    ensures warnings == MappedWarnings(vpcs.Keys, SubnetIds(vpcs), vpcEndpoints)
  {
    var vpcIds := DumpVpcIds(vpcs);
    var subnetIds := DumpSubnetIds(vpcs);
    r := vpcs;
    warnings := [];
    for i := 0 to |vpcEndpoints|
      invariant EndpointsPlaceable(vpcs, vpcIds, subnetIds, vpcEndpoints[..i])
      invariant r == MappedEndpoints(vpcs, vpcIds, subnetIds, vpcEndpoints[..i])
      invariant warnings == MappedWarnings(vpcIds, subnetIds, vpcEndpoints[..i])
    {
      EndpointsNext(vpcs, vpcIds, subnetIds, vpcEndpoints, i);
      var found;
      r, found := MapEndpoint(r, vpcIds, subnetIds, vpcEndpoints[i]);
      warnings := warnings + found;
    }
    assert vpcEndpoints[..|vpcEndpoints|] == vpcEndpoints;
  }

  /** The walk over the endpoints after `i` of them, and after one more. */
  lemma EndpointsNext(m: Vpcs, vpcIds: set<string>, subnetIds: set<string>, es: seq<RawVpcEndpoint>, i: int)
    requires vpcIds == m.Keys
    requires EndpointsPlaceable(m, vpcIds, subnetIds, es) && 0 <= i < |es|
    ensures EndpointsPlaceable(m, vpcIds, subnetIds, es[..i]) && EndpointsPlaceable(m, vpcIds, subnetIds, es[..i + 1])
    ensures EndpointPlaceable(MappedEndpoints(m, vpcIds, subnetIds, es[..i]), vpcIds, subnetIds, es[i])
    ensures MappedEndpoints(m, vpcIds, subnetIds, es[..i + 1]) ==
      EndpointStep(MappedEndpoints(m, vpcIds, subnetIds, es[..i]), vpcIds, subnetIds, es[i])
    ensures MappedWarnings(vpcIds, subnetIds, es[..i + 1]) ==
      MappedWarnings(vpcIds, subnetIds, es[..i]) + EndpointWarnings(vpcIds, subnetIds, es[i])
  {
    assert es[i] in es;
    forall y | y in es[..i + 1] ensures y in es { }
    forall y | y in es[..i] ensures y in es { }
    assert es[..i + 1][..i] == es[..i];
    EndpointPlaceableSame(m, MappedEndpoints(m, vpcIds, subnetIds, es[..i]), vpcIds, subnetIds, es[i]);
  }

  /** The body of the endpoint loop, for one endpoint. */
  method MapEndpoint(vpcs: Vpcs, vpcIds: set<string>, subnetIds: set<string>, endpoint: RawVpcEndpoint)
    returns (r: Vpcs, warnings: seq<Warning>)
    requires vpcIds == vpcs.Keys
    requires EndpointPlaceable(vpcs, vpcIds, subnetIds, endpoint)
    ensures r == EndpointStep(vpcs, vpcIds, subnetIds, endpoint)
    ensures warnings == EndpointWarnings(vpcIds, subnetIds, endpoint)
  {
    r := vpcs;
    warnings := [];
    if endpoint.vpcId !in vpcIds {
      warnings := [UndiscoveredVpc(endpoint.vpcId, endpoint.vpcEndpointId)];
      return;
    }
    if endpoint.vpcEndpointType == "Interface" {
      r, warnings := MapInterfaceEndpoint(r, endpoint, subnetIds);
    }
    if endpoint.vpcEndpointType == "Gateway" {
      r := MapGatewayEndpoint(r, endpoint);
    }
  }

  /** The subnet loop of an Interface endpoint whose VPC is known. */
  method MapInterfaceEndpoint(vpcs: Vpcs, endpoint: RawVpcEndpoint, subnetIds: set<string>) returns (r: Vpcs, warnings: seq<Warning>)
    requires InterfacePlaceable(vpcs, subnetIds, endpoint)
    ensures r == InterfaceSubnets(vpcs, endpoint, subnetIds, endpoint.subnetIds)
    ensures warnings == InterfaceWarnings(endpoint, subnetIds, endpoint.subnetIds)
  {
    var sids := endpoint.subnetIds;
    r := vpcs;
    warnings := [];
    for j := 0 to |sids|
      invariant SameLayout(r, vpcs)
      invariant r == InterfaceSubnets(vpcs, endpoint, subnetIds, sids[..j])
      invariant warnings == InterfaceWarnings(endpoint, subnetIds, sids[..j])
    {
      assert sids[..j + 1][..j] == sids[..j];
      var subnet := sids[j];
      if subnet !in subnetIds {
        warnings := warnings + [UndiscoveredSubnet(subnet, endpoint.vpcEndpointId)];
        continue;
      }
      assert subnet in sids;
      SameLayoutWritableAt(r, vpcs, endpoint.vpcId, subnet);
      var name := GetNameTag(endpoint.tags);
      var created := InterfaceEndpoint(InterfaceEndpointData(endpoint, endpoint.vpcEndpointId, endpoint.serviceName, name), map[]);
      var sub := r[endpoint.vpcId].subnets[subnet];
      ghost var before := r;
      r := r[endpoint.vpcId := r[endpoint.vpcId].(subnets := r[endpoint.vpcId].subnets[subnet :=
             sub.(interfaceEndpoints := sub.interfaceEndpoints[endpoint.vpcEndpointId := created])])];
      assert r == WithSubnet(before, endpoint.vpcId, subnet, AddInterfaceEndpoint(sub, endpoint));
      WithSubnetLayout(before, endpoint.vpcId, subnet, AddInterfaceEndpoint(sub, endpoint));
      SameLayoutTransitive(r, before, vpcs);
    }
    assert sids[..|sids|] == sids;
  }

  /** The route-table loop of a Gateway endpoint whose VPC is known; the range over the VPC's subnets is one comprehension. */
  method MapGatewayEndpoint(vpcs: Vpcs, endpoint: RawVpcEndpoint) returns (r: Vpcs)
    requires endpoint.vpcId in vpcs
    ensures r == GatewayRouteTables(vpcs, endpoint, endpoint.routeTableIds)
  {
    var rtbs := endpoint.routeTableIds;
    r := vpcs;
    for j := 0 to |rtbs|
      invariant r == GatewayRouteTables(vpcs, endpoint, rtbs[..j])
    {
      assert rtbs[..j + 1][..j] == rtbs[..j];
      r := r[endpoint.vpcId := GatewayVpc(r[endpoint.vpcId], endpoint, rtbs[j])];
    }
    assert rtbs[..|rtbs|] == rtbs;
  }

  // ------------------------------------------------- what the pass produces

  /** An Interface endpoint reaches subnet `s` of `v`: its VPC is `v` and known, and it lists `s`, which is known. */
  predicate InterfaceReaches(e: RawVpcEndpoint, vpcIds: set<string>, subnetIds: set<string>, v: string, s: string)
  {
    IsInterface(e) && e.vpcId == v && v in vpcIds && s in e.subnetIds && s in subnetIds
  }

  /** One of the route tables `rtbs` routes a subnet of `d` whose id is `s`. */
  predicate RoutesTo(d: map<string, SubnetData>, rtbs: seq<string>, s: string)
  {
    exists rtb :: rtb in rtbs && Targeted(d, rtb, s)
  }

  /** A Gateway endpoint reaches subnet `s` of `v`: its VPC is `v` and known, and one of its tables routes `s`. */
  predicate GatewayReaches(e: RawVpcEndpoint, vpcIds: set<string>, d: map<string, SubnetData>, v: string, s: string)
  {
    IsGateway(e) && e.vpcId == v && v in vpcIds && RoutesTo(d, e.routeTableIds, s)
  }

  /** The Interface endpoints that reach (v, s), by endpoint id; a later record replaces an earlier one. */
  function InterfaceEndpointsFor(es: seq<RawVpcEndpoint>, vpcIds: set<string>, subnetIds: set<string>, v: string, s: string)
    : map<string, InterfaceEndpoint>
  {
    if |es| == 0 then map[]
    else
      var e := es[|es| - 1];
      InterfaceEndpointsFor(es[..|es| - 1], vpcIds, subnetIds, v, s) +
        (if InterfaceReaches(e, vpcIds, subnetIds, v, s) then map[e.vpcEndpointId := NewInterfaceEndpoint(e)] else map[])
  }

  /** The Gateway endpoints that reach (v, s), by endpoint id. */
  function GatewayEndpointsFor(es: seq<RawVpcEndpoint>, vpcIds: set<string>, d: map<string, SubnetData>, v: string, s: string)
    : map<string, GatewayEndpoint>
  {
    if |es| == 0 then map[]
    else
      var e := es[|es| - 1];
      GatewayEndpointsFor(es[..|es| - 1], vpcIds, d, v, s) +
        (if GatewayReaches(e, vpcIds, d, v, s) then map[e.vpcEndpointId := NewGatewayEndpoint(e)] else map[])
  }

  /** The subnet loop of an Interface endpoint adds it to the known listed subnets of its VPC and changes nothing else. */
  lemma {:induction false} InterfaceSubnetsAt(m: Vpcs, e: RawVpcEndpoint, subnetIds: set<string>, sids: seq<string>, v: string, s: string)
    requires forall sid :: sid in sids && sid in subnetIds ==> Writable(m, e.vpcId, sid)
    requires v in m && s in m[v].subnets
    ensures InterfaceSubnets(m, e, subnetIds, sids)[v].(subnets := m[v].subnets) == m[v]
    ensures InterfaceSubnets(m, e, subnetIds, sids)[v].subnets[s] ==
      if e.vpcId == v && s in sids && s in subnetIds then AddInterfaceEndpoint(m[v].subnets[s], e)
      else m[v].subnets[s]
  {
    if |sids| > 0 {
      var sid := sids[|sids| - 1];
      var p := sids[..|sids| - 1];
      assert forall x :: x in sids <==> x in p || x == sid;
      InterfaceSubnetsAt(m, e, subnetIds, p, v, s);
      var q := InterfaceSubnets(m, e, subnetIds, p);
      if sid in subnetIds {
        SameLayoutWritableAt(q, m, e.vpcId, sid);
        WithSubnetAt(q, e.vpcId, sid, AddInterfaceEndpoint(q[e.vpcId].subnets[sid], e), v, s);
      }
    }
  }

  lemma GatewayVpcAt(x: Vpc, e: RawVpcEndpoint, rtb: string, s: string)
    requires s in x.subnets
    ensures GatewayVpc(x, e, rtb).subnets[s] ==
      if Targeted(SubnetDataOf(x), rtb, s) then AddGatewayEndpoint(x.subnets[s], e) else x.subnets[s]
  {
  }

  /** One route table of a Gateway endpoint, seen from (v, s). */
  lemma GatewayRouteTableAt(m: Vpcs, e: RawVpcEndpoint, rtb: string, v: string, s: string)
    requires e.vpcId in m && v in m && s in m[v].subnets
    ensures GatewayRouteTable(m, e, rtb)[v].(subnets := m[v].subnets) == m[v]
    ensures GatewayRouteTable(m, e, rtb)[v].subnets[s] ==
      if e.vpcId == v && Targeted(SubnetDataOf(m[v]), rtb, s) then AddGatewayEndpoint(m[v].subnets[s], e)
      else m[v].subnets[s]
  {
    if e.vpcId == v {
      GatewayVpcAt(m[v], e, rtb, s);
    }
  }

  lemma RoutesToSnoc(d: map<string, SubnetData>, rtbs: seq<string>, s: string)
    requires |rtbs| > 0
    ensures RoutesTo(d, rtbs, s) <==> RoutesTo(d, rtbs[..|rtbs| - 1], s) || Targeted(d, rtbs[|rtbs| - 1], s)
  {
    assert forall x :: x in rtbs <==> x in rtbs[..|rtbs| - 1] || x == rtbs[|rtbs| - 1];
  }

  lemma GatewayRouteTablesData(m: Vpcs, e: RawVpcEndpoint, rtbs: seq<string>, v: string)
    requires e.vpcId in m && v in m
    ensures SubnetDataOf(GatewayRouteTables(m, e, rtbs)[v]) == SubnetDataOf(m[v])
  {
    assert DataOf(GatewayRouteTables(m, e, rtbs))[v] == DataOf(m)[v];
  }

  /** The route-table loop of a Gateway endpoint changes nothing outside the subnets' gateway endpoints. */
  lemma {:induction false} GatewayRouteTablesFrame(m: Vpcs, e: RawVpcEndpoint, rtbs: seq<string>, v: string, s: string)
    requires e.vpcId in m && v in m && s in m[v].subnets
    ensures GatewayRouteTables(m, e, rtbs)[v].(subnets := m[v].subnets) == m[v]
    ensures GatewayRouteTables(m, e, rtbs)[v].subnets[s] ==
      m[v].subnets[s].(gatewayEndpoints := GatewayRouteTables(m, e, rtbs)[v].subnets[s].gatewayEndpoints)
  {
    if |rtbs| > 0 {
      var p := rtbs[..|rtbs| - 1];
      GatewayRouteTablesFrame(m, e, p, v, s);
      GatewayRouteTableAt(GatewayRouteTables(m, e, p), e, rtbs[|rtbs| - 1], v, s);
    }
  }

  /** The route-table loop of a Gateway endpoint adds it to the subnets its tables route. */
  lemma {:induction false} GatewayRouteTablesAt(m: Vpcs, e: RawVpcEndpoint, rtbs: seq<string>, v: string, s: string)
    requires e.vpcId in m && v in m && s in m[v].subnets
    ensures GatewayRouteTables(m, e, rtbs)[v].subnets[s].gatewayEndpoints ==
      if e.vpcId == v && RoutesTo(SubnetDataOf(m[v]), rtbs, s) then m[v].subnets[s].gatewayEndpoints[e.vpcEndpointId := NewGatewayEndpoint(e)]
      else m[v].subnets[s].gatewayEndpoints
  {
    if |rtbs| > 0 {
      var rtb := rtbs[|rtbs| - 1];
      var p := rtbs[..|rtbs| - 1];
      GatewayRouteTablesAt(m, e, p, v, s);
      var q := GatewayRouteTables(m, e, p);
      GatewayRouteTablesData(m, e, p, v);
      RoutesToSnoc(SubnetDataOf(m[v]), rtbs, s);
      GatewayRouteTableAt(q, e, rtb, v, s);
    }
  }

  /** One endpoint, seen from (v, s). */
  lemma EndpointStepAt(m: Vpcs, vpcIds: set<string>, subnetIds: set<string>, e: RawVpcEndpoint, v: string, s: string)
    requires vpcIds == m.Keys
    requires EndpointPlaceable(m, vpcIds, subnetIds, e)
    requires v in m && s in m[v].subnets
    ensures EndpointStep(m, vpcIds, subnetIds, e)[v].(subnets := m[v].subnets) == m[v]
    ensures EndpointStep(m, vpcIds, subnetIds, e)[v].subnets[s] ==
      m[v].subnets[s].(
        interfaceEndpoints :=
          if InterfaceReaches(e, vpcIds, subnetIds, v, s) then m[v].subnets[s].interfaceEndpoints[e.vpcEndpointId := NewInterfaceEndpoint(e)]
          else m[v].subnets[s].interfaceEndpoints,
        gatewayEndpoints :=
          if GatewayReaches(e, vpcIds, SubnetDataOf(m[v]), v, s) then m[v].subnets[s].gatewayEndpoints[e.vpcEndpointId := NewGatewayEndpoint(e)]
          else m[v].subnets[s].gatewayEndpoints)
  {
    if e.vpcId in vpcIds {
      if IsInterface(e) {
        InterfaceSubnetsAt(m, e, subnetIds, e.subnetIds, v, s);
      }
      if IsGateway(e) {
        GatewayRouteTablesFrame(m, e, e.routeTableIds, v, s);
        GatewayRouteTablesAt(m, e, e.routeTableIds, v, s);
      }
    }
  }

  /**
   * mapVpcEndpoints, per subnet: the subnet keeps all but its two endpoint
   * maps, which gain exactly the endpoints that reach it.
   */
  lemma {:induction false} MappedEndpointsAt(m: Vpcs, vpcIds: set<string>, subnetIds: set<string>, es: seq<RawVpcEndpoint>, v: string, s: string)
    requires vpcIds == m.Keys
    requires EndpointsPlaceable(m, vpcIds, subnetIds, es)
    requires v in m && s in m[v].subnets
    ensures MappedEndpoints(m, vpcIds, subnetIds, es)[v].(subnets := m[v].subnets) == m[v]
    ensures MappedEndpoints(m, vpcIds, subnetIds, es)[v].subnets[s] ==
      m[v].subnets[s].(
        interfaceEndpoints := m[v].subnets[s].interfaceEndpoints + InterfaceEndpointsFor(es, vpcIds, subnetIds, v, s),
        gatewayEndpoints := m[v].subnets[s].gatewayEndpoints + GatewayEndpointsFor(es, vpcIds, SubnetDataOf(m[v]), v, s))
  {
    if |es| > 0 {
      var e := es[|es| - 1];
      var p := es[..|es| - 1];
      assert EndpointsPlaceable(m, vpcIds, subnetIds, p) by {
        forall y | y in p ensures y in es { }
      }
      MappedEndpointsAt(m, vpcIds, subnetIds, p, v, s);
      var q := MappedEndpoints(m, vpcIds, subnetIds, p);
      assert e in es;
      EndpointPlaceableSame(m, q, vpcIds, subnetIds, e);
      assert DataOf(q)[v] == DataOf(m)[v];
      EndpointStepAt(q, vpcIds, subnetIds, e, v, s);
      var ie := m[v].subnets[s].interfaceEndpoints;
      var ge := m[v].subnets[s].gatewayEndpoints;
      var d := SubnetDataOf(m[v]);
      if InterfaceReaches(e, vpcIds, subnetIds, v, s) {
        PlusUpdate(ie, InterfaceEndpointsFor(p, vpcIds, subnetIds, v, s), e.vpcEndpointId, NewInterfaceEndpoint(e));
      } else {
        PlusEmpty(ie, InterfaceEndpointsFor(p, vpcIds, subnetIds, v, s));
      }
      if GatewayReaches(e, vpcIds, d, v, s) {
        PlusUpdate(ge, GatewayEndpointsFor(p, vpcIds, d, v, s), e.vpcEndpointId, NewGatewayEndpoint(e));
      } else {
        PlusEmpty(ge, GatewayEndpointsFor(p, vpcIds, d, v, s));
      }
    }
  }

  /** The entry under an endpoint id comes from a record that reaches the subnet, and every such record has one. */
  lemma {:induction false} InterfaceEndpointsForMembers(es: seq<RawVpcEndpoint>, vpcIds: set<string>, subnetIds: set<string>,
                                                         v: string, s: string, k: string)
    ensures k in InterfaceEndpointsFor(es, vpcIds, subnetIds, v, s) ==>
      exists e :: e in es && InterfaceReaches(e, vpcIds, subnetIds, v, s) && e.vpcEndpointId == k &&
        InterfaceEndpointsFor(es, vpcIds, subnetIds, v, s)[k] == NewInterfaceEndpoint(e)
    ensures (exists e :: e in es && InterfaceReaches(e, vpcIds, subnetIds, v, s) && e.vpcEndpointId == k) ==>
      k in InterfaceEndpointsFor(es, vpcIds, subnetIds, v, s)
  {
    if |es| > 0 {
      var p := es[..|es| - 1];
      InterfaceEndpointsForMembers(p, vpcIds, subnetIds, v, s, k);
      assert forall y :: y in es <==> y in p || y == es[|es| - 1];
    }
  }

  lemma {:induction false} GatewayEndpointsForMembers(es: seq<RawVpcEndpoint>, vpcIds: set<string>, d: map<string, SubnetData>,
                                                       v: string, s: string, k: string)
    ensures k in GatewayEndpointsFor(es, vpcIds, d, v, s) ==>
      exists e :: e in es && GatewayReaches(e, vpcIds, d, v, s) && e.vpcEndpointId == k &&
        GatewayEndpointsFor(es, vpcIds, d, v, s)[k] == NewGatewayEndpoint(e)
    ensures (exists e :: e in es && GatewayReaches(e, vpcIds, d, v, s) && e.vpcEndpointId == k) ==>
      k in GatewayEndpointsFor(es, vpcIds, d, v, s)
  {
    if |es| > 0 {
      var p := es[..|es| - 1];
      GatewayEndpointsForMembers(p, vpcIds, d, v, s, k);
      assert forall y :: y in es <==> y in p || y == es[|es| - 1];
    }
  }

  /**
   * Every subnet is stored under its own id, as mapSubnets stores them, or
   * has an empty id: the zero-valued subnet mapRouteTables stores for an
   * explicit association naming a subnet the VPC does not list.
   */
  predicate KeyedById(d: map<string, SubnetData>)
  {
    forall k :: k in d ==> d[k].id == k || d[k].id == ""
  }

  /** Whether a subnet's own route table is one of `rtbs`. */
  predicate UsesTable(x: SubnetData, rtbs: seq<string>)
  {
    x.routeTable.Some? && x.routeTable.value.id in rtbs
  }

  /**
   * When subnets are keyed by their ids, a Gateway endpoint's tables route
   * a subnet with an id exactly when that subnet is stored under its id
   * (not as a zero value) and its own route table is one of them; they
   * route the empty id when some zero-valued subnet uses one of them.
   */
  lemma RoutesToExactly(d: map<string, SubnetData>, rtbs: seq<string>, s: string)
    requires KeyedById(d)
    ensures s != "" ==> (RoutesTo(d, rtbs, s) <==> s in d && d[s].id == s && UsesTable(d[s], rtbs))
    ensures s == "" ==> (RoutesTo(d, rtbs, s) <==> exists k :: k in d && d[k].id == "" && UsesTable(d[k], rtbs))
  {
    if s != "" && s in d && d[s].id == s && UsesTable(d[s], rtbs) {
      assert Targeted(d, d[s].routeTable.value.id, s);
    }
    if s == "" && exists k :: k in d && d[k].id == "" && UsesTable(d[k], rtbs) {
      var k :| k in d && d[k].id == "" && UsesTable(d[k], rtbs);
      assert Targeted(d, d[k].routeTable.value.id, s);
    }
  }

  /**
   * With subnets keyed by their ids, a Gateway endpoint of VPC v reaches a
   * subnet s with an id exactly when s is stored under its id and its own
   * route table is one of the endpoint's.
   */
  lemma GatewayEndpointsForExactly(es: seq<RawVpcEndpoint>, vpcIds: set<string>, d: map<string, SubnetData>,
                                   v: string, s: string, k: string)
    requires KeyedById(d) && v in vpcIds && s != ""
    ensures k in GatewayEndpointsFor(es, vpcIds, d, v, s) <==>
      exists e :: e in es && IsGateway(e) && e.vpcId == v && e.vpcEndpointId == k &&
        s in d && d[s].id == s && UsesTable(d[s], e.routeTableIds)
  {
    GatewayEndpointsForMembers(es, vpcIds, d, v, s, k);
    forall e | e in es
      ensures RoutesTo(d, e.routeTableIds, s) <==> s in d && d[s].id == s && UsesTable(d[s], e.routeTableIds)
    {
      RoutesToExactly(d, e.routeTableIds, s);
    }
  }

  /**
   * The empty id is reached exactly through the zero-valued subnets: the
   * endpoint is filed under the key "" when some such subnet uses one of
   * its tables.
   */
  lemma GatewayEndpointsForZero(es: seq<RawVpcEndpoint>, vpcIds: set<string>, d: map<string, SubnetData>,
                                v: string, k: string)
    requires KeyedById(d) && v in vpcIds
    ensures k in GatewayEndpointsFor(es, vpcIds, d, v, "") <==>
      exists e :: e in es && IsGateway(e) && e.vpcId == v && e.vpcEndpointId == k &&
        exists z :: z in d && d[z].id == "" && UsesTable(d[z], e.routeTableIds)
  {
    GatewayEndpointsForMembers(es, vpcIds, d, v, "", k);
    forall e | e in es
      ensures RoutesTo(d, e.routeTableIds, "") <==> exists z :: z in d && d[z].id == "" && UsesTable(d[z], e.routeTableIds)
    {
      RoutesToExactly(d, e.routeTableIds, "");
    }
  }

  /** What one endpoint makes the pass print. */
  predicate Warns(e: RawVpcEndpoint, vpcIds: set<string>, subnetIds: set<string>, w: Warning)
  {
    if e.vpcId !in vpcIds then
      w == UndiscoveredVpc(e.vpcId, e.vpcEndpointId)
    else
      IsInterface(e) && w.UndiscoveredSubnet? && w.endpointId == e.vpcEndpointId &&
      w.subnetId in e.subnetIds && w.subnetId !in subnetIds
  }

  lemma {:induction false} InterfaceWarningsMembers(e: RawVpcEndpoint, subnetIds: set<string>, sids: seq<string>, w: Warning)
    ensures w in InterfaceWarnings(e, subnetIds, sids) <==>
      w.UndiscoveredSubnet? && w.endpointId == e.vpcEndpointId && w.subnetId in sids && w.subnetId !in subnetIds
  {
    if |sids| > 0 {
      var p := sids[..|sids| - 1];
      InterfaceWarningsMembers(e, subnetIds, p, w);
      assert forall y :: y in sids <==> y in p || y == sids[|sids| - 1];
    }
  }

  /**
   * The pass prints a warning exactly for each endpoint whose VPC is
   * unknown and for each unknown subnet an Interface endpoint lists.
   */
  lemma {:induction false} MappedWarningsMembers(vpcIds: set<string>, subnetIds: set<string>, es: seq<RawVpcEndpoint>, w: Warning)
    ensures w in MappedWarnings(vpcIds, subnetIds, es) <==> exists e :: e in es && Warns(e, vpcIds, subnetIds, w)
  {
    if |es| > 0 {
      var p := es[..|es| - 1];
      var e := es[|es| - 1];
      MappedWarningsMembers(vpcIds, subnetIds, p, w);
      assert forall y :: y in es <==> y in p || y == e;
      if e.vpcId in vpcIds && IsInterface(e) {
        InterfaceWarningsMembers(e, subnetIds, e.subnetIds, w);
      }
      assert w in EndpointWarnings(vpcIds, subnetIds, e) <==> Warns(e, vpcIds, subnetIds, w);
      if Warns(e, vpcIds, subnetIds, w) {
        assert w in MappedWarnings(vpcIds, subnetIds, es);
      }
    }
  }
}
