/**
 * Route tables and gateways (mappings.go): the default route of a table,
 * the two-pass resolution of which table each subnet uses, and the
 * internet, egress-only and VPN gateway lists of each VPC.
 */
module MapRoutes {
  import opened Wrappers
  import opened Ec2
  import opened Model

  // -------------------------------------------------------- getDefaultRoute

  predicate IsDefaultDestination(r: Route)
  {
    r.destinationCidrBlock == "0.0.0.0/0" || r.destinationIpv6CidrBlock == "::/0"
  }

  /** The targets of a route in the order getDefaultRoute consults them. */
  function Targets(r: Route): seq<string>
  {
    [r.carrierGatewayId, r.egressOnlyInternetGatewayId, r.gatewayId, r.instanceId, r.localGatewayId,
     r.natGatewayId, r.networkInterfaceId, r.transitGatewayId, r.vpcPeeringConnectionId, r.coreNetworkArn]
  }

  /** The first non-empty string of `xs`, or "" when all are empty. */
  function FirstNonEmpty(xs: seq<string>): (r: string)
    ensures r == "" <==> forall i :: 0 <= i < |xs| ==> xs[i] == ""
    ensures r != "" ==> exists i :: 0 <= i < |xs| && xs[i] == r && forall j :: 0 <= j < i ==> xs[j] == ""
  {
    if |xs| == 0 then ""
    else if xs[0] != "" then xs[0]
    else
      var t := FirstNonEmpty(xs[1..]);
      assert forall i :: 1 <= i < |xs| ==> xs[i] == xs[1..][i - 1];
      t
  }

  /** The target a route contributes: its first non-empty target. */
  function RouteTarget(r: Route): string
  {
    FirstNonEmpty(Targets(r))
  }

  /** A default-destination route with some target: the kind getDefaultRoute stops at. */
  predicate Usable(r: Route)
  {
    IsDefaultDestination(r) && RouteTarget(r) != ""
  }

  function DefaultRoute(routes: seq<Route>): string
  {
    if |routes| == 0 then ""
    else if Usable(routes[0]) then RouteTarget(routes[0])
    else DefaultRoute(routes[1..])
  }

  /**
   * getDefaultRoute returns the target of the first usable route, and ""
   * when there is none; a default-destination route with no target is
   * passed over.
   */
  lemma {:induction false} DefaultRouteIsFirstUsable(routes: seq<Route>)
    ensures (forall i :: 0 <= i < |routes| ==> !Usable(routes[i])) ==> DefaultRoute(routes) == ""
    ensures forall i :: (0 <= i < |routes| && Usable(routes[i]) && (forall j :: 0 <= j < i ==> !Usable(routes[j]))) ==>
      DefaultRoute(routes) == RouteTarget(routes[i])
  {
    if |routes| > 0 {
      DefaultRouteIsFirstUsable(routes[1..]);
      assert forall i :: 1 <= i < |routes| ==> routes[i] == routes[1..][i - 1];
    }
  }

  /**
   * The target of a route is the first non-empty one of carrier gateway,
   * egress-only internet gateway, gateway, instance, local gateway, NAT
   * gateway, network interface, transit gateway, peering connection and
   * core network, in that order.
   */
  lemma RouteTargetOrder(r: Route)
    ensures RouteTarget(r) ==
      if r.carrierGatewayId != "" then r.carrierGatewayId
      else if r.egressOnlyInternetGatewayId != "" then r.egressOnlyInternetGatewayId
      else if r.gatewayId != "" then r.gatewayId
      else if r.instanceId != "" then r.instanceId
      else if r.localGatewayId != "" then r.localGatewayId
      else if r.natGatewayId != "" then r.natGatewayId
      else if r.networkInterfaceId != "" then r.networkInterfaceId
      else if r.transitGatewayId != "" then r.transitGatewayId
      else if r.vpcPeeringConnectionId != "" then r.vpcPeeringConnectionId
      else r.coreNetworkArn
  {
    var t := Targets(r);
    assert t[0..] == t;
    RouteTargetTail(r);
    FirstNonEmptyStep(t, 4);
    FirstNonEmptyStep(t, 3);
    FirstNonEmptyStep(t, 2);
    FirstNonEmptyStep(t, 1);
    FirstNonEmptyStep(t, 0);
  }

  /** The last five targets, from the NAT gateway on. */
  lemma RouteTargetTail(r: Route)
    ensures FirstNonEmpty(Targets(r)[5..]) ==
      if r.natGatewayId != "" then r.natGatewayId
      else if r.networkInterfaceId != "" then r.networkInterfaceId
      else if r.transitGatewayId != "" then r.transitGatewayId
      else if r.vpcPeeringConnectionId != "" then r.vpcPeeringConnectionId
      else r.coreNetworkArn
  {
    var t := Targets(r);
    assert t[10..] == [];
    FirstNonEmptyStep(t, 9);
    FirstNonEmptyStep(t, 8);
    FirstNonEmptyStep(t, 7);
    FirstNonEmptyStep(t, 6);
    FirstNonEmptyStep(t, 5);
  }

  lemma FirstNonEmptyStep(xs: seq<string>, k: int)
    requires 0 <= k < |xs|
    ensures FirstNonEmpty(xs[k..]) == if xs[k] != "" then xs[k] else FirstNonEmpty(xs[k + 1..])
  {
    assert xs[k..][1..] == xs[k + 1..];
  }

  method GetDefaultRoute(rtb: RawRouteTable) returns (dest: string)
    ensures dest == DefaultRoute(rtb.routes)
  {
    var routes := rtb.routes;
    for i := 0 to |routes|
      invariant DefaultRoute(routes) == DefaultRoute(routes[i..])
    {
      assert routes[i..][1..] == routes[i + 1..];
      var route := routes[i];
      if !(route.destinationCidrBlock == "0.0.0.0/0" || route.destinationIpv6CidrBlock == "::/0") {
        continue;
      }
      RouteTargetOrder(route);
      if route.carrierGatewayId != "" { return route.carrierGatewayId; }
      if route.egressOnlyInternetGatewayId != "" { return route.egressOnlyInternetGatewayId; }
      if route.gatewayId != "" { return route.gatewayId; }
      if route.instanceId != "" { return route.instanceId; }
      if route.localGatewayId != "" { return route.localGatewayId; }
      if route.natGatewayId != "" { return route.natGatewayId; }
      if route.networkInterfaceId != "" { return route.networkInterfaceId; }
      if route.transitGatewayId != "" { return route.transitGatewayId; }
      if route.vpcPeeringConnectionId != "" { return route.vpcPeeringConnectionId; }
      if route.coreNetworkArn != "" { return route.coreNetworkArn; }
    }
    return "";
  }

  // --------------------------------------------------------- mapRouteTables

  /** What a subnet records about the table it uses: the table's id and default route. */
  function TableFor(rt: RawRouteTable): RouteTable
  {
    RouteTable(rt.routeTableId, DefaultRoute(rt.routes))
  }

  function WithTable(s: Subnet, t: RouteTable): Subnet
  {
    s.(data := s.data.(routeTable := Some(t)))
  }

  /** `b` is `a` with at most its route table changed. */
  predicate TableOnly(a: Subnet, b: Subnet)
  {
    a.(data := a.data.(routeTable := b.data.routeTable)) == b
  }

  /** The subnet at `sid`, or the zero subnet a Go value-map read returns. */
  function SubnetOrStub(v: Vpc, sid: string): Subnet
  {
    if sid in v.subnets then v.subnets[sid] else StubSubnet
  }

  /** A table with a main association for `vid`. */
  predicate MainFor(rt: RawRouteTable, vid: string)
  {
    rt.vpcId == vid && exists a :: a in rt.associations && a.main
  }

  /** The associations the second pass acts on: associated and not main. */
  predicate IsExplicit(a: RouteTableAssociation)
  {
    a.state == "associated" && !a.main
  }

  predicate ExplicitIn(assocs: seq<RouteTableAssociation>, sid: string)
  {
    exists a :: a in assocs && IsExplicit(a) && a.subnetId == sid
  }

  /** A table explicitly associated with subnet `sid` of `vid`. */
  predicate ExplicitFor(rt: RawRouteTable, vid: string, sid: string)
  {
    rt.vpcId == vid && ExplicitIn(rt.associations, sid)
  }

  /** The VPC of every table with an explicit association is present with a subnet map (else the second pass panics). */
  predicate RouteTablesPlaceable(m: Vpcs, rts: seq<RawRouteTable>)
  {
    forall rt, a :: rt in rts && a in rt.associations && IsExplicit(a) ==> VpcWritable(m, rt.vpcId)
  }

  lemma RouteTablesPlaceableSame(m: Vpcs, q: Vpcs, rts: seq<RawRouteTable>)
    requires RouteTablesPlaceable(m, rts) && SameVpcs(q, m)
    ensures RouteTablesPlaceable(q, rts)
  {
  }

  /** Every subnet of a map takes table `t`. */
  function AllWithTable(subnets: map<string, Subnet>, t: RouteTable): (r: map<string, Subnet>)
    ensures r.Keys == subnets.Keys
    ensures forall k :: k in subnets ==> r[k] == WithTable(subnets[k], t) && r[k].stub == subnets[k].stub
  {
    map k | k in subnets :: WithTable(subnets[k], t)
  }

  /** A main association: every subnet of the table's VPC (none when the VPC is absent) takes the table. */
  function MainStep(m: Vpcs, rt: RawRouteTable): (r: Vpcs)
    ensures SameLayout(r, m)
  {
    if rt.vpcId in m then
      var v := m[rt.vpcId];
      m[rt.vpcId := v.(subnets := AllWithTable(v.subnets, TableFor(rt)))]
    else m
  }

  /** The first pass over the associations of one table. */
  function MainAssociations(m: Vpcs, rt: RawRouteTable, assocs: seq<RouteTableAssociation>): (r: Vpcs)
    ensures SameLayout(r, m)
  {
    if |assocs| == 0 then m
    else
      var q := MainAssociations(m, rt, assocs[..|assocs| - 1]);
      if assocs[|assocs| - 1].main then MainStep(q, rt) else q
  }

  /** The first pass of mapRouteTables. */
  function MainPass(m: Vpcs, rts: seq<RawRouteTable>): (r: Vpcs)
    ensures SameLayout(r, m)
  {
    if |rts| == 0 then m
    else
      var q := MainPass(m, rts[..|rts| - 1]);
      MainAssociations(q, rts[|rts| - 1], rts[|rts| - 1].associations)
  }

  /** An explicit association: its subnet (a zero subnet when unknown) takes the table. */
  function ExplicitStep(m: Vpcs, rt: RawRouteTable, a: RouteTableAssociation): (r: Vpcs)
    requires IsExplicit(a) ==> VpcWritable(m, rt.vpcId)
    ensures SameVpcs(r, m)
  {
    if IsExplicit(a) then
      WithSubnet(m, rt.vpcId, a.subnetId, WithTable(SubnetOrStub(m[rt.vpcId], a.subnetId), TableFor(rt)))
    else m
  }

  /** The second pass over the associations of one table. */
  function ExplicitAssociations(m: Vpcs, rt: RawRouteTable, assocs: seq<RouteTableAssociation>): (r: Vpcs)
    requires forall a :: a in assocs && IsExplicit(a) ==> VpcWritable(m, rt.vpcId)
    ensures SameVpcs(r, m)
  {
    if |assocs| == 0 then m
    else
      var p := assocs[..|assocs| - 1];
      assert forall a :: a in p ==> a in assocs;
      var q := ExplicitAssociations(m, rt, p);
      var a := assocs[|assocs| - 1];
      assert IsExplicit(a) ==> VpcWritable(q, rt.vpcId) by {
        if IsExplicit(a) {
          assert a in assocs;
          assert VpcWritable(m, rt.vpcId);
          assert rt.vpcId in q.Keys;
        }
      }
      ExplicitStep(q, rt, a)
  }

  /** The second pass of mapRouteTables. */
  function ExplicitPass(m: Vpcs, rts: seq<RawRouteTable>): (r: Vpcs)
    requires RouteTablesPlaceable(m, rts)
    ensures SameVpcs(r, m)
  {
    if |rts| == 0 then m
    else
      var p := rts[..|rts| - 1];
      assert forall rt :: rt in p ==> rt in rts;
      var q := ExplicitPass(m, p);
      RouteTablesPlaceableSame(m, q, rts);
      ExplicitAssociations(q, rts[|rts| - 1], rts[|rts| - 1].associations)
  }

  function MappedRouteTables(m: Vpcs, rts: seq<RawRouteTable>): (r: Vpcs)
    requires RouteTablesPlaceable(m, rts)
    ensures SameVpcs(r, m)
  {
    var q := MainPass(m, rts);
    RouteTablesPlaceableSame(m, q, rts);
    ExplicitPass(q, rts)
  }

  method MapRouteTables(vpcs: Vpcs, routeTables: seq<RawRouteTable>) returns (r: Vpcs)
    requires RouteTablesPlaceable(vpcs, routeTables)
    ensures r == MappedRouteTables(vpcs, routeTables)
  {
    var first := MapMainPass(vpcs, routeTables);
    RouteTablesPlaceableSame(vpcs, first, routeTables);
    r := MapExplicitPass(first, routeTables);
  }

  /** The first loop of mapRouteTables: main associations, table by table. */
  method MapMainPass(vpcs: Vpcs, routeTables: seq<RawRouteTable>) returns (r: Vpcs)
    ensures r == MainPass(vpcs, routeTables)
  {
    r := vpcs;
    for i := 0 to |routeTables|
      invariant r == MainPass(vpcs, routeTables[..i])
    {
      assert routeTables[..i + 1][..i] == routeTables[..i];
      r := MapMainAssociations(r, routeTables[i]);
    }
    assert routeTables[..|routeTables|] == routeTables;
  }

  /** The second loop of mapRouteTables: explicit associations, table by table. */
  method MapExplicitPass(vpcs: Vpcs, routeTables: seq<RawRouteTable>) returns (r: Vpcs)
    requires RouteTablesPlaceable(vpcs, routeTables)
    ensures r == ExplicitPass(vpcs, routeTables)
  {
    r := vpcs;
    for i := 0 to |routeTables|
      invariant RouteTablesPlaceable(vpcs, routeTables[..i])
      invariant r == ExplicitPass(vpcs, routeTables[..i])
    {
      assert routeTables[..i + 1][..i] == routeTables[..i];
      RouteTablesPlaceableSame(vpcs, r, routeTables);
      r := MapExplicitAssociations(r, routeTables[i]);
    }
    assert routeTables[..|routeTables|] == routeTables;
  }

  /** The first pass's loop over the associations of one table. */
  method MapMainAssociations(vpcs: Vpcs, routeTable: RawRouteTable) returns (r: Vpcs)
    ensures r == MainAssociations(vpcs, routeTable, routeTable.associations)
  {
    var assocs := routeTable.associations;
    r := vpcs;
    for j := 0 to |assocs|
      invariant r == MainAssociations(vpcs, routeTable, assocs[..j])
    {
      assert assocs[..j + 1][..j] == assocs[..j];
      if assocs[j].main {
        r := MapMainAssociation(r, routeTable);
      }
    }
    assert assocs[..|assocs|] == assocs;
  }

  /** One main association: the table goes to every subnet of its VPC. */
  method MapMainAssociation(vpcs: Vpcs, routeTable: RawRouteTable) returns (r: Vpcs)
    ensures r == MainStep(vpcs, routeTable)
  {
    r := vpcs;
    if routeTable.vpcId in vpcs {
      var defaultRoute := GetDefaultRoute(routeTable);
      var table := RouteTable(routeTable.routeTableId, defaultRoute);
      var vpc := vpcs[routeTable.vpcId];
      r := vpcs[routeTable.vpcId := vpc.(subnets := AllWithTable(vpc.subnets, table))];
    }
  }

  /** The second pass's loop over the associations of one table. */
  method MapExplicitAssociations(vpcs: Vpcs, routeTable: RawRouteTable) returns (r: Vpcs)
    requires forall a :: a in routeTable.associations && IsExplicit(a) ==> VpcWritable(vpcs, routeTable.vpcId)
    ensures r == ExplicitAssociations(vpcs, routeTable, routeTable.associations)
  {
    var assocs := routeTable.associations;
    r := vpcs;
    for j := 0 to |assocs|
      invariant r == ExplicitAssociations(vpcs, routeTable, assocs[..j])
    {
      ExplicitNext(vpcs, routeTable, assocs, j);
      r := MapExplicitAssociation(r, routeTable, assocs[j]);
    }
    assert assocs[..|assocs|] == assocs;
  }

  /** The walk over one table's associations after `j` of them, and after one more. */
  lemma ExplicitNext(m: Vpcs, rt: RawRouteTable, assocs: seq<RouteTableAssociation>, j: int)
    requires forall a :: a in assocs && IsExplicit(a) ==> VpcWritable(m, rt.vpcId)
    requires 0 <= j < |assocs|
    ensures forall a :: a in assocs[..j] && IsExplicit(a) ==> VpcWritable(m, rt.vpcId)
    ensures forall a :: a in assocs[..j + 1] && IsExplicit(a) ==> VpcWritable(m, rt.vpcId)
    ensures IsExplicit(assocs[j]) ==> VpcWritable(ExplicitAssociations(m, rt, assocs[..j]), rt.vpcId)
    ensures ExplicitAssociations(m, rt, assocs[..j + 1]) == ExplicitStep(ExplicitAssociations(m, rt, assocs[..j]), rt, assocs[j])
  {
    assert forall a :: a in assocs[..j] ==> a in assocs;
    assert forall a :: a in assocs[..j + 1] ==> a in assocs;
    assert assocs[j] in assocs;
    assert assocs[..j + 1][..j] == assocs[..j];
  }

  /** The body of the association loop, for one association. */
  method MapExplicitAssociation(vpcs: Vpcs, routeTable: RawRouteTable, association: RouteTableAssociation) returns (r: Vpcs)
    requires IsExplicit(association) ==> VpcWritable(vpcs, routeTable.vpcId)
    ensures r == ExplicitStep(vpcs, routeTable, association)
  {
    if association.state != "associated" || association.main {
      return vpcs;
    }
    var subnet := SubnetOrStub(vpcs[routeTable.vpcId], association.subnetId);
    var defaultRoute := GetDefaultRoute(routeTable);
    subnet := subnet.(data := subnet.data.(routeTable := Some(RouteTable(routeTable.routeTableId, defaultRoute))));
    r := vpcs[routeTable.vpcId := vpcs[routeTable.vpcId].(subnets := vpcs[routeTable.vpcId].subnets[association.subnetId := subnet])];
  }

  lemma MainStepAt(m: Vpcs, rt: RawRouteTable, v: string, s: string)
    requires v in m
    ensures MainStep(m, rt)[v].(subnets := m[v].subnets) == m[v]
    ensures s in m[v].subnets ==> MainStep(m, rt)[v].subnets[s] == if rt.vpcId == v then WithTable(m[v].subnets[s], TableFor(rt)) else m[v].subnets[s]
  {
  }

  lemma {:induction false} MainAssociationsAt(m: Vpcs, rt: RawRouteTable, assocs: seq<RouteTableAssociation>, v: string, s: string)
    requires v in m
    ensures MainAssociations(m, rt, assocs)[v].(subnets := m[v].subnets) == m[v]
    ensures s in m[v].subnets ==>
      MainAssociations(m, rt, assocs)[v].subnets[s] ==
        if rt.vpcId == v && exists a :: a in assocs && a.main then WithTable(m[v].subnets[s], TableFor(rt)) else m[v].subnets[s]
  {
    if |assocs| > 0 {
      var p := assocs[..|assocs| - 1];
      var last := assocs[|assocs| - 1];
      MainAssociationsAt(m, rt, p, v, s);
      var q := MainAssociations(m, rt, p);
      if last.main {
        MainStepAt(q, rt, v, s);
        assert last in assocs;
      } else {
        assert (exists a :: a in assocs && a.main) <==> (exists a :: a in p && a.main) by {
          assert forall a :: a in assocs <==> a in p || a == last;
        }
      }
    }
  }

  /** The first pass changes nothing in a VPC but the route tables of its subnets. */
  lemma {:induction false} MainPassFrame(m: Vpcs, rts: seq<RawRouteTable>, v: string, s: string)
    requires v in m
    ensures MainPass(m, rts)[v].(subnets := m[v].subnets) == m[v]
    ensures s in m[v].subnets ==> TableOnly(m[v].subnets[s], MainPass(m, rts)[v].subnets[s])
  {
    if |rts| > 0 {
      var p := rts[..|rts| - 1];
      MainPassFrame(m, p, v, s);
      MainAssociationsAt(MainPass(m, p), rts[|rts| - 1], rts[|rts| - 1].associations, v, s);
    }
  }

  /** After the first pass a subnet carries the last main table of its VPC ... */
  lemma {:induction false} MainPassLast(m: Vpcs, rts: seq<RawRouteTable>, i: int, v: string, s: string)
    requires v in m && s in m[v].subnets
    requires 0 <= i < |rts| && MainFor(rts[i], v)
    requires forall j :: i < j < |rts| ==> !MainFor(rts[j], v)
    ensures MainPass(m, rts)[v].subnets[s] == WithTable(m[v].subnets[s], TableFor(rts[i]))
  {
    var p := rts[..|rts| - 1];
    var q := MainPass(m, p);
    MainAssociationsAt(q, rts[|rts| - 1], rts[|rts| - 1].associations, v, s);
    if i == |rts| - 1 {
      MainPassFrame(m, p, v, s);
    } else {
      MainPassLast(m, p, i, v, s);
    }
  }

  /** ... and is untouched when its VPC has none. */
  lemma {:induction false} MainPassNone(m: Vpcs, rts: seq<RawRouteTable>, v: string, s: string)
    requires v in m && s in m[v].subnets
    requires forall j :: 0 <= j < |rts| ==> !MainFor(rts[j], v)
    ensures MainPass(m, rts)[v].subnets[s] == m[v].subnets[s]
  {
    if |rts| > 0 {
      var p := rts[..|rts| - 1];
      MainPassNone(m, p, v, s);
      MainAssociationsAt(MainPass(m, p), rts[|rts| - 1], rts[|rts| - 1].associations, v, s);
    }
  }

  lemma ExplicitStepAt(m: Vpcs, rt: RawRouteTable, a: RouteTableAssociation, v: string, s: string)
    requires IsExplicit(a) ==> VpcWritable(m, rt.vpcId)
    requires v in m
    ensures ExplicitStep(m, rt, a)[v].(subnets := m[v].subnets) == m[v]
    ensures if IsExplicit(a) && rt.vpcId == v && a.subnetId == s
      then s in ExplicitStep(m, rt, a)[v].subnets &&
           ExplicitStep(m, rt, a)[v].subnets[s] == WithTable(SubnetOrStub(m[v], s), TableFor(rt))
      else (s in ExplicitStep(m, rt, a)[v].subnets <==> s in m[v].subnets) &&
           SubnetOrStub(ExplicitStep(m, rt, a)[v], s) == SubnetOrStub(m[v], s)
  {
  }

  lemma {:induction false} ExplicitAssociationsAt(m: Vpcs, rt: RawRouteTable, assocs: seq<RouteTableAssociation>, v: string, s: string)
    requires forall a :: a in assocs && IsExplicit(a) ==> VpcWritable(m, rt.vpcId)
    requires v in m
    ensures ExplicitAssociations(m, rt, assocs)[v].(subnets := m[v].subnets) == m[v]
    ensures if rt.vpcId == v && ExplicitIn(assocs, s)
      then s in ExplicitAssociations(m, rt, assocs)[v].subnets &&
           ExplicitAssociations(m, rt, assocs)[v].subnets[s] == WithTable(SubnetOrStub(m[v], s), TableFor(rt))
      else (s in ExplicitAssociations(m, rt, assocs)[v].subnets <==> s in m[v].subnets) &&
           SubnetOrStub(ExplicitAssociations(m, rt, assocs)[v], s) == SubnetOrStub(m[v], s)
  {
    if |assocs| > 0 {
      var p := assocs[..|assocs| - 1];
      var last := assocs[|assocs| - 1];
      assert forall a :: a in assocs <==> a in p || a == last;
      ExplicitAssociationsAt(m, rt, p, v, s);
      var q := ExplicitAssociations(m, rt, p);
      assert IsExplicit(last) ==> VpcWritable(q, rt.vpcId) by {
        if IsExplicit(last) {
          assert VpcWritable(m, rt.vpcId);
          assert rt.vpcId in q.Keys;
        }
      }
      ExplicitStepAt(q, rt, last, v, s);
      if !(IsExplicit(last) && last.subnetId == s) {
        assert ExplicitIn(assocs, s) <==> ExplicitIn(p, s);
      }
    }
  }

  /** The VPCs whose tables the second pass reads are the ones it can write. */
  lemma ExplicitPassPrefix(m: Vpcs, q: Vpcs, rts: seq<RawRouteTable>)
    requires |rts| > 0 && RouteTablesPlaceable(m, rts) && SameVpcs(q, m)
    ensures RouteTablesPlaceable(m, rts[..|rts| - 1])
    ensures forall a :: a in rts[|rts| - 1].associations && IsExplicit(a) ==> VpcWritable(q, rts[|rts| - 1].vpcId)
  {
    assert forall rt :: rt in rts[..|rts| - 1] ==> rt in rts;
    assert rts[|rts| - 1] in rts;
    RouteTablesPlaceableSame(m, q, rts);
  }

  /** The second pass changes nothing in a VPC but its subnets' route tables, and may add subnets. */
  lemma {:induction false} ExplicitPassFrame(m: Vpcs, rts: seq<RawRouteTable>, v: string, s: string)
    requires RouteTablesPlaceable(m, rts) && v in m
    ensures ExplicitPass(m, rts)[v].(subnets := m[v].subnets) == m[v]
    ensures TableOnly(SubnetOrStub(m[v], s), SubnetOrStub(ExplicitPass(m, rts)[v], s))
  {
    if |rts| > 0 {
      var p := rts[..|rts| - 1];
      var q := ExplicitPass(m, p);
      ExplicitPassPrefix(m, q, rts);
      ExplicitPassFrame(m, p, v, s);
      ExplicitAssociationsAt(q, rts[|rts| - 1], rts[|rts| - 1].associations, v, s);
    }
  }

  /** Some table explicitly associates (v, s): one before the last, or the last. */
  lemma ExplicitForSplit(rts: seq<RawRouteTable>, p: seq<RawRouteTable>, v: string, s: string)
    requires |rts| > 0 && p == rts[..|rts| - 1]
    ensures (exists j :: 0 <= j < |rts| && ExplicitFor(rts[j], v, s)) <==>
      (exists j :: 0 <= j < |p| && ExplicitFor(p[j], v, s)) || ExplicitFor(rts[|rts| - 1], v, s)
  {
    assert forall j :: 0 <= j < |p| ==> p[j] == rts[j];
  }

  /** The second pass adds exactly the subnets some table is explicitly associated with. */
  lemma {:induction false} ExplicitPassKeys(m: Vpcs, rts: seq<RawRouteTable>, v: string, s: string)
    requires RouteTablesPlaceable(m, rts) && v in m
    ensures s in ExplicitPass(m, rts)[v].subnets <==>
      s in m[v].subnets || exists j :: 0 <= j < |rts| && ExplicitFor(rts[j], v, s)
  {
    if |rts| > 0 {
      var p := rts[..|rts| - 1];
      var last := rts[|rts| - 1];
      var q := ExplicitPass(m, p);
      ExplicitPassPrefix(m, q, rts);
      assert ExplicitPass(m, rts) == ExplicitAssociations(q, last, last.associations);
      ExplicitPassKeys(m, p, v, s);
      ExplicitAssociationsAt(q, last, last.associations, v, s);
      ExplicitForSplit(rts, p, v, s);
    }
  }

  /** After the second pass a subnet carries the last table explicitly associated with it. */
  lemma {:induction false} ExplicitPassLast(m: Vpcs, rts: seq<RawRouteTable>, i: int, v: string, s: string)
    requires RouteTablesPlaceable(m, rts) && v in m
    requires 0 <= i < |rts| && ExplicitFor(rts[i], v, s)
    requires forall j :: i < j < |rts| ==> !ExplicitFor(rts[j], v, s)
    ensures s in ExplicitPass(m, rts)[v].subnets
    ensures ExplicitPass(m, rts)[v].subnets[s] == WithTable(SubnetOrStub(m[v], s), TableFor(rts[i]))
  {
    var p := rts[..|rts| - 1];
    var q := ExplicitPass(m, p);
    ExplicitPassPrefix(m, q, rts);
    ExplicitAssociationsAt(q, rts[|rts| - 1], rts[|rts| - 1].associations, v, s);
    if i == |rts| - 1 {
      ExplicitPassFrame(m, p, v, s);
    } else {
      ExplicitPassLast(m, p, i, v, s);
    }
  }

  lemma {:induction false} ExplicitPassNone(m: Vpcs, rts: seq<RawRouteTable>, v: string, s: string)
    requires RouteTablesPlaceable(m, rts) && v in m
    requires forall j :: 0 <= j < |rts| ==> !ExplicitFor(rts[j], v, s)
    ensures s in ExplicitPass(m, rts)[v].subnets <==> s in m[v].subnets
    ensures SubnetOrStub(ExplicitPass(m, rts)[v], s) == SubnetOrStub(m[v], s)
  {
    if |rts| > 0 {
      var p := rts[..|rts| - 1];
      var q := ExplicitPass(m, p);
      ExplicitPassPrefix(m, q, rts);
      ExplicitPassNone(m, p, v, s);
      ExplicitAssociationsAt(q, rts[|rts| - 1], rts[|rts| - 1].associations, v, s);
    }
  }

  /**
   * mapRouteTables: a subnet named by an associated, non-main association
   * carries the last such table, whatever the main tables say and wherever
   * they sit in the input; an unknown subnet is created as a zero subnet
   * carrying only that table.
   */
  lemma RouteTablesExplicitWins(m: Vpcs, rts: seq<RawRouteTable>, i: int, v: string, s: string)
    requires RouteTablesPlaceable(m, rts) && v in m
    requires 0 <= i < |rts| && ExplicitFor(rts[i], v, s)
    requires forall j :: i < j < |rts| ==> !ExplicitFor(rts[j], v, s)
    ensures s in MappedRouteTables(m, rts)[v].subnets
    ensures MappedRouteTables(m, rts)[v].subnets[s] == WithTable(SubnetOrStub(m[v], s), TableFor(rts[i]))
  {
    var q := MainPass(m, rts);
    RouteTablesPlaceableSame(m, q, rts);
    MainPassFrame(m, rts, v, s);
    ExplicitPassLast(q, rts, i, v, s);
  }

  /** A subnet with no explicit association carries the last main table of its VPC. */
  lemma RouteTablesMain(m: Vpcs, rts: seq<RawRouteTable>, i: int, v: string, s: string)
    requires RouteTablesPlaceable(m, rts) && v in m && s in m[v].subnets
    requires forall j :: 0 <= j < |rts| ==> !ExplicitFor(rts[j], v, s)
    requires 0 <= i < |rts| && MainFor(rts[i], v)
    requires forall j :: i < j < |rts| ==> !MainFor(rts[j], v)
    ensures s in MappedRouteTables(m, rts)[v].subnets
    ensures MappedRouteTables(m, rts)[v].subnets[s] == WithTable(m[v].subnets[s], TableFor(rts[i]))
  {
    var q := MainPass(m, rts);
    RouteTablesPlaceableSame(m, q, rts);
    MainPassLast(m, rts, i, v, s);
    ExplicitPassNone(q, rts, v, s);
  }

  /** A subnet no table names, in a VPC without a main table, is left as it was. */
  lemma RouteTablesUntouched(m: Vpcs, rts: seq<RawRouteTable>, v: string, s: string)
    requires RouteTablesPlaceable(m, rts) && v in m && s in m[v].subnets
    requires forall j :: 0 <= j < |rts| ==> !ExplicitFor(rts[j], v, s)
    requires forall j :: 0 <= j < |rts| ==> !MainFor(rts[j], v)
    ensures s in MappedRouteTables(m, rts)[v].subnets
    ensures MappedRouteTables(m, rts)[v].subnets[s] == m[v].subnets[s]
  {
    var q := MainPass(m, rts);
    RouteTablesPlaceableSame(m, q, rts);
    MainPassNone(m, rts, v, s);
    ExplicitPassNone(q, rts, v, s);
  }

  /** mapRouteTables keeps every VPC but its subnets, and adds only explicitly associated subnets. */
  lemma RouteTablesFrame(m: Vpcs, rts: seq<RawRouteTable>, v: string, s: string)
    requires RouteTablesPlaceable(m, rts) && v in m
    ensures MappedRouteTables(m, rts)[v].(subnets := m[v].subnets) == m[v]
    ensures s in MappedRouteTables(m, rts)[v].subnets <==>
      s in m[v].subnets || exists j :: 0 <= j < |rts| && ExplicitFor(rts[j], v, s)
    ensures TableOnly(SubnetOrStub(m[v], s), SubnetOrStub(MappedRouteTables(m, rts)[v], s))
  {
    var q := MainPass(m, rts);
    RouteTablesPlaceableSame(m, q, rts);
    ExplicitPassKeys(q, rts, v, s);
    ExplicitPassFrame(q, rts, v, s);
    MainPassFrame(m, rts, v, s);
  }
}
