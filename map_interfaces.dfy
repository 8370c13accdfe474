/**
 * mapNetworkInterfaces (mappings.go). NAT gateway interfaces are skipped;
 * an endpoint interface goes into every interface endpoint that lists it;
 * an interface attached to an instance goes into every instance stored
 * under that instance id; any other interface becomes an ENI of the subnet
 * it names. Each interface lands under its own id.
 */
module MapInterfaces {
  import opened Ec2
  import opened Model
  import opened MapBase

  /** Where one interface record goes. */
  datatype Disposition = Dropped | ToEndpoints | ToInstance(instanceId: string) | ToSubnet

  function DispositionOf(x: RawNetworkInterface): (d: Disposition)
    ensures d == Dropped <==> x.interfaceType == "nat_gateway"
    ensures d == ToEndpoints <==> x.interfaceType == "vpc_endpoint"
    ensures d.ToInstance? <==>
      x.interfaceType != "nat_gateway" && x.interfaceType != "vpc_endpoint" && x.attachment.Some? && x.attachment.value != ""
    ensures d.ToInstance? ==> d.instanceId == x.attachment.value
  {
    if x.interfaceType == "nat_gateway" then Dropped
    else if x.interfaceType == "vpc_endpoint" then ToEndpoints
    else if x.attachment.Some? && x.attachment.value != "" then ToInstance(x.attachment.value)
    else ToSubnet
  }

  /** The interface the pass stores: no DNS name and no security groups yet. */
  function NewInterface(x: RawNetworkInterface): NetworkInterface
  {
    NetworkInterface(
      NetworkInterfaceData(x.networkInterfaceId, x.privateIpAddress, x.macAddress, "", x.interfaceType,
                           x.description, x.publicIp, NameTag(x.tags), x.subnetId),
      map[])
  }

  /** The range over a subnet's interface endpoints: every one whose record lists the interface receives it. */
  function LinkEndpoints(eps: map<string, InterfaceEndpoint>, x: RawNetworkInterface): (r: map<string, InterfaceEndpoint>)
    ensures r.Keys == eps.Keys
    ensures forall k :: k in eps ==> r[k].data == eps[k].data
  {
    map k | k in eps ::
      if x.networkInterfaceId in eps[k].data.raw.networkInterfaceIds
      then eps[k].(interfaces := eps[k].interfaces[x.networkInterfaceId := NewInterface(x)])
      else eps[k]
  }

  /** The range over a subnet's instances: the one stored under `iid` receives the interface. */
  function LinkInstances(insts: map<string, Instance>, iid: string, x: RawNetworkInterface): (r: map<string, Instance>)
    ensures r.Keys == insts.Keys
    ensures forall k :: k in insts ==> r[k].data == insts[k].data && r[k].volumes == insts[k].volumes
  {
    map k | k in insts ::
      if k == iid then insts[k].(interfaces := insts[k].interfaces[x.networkInterfaceId := NewInterface(x)])
      else insts[k]
  }

  /** The ranges over interface endpoints and instances, within one subnet. */
  function Spread(sub: Subnet, x: RawNetworkInterface): Subnet
  {
    match DispositionOf(x)
    case ToEndpoints => sub.(interfaceEndpoints := LinkEndpoints(sub.interfaceEndpoints, x))
    case ToInstance(iid) => sub.(instances := LinkInstances(sub.instances, iid, x))
    case _ => sub
  }

  /** What one interface record does to the subnet stored at (v, s). */
  function Placed(sub: Subnet, x: RawNetworkInterface, v: string, s: string): Subnet
  {
    match DispositionOf(x)
    case Dropped => sub
    case ToSubnet =>
      if x.vpcId == v && x.subnetId == s then sub.(enis := sub.enis[x.networkInterfaceId := NewInterface(x)]) else sub
    case _ => Spread(sub, x)
  }

  /** An ENI names a writable subnet of a VPC (else the write panics). */
  predicate InterfacesPlaceable(m: Vpcs, xs: seq<RawNetworkInterface>)
  {
    forall x :: x in xs && DispositionOf(x) == ToSubnet ==> Writable(m, x.vpcId, x.subnetId)
  }

  function InterfaceStep(m: Vpcs, x: RawNetworkInterface): (r: Vpcs)
    requires DispositionOf(x) == ToSubnet ==> Writable(m, x.vpcId, x.subnetId)
    ensures SameLayout(r, m)
  {
    match DispositionOf(x)
    case Dropped => m
    case ToSubnet =>
      var sub := m[x.vpcId].subnets[x.subnetId];
      WithSubnetLayout(m, x.vpcId, x.subnetId, sub.(enis := sub.enis[x.networkInterfaceId := NewInterface(x)]));
      WithSubnet(m, x.vpcId, x.subnetId, sub.(enis := sub.enis[x.networkInterfaceId := NewInterface(x)]))
    case _ =>
      map v | v in m :: m[v].(subnets := map s | s in m[v].subnets :: Spread(m[v].subnets[s], x))
  }

  lemma InterfaceStepAt(m: Vpcs, x: RawNetworkInterface, v: string, s: string)
    requires DispositionOf(x) == ToSubnet ==> Writable(m, x.vpcId, x.subnetId)
    requires v in m && s in m[v].subnets
    ensures InterfaceStep(m, x)[v].(subnets := m[v].subnets) == m[v]
    ensures InterfaceStep(m, x)[v].subnets[s] == Placed(m[v].subnets[s], x, v, s)
  {
    if DispositionOf(x) == ToSubnet {
      var sub := m[x.vpcId].subnets[x.subnetId];
      WithSubnetAt(m, x.vpcId, x.subnetId, sub.(enis := sub.enis[x.networkInterfaceId := NewInterface(x)]), v, s);
    }
  }

  function MappedInterfaces(m: Vpcs, xs: seq<RawNetworkInterface>): (r: Vpcs)
    requires InterfacesPlaceable(m, xs)
    ensures SameLayout(r, m)
  {
    if |xs| == 0 then m
    else
      var x := xs[|xs| - 1];
      var p := xs[..|xs| - 1];
      InterfacesPrefix(m, xs);
      var q := MappedInterfaces(m, p);
      SameLayoutWritableAt(q, m, x.vpcId, x.subnetId);
      SameLayoutTransitive(InterfaceStep(q, x), q, m);
      InterfaceStep(q, x)
  }

  lemma InterfacesPrefix(m: Vpcs, xs: seq<RawNetworkInterface>)
    requires InterfacesPlaceable(m, xs) && |xs| > 0
    ensures InterfacesPlaceable(m, xs[..|xs| - 1])
    ensures DispositionOf(xs[|xs| - 1]) == ToSubnet ==> Writable(m, xs[|xs| - 1].vpcId, xs[|xs| - 1].subnetId)
  {
    assert xs[|xs| - 1] in xs;
    forall y | y in xs[..|xs| - 1] ensures y in xs { }
  }

  lemma InterfacesUpTo(m: Vpcs, xs: seq<RawNetworkInterface>, i: int)
    requires InterfacesPlaceable(m, xs) && 0 <= i < |xs|
    ensures xs[..i + 1][..i] == xs[..i] && xs[..i + 1][i] == xs[i]
    ensures InterfacesPlaceable(m, xs[..i + 1])
    ensures DispositionOf(xs[i]) == ToSubnet ==> Writable(m, xs[i].vpcId, xs[i].subnetId)
  {
    assert xs[i] in xs;
    forall y | y in xs[..i + 1] ensures y in xs { }
  }

  method MapNetworkInterfaces(vpcs: Vpcs, networkInterfaces: seq<RawNetworkInterface>) returns (r: Vpcs)
    requires InterfacesPlaceable(vpcs, networkInterfaces)
    ensures r == MappedInterfaces(vpcs, networkInterfaces)
  {
    r := vpcs;
    for i := 0 to |networkInterfaces|
      invariant SameLayout(r, vpcs)
      invariant InterfacesPlaceable(vpcs, networkInterfaces[..i])
      invariant r == MappedInterfaces(vpcs, networkInterfaces[..i])
    {
      InterfacesUpTo(vpcs, networkInterfaces, i);
      SameLayoutWritableAt(r, vpcs, networkInterfaces[i].vpcId, networkInterfaces[i].subnetId);
      r := MapNetworkInterface(r, networkInterfaces[i]);
    }
    assert networkInterfaces[..|networkInterfaces|] == networkInterfaces;
  }

  /** The body of the interface loop, for one interface. */
  method MapNetworkInterface(vpcs: Vpcs, iface: RawNetworkInterface) returns (r: Vpcs)
    requires DispositionOf(iface) == ToSubnet ==> Writable(vpcs, iface.vpcId, iface.subnetId)
    ensures r == InterfaceStep(vpcs, iface)
  {
    r := vpcs;
    if iface.interfaceType == "nat_gateway" {
      return;
    }
    var name := GetNameTag(iface.tags);
    var ifaceIn := NetworkInterface(
      NetworkInterfaceData(iface.networkInterfaceId, iface.privateIpAddress, iface.macAddress, "",
                           iface.interfaceType, iface.description, iface.publicIp, name, iface.subnetId),
      map[]);
    if iface.interfaceType == "vpc_endpoint" || (iface.attachment.Some? && iface.attachment.value != "") {
      r := map v | v in vpcs :: vpcs[v].(subnets := map s | s in vpcs[v].subnets :: Spread(vpcs[v].subnets[s], iface));
      return;
    }
    var sub := vpcs[iface.vpcId].subnets[iface.subnetId];
    r := vpcs[iface.vpcId := vpcs[iface.vpcId].(subnets := vpcs[iface.vpcId].subnets[iface.subnetId :=
           sub.(enis := sub.enis[iface.networkInterfaceId := ifaceIn])])];
  }

  // ------------------------------------------------- what the pass produces

  /** The ENIs the pass files under (v, s), by interface id; a later record replaces an earlier one. */
  function EnisFor(xs: seq<RawNetworkInterface>, v: string, s: string): map<string, NetworkInterface>
  {
    if |xs| == 0 then map[]
    else
      var x := xs[|xs| - 1];
      EnisFor(xs[..|xs| - 1], v, s) +
        (if DispositionOf(x) == ToSubnet && x.vpcId == v && x.subnetId == s
         then map[x.networkInterfaceId := NewInterface(x)] else map[])
  }

  /** The interfaces the pass files under every instance stored with key `iid`. */
  function InstanceInterfacesFor(xs: seq<RawNetworkInterface>, iid: string): map<string, NetworkInterface>
  {
    if |xs| == 0 then map[]
    else
      var x := xs[|xs| - 1];
      InstanceInterfacesFor(xs[..|xs| - 1], iid) +
        (if DispositionOf(x) == ToInstance(iid) then map[x.networkInterfaceId := NewInterface(x)] else map[])
  }

  /** The interfaces the pass files under an interface endpoint whose record lists `ids`. */
  function EndpointInterfacesFor(xs: seq<RawNetworkInterface>, ids: seq<string>): map<string, NetworkInterface>
  {
    if |xs| == 0 then map[]
    else
      var x := xs[|xs| - 1];
      EndpointInterfacesFor(xs[..|xs| - 1], ids) +
        (if DispositionOf(x) == ToEndpoints && x.networkInterfaceId in ids
         then map[x.networkInterfaceId := NewInterface(x)] else map[])
  }

  /** The pass changes, in a subnet, only its ENIs and the interfaces of its instances and interface endpoints. */
  predicate OnlyInterfacesChange(a: Subnet, b: Subnet)
  {
    && a.data == b.data && a.natGateways == b.natGateways && a.tgws == b.tgws
    && a.gatewayEndpoints == b.gatewayEndpoints && a.stub == b.stub
    && a.instances.Keys == b.instances.Keys
    && (forall k :: k in a.instances ==> a.instances[k].data == b.instances[k].data && a.instances[k].volumes == b.instances[k].volumes)
    && a.interfaceEndpoints.Keys == b.interfaceEndpoints.Keys
    && (forall k :: k in a.interfaceEndpoints ==> a.interfaceEndpoints[k].data == b.interfaceEndpoints[k].data)
  }

  lemma PlacedOnly(sub: Subnet, x: RawNetworkInterface, v: string, s: string)
    ensures OnlyInterfacesChange(sub, Placed(sub, x, v, s))
  {
    var d := DispositionOf(x);
    if d == ToEndpoints {
      assert Placed(sub, x, v, s) == sub.(interfaceEndpoints := LinkEndpoints(sub.interfaceEndpoints, x));
      LinkEndpointsOnly(sub, x);
    } else if d.ToInstance? {
      assert Placed(sub, x, v, s) == sub.(instances := LinkInstances(sub.instances, d.instanceId, x));
      LinkInstancesOnly(sub, d.instanceId, x);
    } else {
      assert Placed(sub, x, v, s) == sub || Placed(sub, x, v, s) == sub.(enis := sub.enis[x.networkInterfaceId := NewInterface(x)]);
    }
  }

  lemma LinkEndpointsOnly(sub: Subnet, x: RawNetworkInterface)
    ensures OnlyInterfacesChange(sub, sub.(interfaceEndpoints := LinkEndpoints(sub.interfaceEndpoints, x)))
  {
  }

  lemma LinkInstancesOnly(sub: Subnet, iid: string, x: RawNetworkInterface)
    ensures OnlyInterfacesChange(sub, sub.(instances := LinkInstances(sub.instances, iid, x)))
  {
  }

  lemma OnlyInterfacesChangeTransitive(a: Subnet, b: Subnet, c: Subnet)
    requires OnlyInterfacesChange(a, b) && OnlyInterfacesChange(b, c)
    ensures OnlyInterfacesChange(a, c)
  {
  }

  /** What one record does to the instance stored under `k`. */
  lemma PlacedInstance(sub: Subnet, x: RawNetworkInterface, v: string, s: string, k: string)
    requires k in sub.instances
    ensures k in Placed(sub, x, v, s).instances
    ensures Placed(sub, x, v, s).instances[k].interfaces ==
      if DispositionOf(x) == ToInstance(k) then sub.instances[k].interfaces[x.networkInterfaceId := NewInterface(x)]
      else sub.instances[k].interfaces
  {
    PlacedOnly(sub, x, v, s);
    if DispositionOf(x).ToInstance? {
      assert Placed(sub, x, v, s).instances == LinkInstances(sub.instances, DispositionOf(x).instanceId, x);
    }
  }

  /** What one record does to the interface endpoint stored under `k`. */
  lemma PlacedEndpoint(sub: Subnet, x: RawNetworkInterface, v: string, s: string, k: string)
    requires k in sub.interfaceEndpoints
    ensures k in Placed(sub, x, v, s).interfaceEndpoints
    ensures Placed(sub, x, v, s).interfaceEndpoints[k].data == sub.interfaceEndpoints[k].data
    ensures Placed(sub, x, v, s).interfaceEndpoints[k].interfaces ==
      if DispositionOf(x) == ToEndpoints && x.networkInterfaceId in sub.interfaceEndpoints[k].data.raw.networkInterfaceIds
      then sub.interfaceEndpoints[k].interfaces[x.networkInterfaceId := NewInterface(x)]
      else sub.interfaceEndpoints[k].interfaces
  {
    PlacedOnly(sub, x, v, s);
    if DispositionOf(x) == ToEndpoints {
      assert Placed(sub, x, v, s).interfaceEndpoints == LinkEndpoints(sub.interfaceEndpoints, x);
    }
  }

  /** The pass keeps every VPC but its subnets, every subnet key, and every subnet but its interfaces. */
  lemma {:induction false} MappedInterfacesFrame(m: Vpcs, xs: seq<RawNetworkInterface>, v: string, s: string)
    requires InterfacesPlaceable(m, xs)
    requires v in m && s in m[v].subnets
    ensures MappedInterfaces(m, xs)[v].(subnets := m[v].subnets) == m[v]
    ensures OnlyInterfacesChange(m[v].subnets[s], MappedInterfaces(m, xs)[v].subnets[s])
  {
    if |xs| > 0 {
      var p := xs[..|xs| - 1];
      InterfacesPrefix(m, xs);
      MappedInterfacesFrame(m, p, v, s);
      var q := MappedInterfaces(m, p);
      SameLayoutWritableAt(q, m, xs[|xs| - 1].vpcId, xs[|xs| - 1].subnetId);
      InterfaceStepAt(q, xs[|xs| - 1], v, s);
      PlacedOnly(q[v].subnets[s], xs[|xs| - 1], v, s);
      OnlyInterfacesChangeTransitive(m[v].subnets[s], q[v].subnets[s], MappedInterfaces(m, xs)[v].subnets[s]);
    }
  }

  /** A subnet's ENIs gain exactly the interfaces filed under it. */
  lemma {:induction false} MappedEnisAt(m: Vpcs, xs: seq<RawNetworkInterface>, v: string, s: string)
    requires InterfacesPlaceable(m, xs)
    requires v in m && s in m[v].subnets
    ensures MappedInterfaces(m, xs)[v].subnets[s].enis == m[v].subnets[s].enis + EnisFor(xs, v, s)
  {
    if |xs| > 0 {
      var x := xs[|xs| - 1];
      var p := xs[..|xs| - 1];
      InterfacesPrefix(m, xs);
      MappedEnisAt(m, p, v, s);
      var q := MappedInterfaces(m, p);
      SameLayoutWritableAt(q, m, x.vpcId, x.subnetId);
      InterfaceStepAt(q, x, v, s);
      if DispositionOf(x) == ToSubnet && x.vpcId == v && x.subnetId == s {
        PlusUpdate(m[v].subnets[s].enis, EnisFor(p, v, s), x.networkInterfaceId, NewInterface(x));
      } else {
        PlusEmpty(m[v].subnets[s].enis, EnisFor(p, v, s));
      }
    }
  }

  /** An instance gains exactly the interfaces attached to its instance id. */
  lemma {:induction false} MappedInstanceInterfacesAt(m: Vpcs, xs: seq<RawNetworkInterface>, v: string, s: string, k: string)
    requires InterfacesPlaceable(m, xs)
    requires v in m && s in m[v].subnets && k in m[v].subnets[s].instances
    ensures k in MappedInterfaces(m, xs)[v].subnets[s].instances
    ensures MappedInterfaces(m, xs)[v].subnets[s].instances[k].interfaces ==
      m[v].subnets[s].instances[k].interfaces + InstanceInterfacesFor(xs, k)
  {
    if |xs| > 0 {
      var x := xs[|xs| - 1];
      var p := xs[..|xs| - 1];
      InterfacesPrefix(m, xs);
      MappedInstanceInterfacesAt(m, p, v, s, k);
      var q := MappedInterfaces(m, p);
      SameLayoutWritableAt(q, m, x.vpcId, x.subnetId);
      InterfaceStepAt(q, x, v, s);
      PlacedInstance(q[v].subnets[s], x, v, s, k);
      if DispositionOf(x) == ToInstance(k) {
        PlusUpdate(m[v].subnets[s].instances[k].interfaces, InstanceInterfacesFor(p, k), x.networkInterfaceId, NewInterface(x));
      } else {
        PlusEmpty(m[v].subnets[s].instances[k].interfaces, InstanceInterfacesFor(p, k));
      }
    }
  }

  /** An interface endpoint gains exactly the endpoint interfaces its record lists. */
  lemma {:induction false} MappedEndpointInterfacesAt(m: Vpcs, xs: seq<RawNetworkInterface>, v: string, s: string, k: string)
    requires InterfacesPlaceable(m, xs)
    requires v in m && s in m[v].subnets && k in m[v].subnets[s].interfaceEndpoints
    ensures k in MappedInterfaces(m, xs)[v].subnets[s].interfaceEndpoints
    ensures MappedInterfaces(m, xs)[v].subnets[s].interfaceEndpoints[k].data == m[v].subnets[s].interfaceEndpoints[k].data
    ensures MappedInterfaces(m, xs)[v].subnets[s].interfaceEndpoints[k].interfaces ==
      m[v].subnets[s].interfaceEndpoints[k].interfaces +
      EndpointInterfacesFor(xs, m[v].subnets[s].interfaceEndpoints[k].data.raw.networkInterfaceIds)
  {
    if |xs| > 0 {
      var x := xs[|xs| - 1];
      var p := xs[..|xs| - 1];
      InterfacesPrefix(m, xs);
      MappedEndpointInterfacesAt(m, p, v, s, k);
      var q := MappedInterfaces(m, p);
      SameLayoutWritableAt(q, m, x.vpcId, x.subnetId);
      InterfaceStepAt(q, x, v, s);
      PlacedEndpoint(q[v].subnets[s], x, v, s, k);
      var ids := m[v].subnets[s].interfaceEndpoints[k].data.raw.networkInterfaceIds;
      if DispositionOf(x) == ToEndpoints && x.networkInterfaceId in ids {
        PlusUpdate(m[v].subnets[s].interfaceEndpoints[k].interfaces, EndpointInterfacesFor(p, ids), x.networkInterfaceId, NewInterface(x));
      } else {
        PlusEmpty(m[v].subnets[s].interfaceEndpoints[k].interfaces, EndpointInterfacesFor(p, ids));
      }
    }
  }

  /** Each ENI entry comes from a record filed under its subnet, and every such record has one. */
  lemma {:induction false} EnisForMembers(xs: seq<RawNetworkInterface>, v: string, s: string, k: string)
    ensures k in EnisFor(xs, v, s) ==>
      exists x :: x in xs && DispositionOf(x) == ToSubnet && x.vpcId == v && x.subnetId == s &&
        x.networkInterfaceId == k && EnisFor(xs, v, s)[k] == NewInterface(x)
    ensures (exists x :: x in xs && DispositionOf(x) == ToSubnet && x.vpcId == v && x.subnetId == s && x.networkInterfaceId == k) ==>
      k in EnisFor(xs, v, s)
  {
    if |xs| > 0 {
      var p := xs[..|xs| - 1];
      EnisForMembers(p, v, s, k);
      assert forall y :: y in xs <==> y in p || y == xs[|xs| - 1];
    }
  }

  lemma {:induction false} InstanceInterfacesForMembers(xs: seq<RawNetworkInterface>, iid: string, k: string)
    ensures k in InstanceInterfacesFor(xs, iid) ==>
      exists x :: x in xs && DispositionOf(x) == ToInstance(iid) && x.networkInterfaceId == k &&
        InstanceInterfacesFor(xs, iid)[k] == NewInterface(x)
    ensures (exists x :: x in xs && DispositionOf(x) == ToInstance(iid) && x.networkInterfaceId == k) ==>
      k in InstanceInterfacesFor(xs, iid)
  {
    if |xs| > 0 {
      var p := xs[..|xs| - 1];
      InstanceInterfacesForMembers(p, iid, k);
      assert forall y :: y in xs <==> y in p || y == xs[|xs| - 1];
    }
  }

  lemma {:induction false} EndpointInterfacesForMembers(xs: seq<RawNetworkInterface>, ids: seq<string>, k: string)
    ensures k in EndpointInterfacesFor(xs, ids) ==>
      exists x :: x in xs && DispositionOf(x) == ToEndpoints && x.networkInterfaceId in ids && x.networkInterfaceId == k &&
        EndpointInterfacesFor(xs, ids)[k] == NewInterface(x)
    ensures (exists x :: x in xs && DispositionOf(x) == ToEndpoints && x.networkInterfaceId in ids && x.networkInterfaceId == k) ==>
      k in EndpointInterfacesFor(xs, ids)
  {
    if |xs| > 0 {
      var p := xs[..|xs| - 1];
      EndpointInterfacesForMembers(p, ids, k);
      assert forall y :: y in xs <==> y in p || y == xs[|xs| - 1];
    }
  }
}
