/**
 * The sort stage (sorting.go): every map of the topology becomes a
 * sequence of its values in ascending key order. Each function collects
 * the keys, sorts them with sort.Strings and appends the values in that
 * order, sorting nested maps on the way down. NAT gateways are copied as
 * they are. sortVPC sorts the VPC's own Gateways slice in place, so the
 * input VPC changes too; the methods return that updated VPC.
 */
module Sorting {
  import opened Model
  import opened StringOrder

  /** The values of `m` in ascending key order, each passed through `f`. */
  ghost function ValuesBy<V, W>(m: map<string, V>, f: V -> W): (r: seq<W>)
    ensures |r| == |m.Keys|
    ensures forall i :: 0 <= i < |r| ==> Ordered(m.Keys)[i] in m && r[i] == f(m[Ordered(m.Keys)[i]])
  {
    var keys := Ordered(m.Keys);
    seq(|keys|, i requires 0 <= i < |keys| => f(m[keys[i]]))
  }

  /** A key-order walk after `|r|` steps: `f` of each visited entry, in order. */
  ghost predicate Listed<V, W>(m: map<string, V>, keys: seq<string>, r: seq<W>, f: V -> W)
  {
    |r| <= |keys| && forall j :: 0 <= j < |r| ==> keys[j] in m && r[j] == f(m[keys[j]])
  }

  lemma KeyAt<V>(m: map<string, V>, keys: seq<string>, i: int)
    requires keys == Ordered(m.Keys) && 0 <= i < |keys|
    ensures keys[i] in m
  {
  }

  lemma ListedStep<V, W>(m: map<string, V>, keys: seq<string>, r: seq<W>, f: V -> W, x: W)
    requires Listed(m, keys, r, f) && |r| < |keys| && keys[|r|] in m && x == f(m[keys[|r|]])
    ensures Listed(m, keys, r + [x], f)
  {
  }

  lemma ListedAll<V, W>(m: map<string, V>, keys: seq<string>, r: seq<W>, f: V -> W)
    requires keys == Ordered(m.Keys) && Listed(m, keys, r, f) && |r| == |keys|
    ensures r == ValuesBy(m, f)
  {
    ValuesByIs(m, f, keys, r);
  }

  /** Any sequence listing the images of the values in key order is ValuesBy. */
  lemma ValuesByIs<V, W>(m: map<string, V>, f: V -> W, keys: seq<string>, r: seq<W>)
    requires keys == Ordered(m.Keys) && |r| == |keys|
    requires forall j :: 0 <= j < |r| ==> keys[j] in m && r[j] == f(m[keys[j]])
    ensures r == ValuesBy(m, f)
  {
  }

  /** The values of `m` in ascending key order. */
  ghost function Values<V>(m: map<string, V>): seq<V>
  {
    ValuesBy(m, (x: V) => x)
  }

  ghost function SortedInterface(iface: NetworkInterface): NetworkInterfaceSorted
  {
    NetworkInterfaceSorted(iface.data, Values(iface.groups))
  }

  ghost function SortedInterfaces(m: map<string, NetworkInterface>): seq<NetworkInterfaceSorted>
  {
    ValuesBy(m, SortedInterface)
  }

  ghost function SortedInstance(inst: Instance): InstanceSorted
  {
    InstanceSorted(inst.data, Values(inst.volumes), SortedInterfaces(inst.interfaces))
  }

  ghost function SortedEndpoint(e: InterfaceEndpoint): InterfaceEndpointSorted
  {
    InterfaceEndpointSorted(e.data, SortedInterfaces(e.interfaces))
  }

  ghost function SortedNatGateway(g: NatGateway): NatGatewaySorted
  {
    NatGatewaySorted(g.data, SortedInterfaces(g.interfaces))
  }

  ghost function SortedSubnet(sub: Subnet): SubnetSorted
  {
    SubnetSorted(
      sub.data,
      ValuesBy(sub.instances, SortedInstance),
      Values(sub.natGateways),
      Values(sub.tgws),
      Values(sub.enis),
      ValuesBy(sub.interfaceEndpoints, SortedEndpoint),
      Values(sub.gatewayEndpoints))
  }

  ghost function SortedVpc(v: Vpc): VpcSorted
  {
    VpcSorted(v.data, SortStrings(v.gateways), ValuesBy(v.subnets, SortedSubnet), Values(v.peers))
  }

  ghost function SortedVpcs(m: Vpcs): seq<VpcSorted>
  {
    ValuesBy(m, SortedVpc)
  }

  /** The VPC after sortVPC: its Gateways are sorted through the alias. */
  function GatewaysSortedInPlace(v: Vpc): Vpc
  {
    v.(gateways := SortStrings(v.gateways))
  }

  // ------------------------------------------------------------ the methods

  /** A loop that appends the values of a map in key order. */
  method ValuesInOrder<V>(m: map<string, V>) returns (r: seq<V>)
    ensures r == Values(m)
  {
    var keys := SortedKeys(m);
    r := [];
    for i := 0 to |keys|
      invariant |r| == i
      invariant forall j :: 0 <= j < i ==> keys[j] in m && r[j] == m[keys[j]]
    {
      r := r + [m[keys[i]]];
    }
    ValuesByIs(m, (x: V) => x, keys, r);
  }

  method SortNetworkInterface(iface: NetworkInterface) returns (r: NetworkInterfaceSorted)
    ensures r == SortedInterface(iface)
  {
    var groupsSorted := ValuesInOrder(iface.groups);
    r := NetworkInterfaceSorted(iface.data, groupsSorted);
  }

  method SortInterfaces(m: map<string, NetworkInterface>) returns (r: seq<NetworkInterfaceSorted>)
    ensures r == SortedInterfaces(m)
  {
    var keys := SortedKeys(m);
    r := [];
    for i := 0 to |keys|
      invariant |r| == i && Listed(m, keys, r, SortedInterface)
    {
      KeyAt(m, keys, i);
      var sorted := SortNetworkInterface(m[keys[i]]);
      ListedStep(m, keys, r, SortedInterface, sorted);
      r := r + [sorted];
    }
    ListedAll(m, keys, r, SortedInterface);
  }

  method SortInstance(inst: Instance) returns (r: InstanceSorted)
    ensures r == SortedInstance(inst)
  {
    var volumesSorted := ValuesInOrder(inst.volumes);
    var interfacesSorted := SortInterfaces(inst.interfaces);
    r := InstanceSorted(inst.data, volumesSorted, interfacesSorted);
  }

  method SortInterfaceEndpoint(e: InterfaceEndpoint) returns (r: InterfaceEndpointSorted)
    ensures r == SortedEndpoint(e)
  {
    var interfacesSorted := SortInterfaces(e.interfaces);
    r := InterfaceEndpointSorted(e.data, interfacesSorted);
  }

  /** sortNatGateway: defined alongside the others, but sortSubnet never calls it. */
  method SortNatGateway(g: NatGateway) returns (r: NatGatewaySorted)
    ensures r == SortedNatGateway(g)
  {
    var interfacesSorted := SortInterfaces(g.interfaces);
    r := NatGatewaySorted(g.data, interfacesSorted);
  }

  method SortInstances(m: map<string, Instance>) returns (r: seq<InstanceSorted>)
    ensures r == ValuesBy(m, SortedInstance)
  {
    var keys := SortedKeys(m);
    r := [];
    for i := 0 to |keys|
      invariant |r| == i && Listed(m, keys, r, SortedInstance)
    {
      KeyAt(m, keys, i);
      var sorted := SortInstance(m[keys[i]]);
      ListedStep(m, keys, r, SortedInstance, sorted);
      r := r + [sorted];
    }
    ListedAll(m, keys, r, SortedInstance);
  }

  method SortInterfaceEndpoints(m: map<string, InterfaceEndpoint>) returns (r: seq<InterfaceEndpointSorted>)
    ensures r == ValuesBy(m, SortedEndpoint)
  {
    var keys := SortedKeys(m);
    r := [];
    for i := 0 to |keys|
      invariant |r| == i && Listed(m, keys, r, SortedEndpoint)
    {
      KeyAt(m, keys, i);
      var sorted := SortInterfaceEndpoint(m[keys[i]]);
      ListedStep(m, keys, r, SortedEndpoint, sorted);
      r := r + [sorted];
    }
    ListedAll(m, keys, r, SortedEndpoint);
  }

  method SortSubnet(sub: Subnet) returns (r: SubnetSorted)
    ensures r == SortedSubnet(sub)
  {
    var instancesSorted := SortInstances(sub.instances);
    var natGatewaysSorted := ValuesInOrder(sub.natGateways);
    var transitGatewaysSorted := ValuesInOrder(sub.tgws);
    var networkInterfacesSorted := ValuesInOrder(sub.enis);
    var interfaceEndpointsSorted := SortInterfaceEndpoints(sub.interfaceEndpoints);
    var gatewayEndpointsSorted := ValuesInOrder(sub.gatewayEndpoints);
    r := SubnetSorted(sub.data, instancesSorted, natGatewaysSorted, transitGatewaysSorted,
                      networkInterfacesSorted, interfaceEndpointsSorted, gatewayEndpointsSorted);
  }

  /** The subnet loop of sortVPC: each subnet sorted, in key order. */
  method SortSubnets(m: map<string, Subnet>) returns (r: seq<SubnetSorted>)
    ensures r == ValuesBy(m, SortedSubnet)
  {
    var keys := SortedKeys(m);
    r := [];
    for i := 0 to |keys|
      invariant |r| == i && Listed(m, keys, r, SortedSubnet)
    {
      KeyAt(m, keys, i);
      var sorted := SortSubnet(m[keys[i]]);
      ListedStep(m, keys, r, SortedSubnet, sorted);
      r := r + [sorted];
    }
    ListedAll(m, keys, r, SortedSubnet);
  }

  /** sortVPC; `updated` is the input VPC after its Gateways were sorted in place. */
  method SortVpc(vpc: Vpc) returns (r: VpcSorted, updated: Vpc)
    ensures r == SortedVpc(vpc)
    ensures updated == GatewaysSortedInPlace(vpc)
    ensures r.gateways == updated.gateways
  {
    var gatewaysSorted := SortStrings(vpc.gateways);
    updated := vpc.(gateways := gatewaysSorted);
    var subnetsSorted := SortSubnets(vpc.subnets);
    var peersSorted := ValuesInOrder(vpc.peers);
    r := VpcSorted(vpc.data, gatewaysSorted, subnetsSorted, peersSorted);
  }

  /** sortVPCs; `updated` is the map after every VPC's Gateways were sorted in place. */
  method SortVpcs(vpcs: Vpcs) returns (r: seq<VpcSorted>, updated: Vpcs)
    ensures r == SortedVpcs(vpcs)
    ensures updated.Keys == vpcs.Keys
    ensures forall v :: v in vpcs ==> updated[v] == GatewaysSortedInPlace(vpcs[v])
  {
    var vpcKeys := SortedKeys(vpcs);
    r := [];
    updated := vpcs;
    ghost var visited: set<string> := {};
    for i := 0 to |vpcKeys|
      invariant Visited(vpcs, vpcKeys, i, r, updated, visited, SortedVpc, GatewaysSortedInPlace)
    {
      var sorted, vpc := SortVpc(vpcs[vpcKeys[i]]);
      VisitStep(vpcs, vpcKeys, i, r, updated, visited, SortedVpc, GatewaysSortedInPlace, sorted, vpc);
      r := r + [sorted];
      updated := updated[vpcKeys[i] := vpc];
      visited := visited + {vpcKeys[i]};
    }
    AllVisited(vpcs, vpcKeys, r, updated, visited, SortedVpc, GatewaysSortedInPlace);
  }

  /**
   * After `i` steps of a walk over `keys`, one output per visited key was
   * appended (`f` of its entry) and each visited entry was rewritten by `g`.
   */
  ghost predicate Visited<V, W>(m: map<string, V>, keys: seq<string>, i: nat, r: seq<W>,
                                updated: map<string, V>, visited: set<string>, f: V -> W, g: V -> V)
  {
    i <= |keys| && |r| == i && updated.Keys == m.Keys && Listed(m, keys, r, f) &&
    (forall j :: 0 <= j < i ==> keys[j] in visited) &&
    (forall k :: k in visited ==> k in m && updated[k] == g(m[k]))
  }

  lemma VisitStep<V, W>(m: map<string, V>, keys: seq<string>, i: nat, r: seq<W>,
                        updated: map<string, V>, visited: set<string>, f: V -> W, g: V -> V, x: W, y: V)
    requires Visited(m, keys, i, r, updated, visited, f, g)
    requires i < |keys| && keys[i] in m && x == f(m[keys[i]]) && y == g(m[keys[i]])
    ensures Visited(m, keys, i + 1, r + [x], updated[keys[i] := y], visited + {keys[i]}, f, g)
  {
    ListedStep(m, keys, r, f, x);
  }

  /**
   * Once every key of `m` has been visited in key order, the outputs are
   * `ValuesBy(m, f)` and the rewritten map is `g` applied to every entry.
   */
  lemma {:induction false} AllVisited<V, W>(m: map<string, V>, keys: seq<string>, r: seq<W>,
                                            updated: map<string, V>, visited: set<string>, f: V -> W, g: V -> V)
    requires keys == Ordered(m.Keys)
    requires Visited(m, keys, |keys|, r, updated, visited, f, g)
    ensures r == ValuesBy(m, f)
    ensures updated.Keys == m.Keys
    ensures forall k :: k in m ==> updated[k] == g(m[k])
  {
    ListedAll(m, keys, r, f);
    forall k | k in m
      ensures updated[k] == g(m[k])
    {
      assert k in keys;
      var j :| 0 <= j < |keys| && keys[j] == k;
      assert k in visited;
    }
  }

  /**
   * sortRegionData, sequentially: one entry per region in ascending name
   * order, each carrying its name and its VPCs sorted.
   */
  method SortRegionData(regionData: map<string, RegionData>) returns (r: seq<RegionDataSorted>)
    ensures |r| == |regionData.Keys|
    ensures forall i :: 0 <= i < |r| ==>
      Ordered(regionData.Keys)[i] in regionData && r[i].region == Ordered(regionData.Keys)[i] &&
      r[i].vpcs == SortedVpcs(regionData[Ordered(regionData.Keys)[i]].vpcs)
  {
    var regionKeys := SortedKeys(regionData);
    r := [];
    for i := 0 to |regionKeys|
      invariant |r| == i
      invariant forall j :: 0 <= j < i ==>
        regionKeys[j] in regionData && r[j].region == regionKeys[j] && r[j].vpcs == SortedVpcs(regionData[regionKeys[j]].vpcs)
    {
      // The Gateways sorted through the alias are dropped: nothing reads the
      // region map once it has been sorted.
      var vpcsSorted, _ := SortVpcs(regionData[regionKeys[i]].vpcs);
      r := r + [RegionDataSorted(regionKeys[i], vpcsSorted)];
    }
  }

  // ------------------------------------------------------------ the lemmas

  /** Key order is strictly ascending, so each key has exactly one position, holding its value. */
  lemma ValuesByCover<V, W>(m: map<string, V>, f: V -> W, k: string)
    requires k in m
    ensures exists i :: 0 <= i < |ValuesBy(m, f)| && Ordered(m.Keys)[i] == k && ValuesBy(m, f)[i] == f(m[k])
    ensures forall i, j :: 0 <= i < j < |ValuesBy(m, f)| ==> Ordered(m.Keys)[i] != Ordered(m.Keys)[j]
  {
    var keys := Ordered(m.Keys);
    assert k in keys;
    var i :| 0 <= i < |keys| && keys[i] == k;
    forall i, j | 0 <= i < j < |keys|
      ensures keys[i] != keys[j]
    {
      LessIrreflexive(keys[i]);
    }
  }

  /** The values by key order: one per key, in strictly ascending key order, and every key appears. */
  lemma ValuesByAt<V, W>(m: map<string, V>, f: V -> W)
    ensures |ValuesBy(m, f)| == |m.Keys|
    ensures forall i :: 0 <= i < |ValuesBy(m, f)| ==> Ordered(m.Keys)[i] in m && ValuesBy(m, f)[i] == f(m[Ordered(m.Keys)[i]])
    ensures forall i, j :: 0 <= i < j < |ValuesBy(m, f)| ==> Less(Ordered(m.Keys)[i], Ordered(m.Keys)[j])
    ensures forall k :: k in m ==> exists i :: 0 <= i < |ValuesBy(m, f)| && Ordered(m.Keys)[i] == k
  {
    forall k | k in m
      ensures exists i :: 0 <= i < |ValuesBy(m, f)| && Ordered(m.Keys)[i] == k
    {
      ValuesByCover(m, f, k);
    }
  }

  /** The plain values by key order, as ValuesByAt states them. */
  lemma ValuesAt<V>(m: map<string, V>, r: seq<V>)
    requires r == Values(m)
    ensures |r| == |m.Keys|
    ensures forall i :: 0 <= i < |r| ==> Ordered(m.Keys)[i] in m && r[i] == m[Ordered(m.Keys)[i]]
    ensures forall i, j :: 0 <= i < j < |r| ==> Less(Ordered(m.Keys)[i], Ordered(m.Keys)[j])
    ensures forall k :: k in m ==> exists i :: 0 <= i < |r| && Ordered(m.Keys)[i] == k
  {
    var keys := Ordered(m.Keys);
    forall k | k in m
      ensures exists i :: 0 <= i < |r| && keys[i] == k
    {
      assert k in keys;
    }
  }

  /**
   * sortVPCs: one element per VPC key, in strictly ascending key order,
   * each the sorted form of that VPC, and every VPC appears.
   */
  lemma SortedVpcsAt(m: Vpcs)
    ensures |SortedVpcs(m)| == |m.Keys|
    ensures forall i :: 0 <= i < |SortedVpcs(m)| ==> Ordered(m.Keys)[i] in m && SortedVpcs(m)[i] == SortedVpc(m[Ordered(m.Keys)[i]])
    ensures forall i, j :: 0 <= i < j < |SortedVpcs(m)| ==> Less(Ordered(m.Keys)[i], Ordered(m.Keys)[j])
    ensures forall k :: k in m ==> exists i :: 0 <= i < |SortedVpcs(m)| && Ordered(m.Keys)[i] == k
  {
    ValuesByAt(m, SortedVpc);
  }

  /** The gateways of a sorted VPC are a sorted permutation of its gateway ids, and the VPC data is copied. */
  lemma SortedVpcGateways(v: Vpc)
    ensures Sorted(SortedVpc(v).gateways) && multiset(SortedVpc(v).gateways) == multiset(v.gateways)
    ensures SortedVpc(v).data == v.data
    ensures GatewaysSortedInPlace(v).gateways == SortedVpc(v).gateways
  {
  }

  /** Sorting the gateways is idempotent, so sorting a VPC twice sorts its gateways once. */
  lemma SortTwice(v: Vpc)
    ensures SortedVpc(GatewaysSortedInPlace(v)) == SortedVpc(v)
  {
    SortStringsCanonical(v.gateways, v.gateways);
  }

  lemma SubnetNatList(sub: Subnet)
    ensures SortedSubnet(sub).data == sub.data && SortedSubnet(sub).natGateways == Values(sub.natGateways)
  {
  }

  /**
   * sortSubnet copies the subnet data of every subnet, route table
   * included, and lists each NAT gateway record once, as it is (its
   * interfaces still a map), in ascending order of the gateway ids.
   */
  lemma SortedSubnetCopies(sub: Subnet)
    ensures SortedSubnet(sub).data == sub.data
    ensures |SortedSubnet(sub).natGateways| == |sub.natGateways.Keys|
    ensures forall i :: 0 <= i < |sub.natGateways.Keys| ==>
      Ordered(sub.natGateways.Keys)[i] in sub.natGateways &&
      SortedSubnet(sub).natGateways[i] == sub.natGateways[Ordered(sub.natGateways.Keys)[i]]
    ensures forall i, j :: 0 <= i < j < |sub.natGateways.Keys| ==>
      Less(Ordered(sub.natGateways.Keys)[i], Ordered(sub.natGateways.Keys)[j])
    ensures forall k :: k in sub.natGateways ==>
      exists i :: 0 <= i < |sub.natGateways.Keys| && Ordered(sub.natGateways.Keys)[i] == k
  {
    SubnetNatList(sub);
    ValuesAt(sub.natGateways, SortedSubnet(sub).natGateways);
  }
}
