/**
 * The older sort stage (sort.go): sortVPCs lists the VPCs in ascending key
 * order, and sortVPC sorts the gateway ids in place through the VPC's own
 * slice, lists the subnets in key order exactly as they are stored (their
 * inner maps stay maps), and lists the peers in key order.
 *
 * sort.go builds a VPCSorted whose Subnets are plain Subnet values, which
 * is not the VPCSorted of dataModel.go any more; VpcListed is that older
 * shape.
 */
module LegacySort {
  import opened Model
  import opened StringOrder
  import opened Sorting

  /** The VPCSorted sort.go returns: subnets as stored, not in their sorted form. */
  datatype VpcListed = VpcListed(
    data: VpcData,
    gateways: seq<string>,
    subnets: seq<Subnet>,
    peers: seq<VpcPeer>)

  ghost function ListedVpc(v: Vpc): VpcListed
  {
    VpcListed(v.data, SortStrings(v.gateways), Values(v.subnets), Values(v.peers))
  }

  ghost function ListedVpcs(m: Vpcs): seq<VpcListed>
  {
    ValuesBy(m, ListedVpc)
  }

  /** sortVPC; `updated` is the input VPC after its Gateways were sorted in place. */
  method SortVpc(vpc: Vpc) returns (r: VpcListed, updated: Vpc)
    ensures r == ListedVpc(vpc)
    ensures updated == GatewaysSortedInPlace(vpc)
    ensures r.gateways == updated.gateways
  {
    var gatewaysSorted := SortStrings(vpc.gateways);
    updated := vpc.(gateways := gatewaysSorted);
    var subnetsSorted := ValuesInOrder(vpc.subnets);
    var peersSorted := ValuesInOrder(vpc.peers);
    r := VpcListed(vpc.data, gatewaysSorted, subnetsSorted, peersSorted);
  }

  /** sortVPCs; `updated` is the map after every VPC's Gateways were sorted in place. */
  method SortVpcs(vpcs: Vpcs) returns (r: seq<VpcListed>, updated: Vpcs)
    ensures r == ListedVpcs(vpcs)
    ensures updated.Keys == vpcs.Keys
    ensures forall v :: v in vpcs ==> updated[v] == GatewaysSortedInPlace(vpcs[v])
  {
    var vpcKeys := SortedKeys(vpcs);
    r := [];
    updated := vpcs;
    ghost var visited: set<string> := {};
    for i := 0 to |vpcKeys|
      invariant Visited(vpcs, vpcKeys, i, r, updated, visited, ListedVpc, GatewaysSortedInPlace)
    {
      var listed, vpc := SortVpc(vpcs[vpcKeys[i]]);
      VisitStep(vpcs, vpcKeys, i, r, updated, visited, ListedVpc, GatewaysSortedInPlace, listed, vpc);
      r := r + [listed];
      updated := updated[vpcKeys[i] := vpc];
      visited := visited + {vpcKeys[i]};
    }
    AllVisited(vpcs, vpcKeys, r, updated, visited, ListedVpc, GatewaysSortedInPlace);
  }

  /**
   * sortVPCs: one element per VPC key, in strictly ascending key order,
   * each the listed form of that VPC, and every VPC appears.
   */
  lemma ListedVpcsAt(m: Vpcs)
    ensures |ListedVpcs(m)| == |m.Keys|
    ensures forall i :: 0 <= i < |ListedVpcs(m)| ==> Ordered(m.Keys)[i] in m && ListedVpcs(m)[i] == ListedVpc(m[Ordered(m.Keys)[i]])
    ensures forall i, j :: 0 <= i < j < |ListedVpcs(m)| ==> Less(Ordered(m.Keys)[i], Ordered(m.Keys)[j])
    ensures forall k :: k in m ==> exists i :: 0 <= i < |ListedVpcs(m)| && Ordered(m.Keys)[i] == k
  {
    ValuesByAt(m, ListedVpc);
  }

  /**
   * The gateways of a listed VPC are a sorted permutation of its gateway
   * ids, and they are what the input VPC holds afterwards: the slice was
   * sorted where it lies.
   */
  lemma ListedVpcGateways(v: Vpc)
    ensures Sorted(ListedVpc(v).gateways) && multiset(ListedVpc(v).gateways) == multiset(v.gateways)
    ensures GatewaysSortedInPlace(v).gateways == ListedVpc(v).gateways
    ensures GatewaysSortedInPlace(v).(gateways := v.gateways) == v
  {
  }

  /**
   * Subnets are listed one per key, in strictly ascending key order, each
   * exactly the stored subnet: its instances, ENIs and other collections
   * are still the maps they were.
   */
  lemma ListedVpcSubnets(v: Vpc)
    ensures |ListedVpc(v).subnets| == |v.subnets.Keys|
    ensures forall i :: 0 <= i < |ListedVpc(v).subnets| ==>
      Ordered(v.subnets.Keys)[i] in v.subnets && ListedVpc(v).subnets[i] == v.subnets[Ordered(v.subnets.Keys)[i]]
    ensures forall i, j :: 0 <= i < j < |ListedVpc(v).subnets| ==> Less(Ordered(v.subnets.Keys)[i], Ordered(v.subnets.Keys)[j])
    ensures forall k :: k in v.subnets ==> exists i :: 0 <= i < |ListedVpc(v).subnets| && Ordered(v.subnets.Keys)[i] == k
  {
    ValuesAt(v.subnets, ListedVpc(v).subnets);
  }

  /** Peers are listed one per key in strictly ascending key order, and the VPC data is copied. */
  lemma ListedVpcPeers(v: Vpc)
    ensures ListedVpc(v).data == v.data
    ensures |ListedVpc(v).peers| == |v.peers.Keys|
    ensures forall i :: 0 <= i < |ListedVpc(v).peers| ==>
      Ordered(v.peers.Keys)[i] in v.peers && ListedVpc(v).peers[i] == v.peers[Ordered(v.peers.Keys)[i]]
    ensures forall i, j :: 0 <= i < j < |ListedVpc(v).peers| ==> Less(Ordered(v.peers.Keys)[i], Ordered(v.peers.Keys)[j])
    ensures forall k :: k in v.peers ==> exists i :: 0 <= i < |ListedVpc(v).peers| && Ordered(v.peers.Keys)[i] == k
  {
    ValuesAt(v.peers, ListedVpc(v).peers);
  }

  /**
   * Against the current sort stage: the same data, gateways and peers, and
   * subnets in the same order, where the current stage then sorts each
   * subnet's inner collections and the older one leaves them as maps.
   */
  lemma ListedAgainstSorted(v: Vpc)
    ensures ListedVpc(v).data == SortedVpc(v).data
    ensures ListedVpc(v).gateways == SortedVpc(v).gateways
    ensures ListedVpc(v).peers == SortedVpc(v).peers
    ensures |ListedVpc(v).subnets| == |SortedVpc(v).subnets|
    ensures forall i :: 0 <= i < |ListedVpc(v).subnets| ==> SortedVpc(v).subnets[i] == SortedSubnet(ListedVpc(v).subnets[i])
  {
    ValuesByAt(v.subnets, (x: Subnet) => x);
    ValuesByAt(v.subnets, SortedSubnet);
  }
}
