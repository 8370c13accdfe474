/**
 * The first resolution passes of the topology builder (mappings.go): name
 * tags, VPCs, subnets, instances, instance statuses, volumes and NAT
 * gateways. Each pass is a method whose loops follow the source and whose
 * result is a specification function of its inputs; the lemmas say what
 * that function means.
 *
 * A Go `range` over the topology map whose body only writes into entries
 * that already exist (instance statuses, volumes) has an effect that does
 * not depend on the visiting order, and is written as one map
 * comprehension per input record.
 */
module MapBase {
  import opened Wrappers
  import opened Ec2
  import opened Model

  /** getNameTag: the value of the last tag whose key is "Name", or "". */
  function NameTag(tags: seq<Tag>): string
  {
    if |tags| == 0 then ""
    else if tags[|tags| - 1].key == "Name" then tags[|tags| - 1].value
    else NameTag(tags[..|tags| - 1])
  }

  lemma {:induction false} NameTagIsLastName(tags: seq<Tag>)
    ensures (forall i :: 0 <= i < |tags| ==> tags[i].key != "Name") ==> NameTag(tags) == ""
    ensures forall i :: (0 <= i < |tags| && tags[i].key == "Name" &&
      (forall j :: i < j < |tags| ==> tags[j].key != "Name")) ==> NameTag(tags) == tags[i].value
  {
    if |tags| > 0 {
      NameTagIsLastName(tags[..|tags| - 1]);
    }
  }

  method GetNameTag(tags: seq<Tag>) returns (name: string)
    ensures name == NameTag(tags)
  {
    name := "";
    for i := 0 to |tags|
      invariant name == NameTag(tags[..i])
    {
      assert tags[..i + 1][..i] == tags[..i];
      if tags[i].key == "Name" {
        name := tags[i].value;
      }
    }
    assert tags[..|tags|] == tags;
  }

  // ---------------------------------------------------------------- mapVpcs

  /** The CIDR block of the last IPv6 association in state "associated", or "". */
  function Ipv6Cidr(assocs: seq<Ipv6Association>): string
  {
    if |assocs| == 0 then ""
    else if assocs[|assocs| - 1].state == "associated" then assocs[|assocs| - 1].ipv6CidrBlock
    else Ipv6Cidr(assocs[..|assocs| - 1])
  }

  lemma {:induction false} Ipv6CidrIsLastAssociated(assocs: seq<Ipv6Association>)
    ensures (forall i :: 0 <= i < |assocs| ==> assocs[i].state != "associated") ==> Ipv6Cidr(assocs) == ""
    ensures forall i :: (0 <= i < |assocs| && assocs[i].state == "associated" &&
      (forall j :: i < j < |assocs| ==> assocs[j].state != "associated")) ==> Ipv6Cidr(assocs) == assocs[i].ipv6CidrBlock
  {
    if |assocs| > 0 {
      Ipv6CidrIsLastAssociated(assocs[..|assocs| - 1]);
    }
  }

  /** The VPC mapVpcs stores: no subnets, no peers, no gateways yet. */
  function NewVpc(v: RawVpc): Vpc
  {
    Vpc(VpcData(v.vpcId, v.cidrBlock, Ipv6Cidr(v.ipv6Associations), NameTag(v.tags), v.isDefault),
        map[], map[], [], false)
  }

  function MappedVpcs(m: Vpcs, xs: seq<RawVpc>): Vpcs
  {
    if |xs| == 0 then m
    else MappedVpcs(m, xs[..|xs| - 1])[xs[|xs| - 1].vpcId := NewVpc(xs[|xs| - 1])]
  }

  method MapVpcs(vpcs: Vpcs, vpcData: seq<RawVpc>) returns (r: Vpcs)
    ensures r == MappedVpcs(vpcs, vpcData)
  {
    r := vpcs;
    for i := 0 to |vpcData|
      invariant r == MappedVpcs(vpcs, vpcData[..i])
    {
      var v := vpcData[i];
      var v6cidr := "";
      for j := 0 to |v.ipv6Associations|
        invariant v6cidr == Ipv6Cidr(v.ipv6Associations[..j])
      {
        assert v.ipv6Associations[..j + 1][..j] == v.ipv6Associations[..j];
        if v.ipv6Associations[j].state == "associated" {
          v6cidr := v.ipv6Associations[j].ipv6CidrBlock;
        }
      }
      assert v.ipv6Associations[..|v.ipv6Associations|] == v.ipv6Associations;
      var name := GetNameTag(v.tags);
      assert vpcData[..i + 1][..i] == vpcData[..i];
      r := r[v.vpcId := Vpc(VpcData(v.vpcId, v.cidrBlock, v6cidr, name, v.isDefault), map[], map[], [], false)];
    }
    assert vpcData[..|vpcData|] == vpcData;
  }

  /** mapVpcs adds exactly the listed VPC ids to the keys. */
  lemma {:induction false} MappedVpcsKeys(m: Vpcs, xs: seq<RawVpc>)
    ensures MappedVpcs(m, xs).Keys == m.Keys + set i | 0 <= i < |xs| :: xs[i].vpcId
  {
    if |xs| > 0 {
      var p := xs[..|xs| - 1];
      MappedVpcsKeys(m, p);
      assert (set i | 0 <= i < |xs| :: xs[i].vpcId) == (set i | 0 <= i < |p| :: p[i].vpcId) + {xs[|xs| - 1].vpcId};
    }
  }

  /** A listed VPC id carries the VPC built from its last record. */
  lemma {:induction false} MappedVpcsLast(m: Vpcs, xs: seq<RawVpc>, i: int)
    requires 0 <= i < |xs|
    requires forall j :: i < j < |xs| ==> xs[j].vpcId != xs[i].vpcId
    ensures xs[i].vpcId in MappedVpcs(m, xs) && MappedVpcs(m, xs)[xs[i].vpcId] == NewVpc(xs[i])
  {
    if i < |xs| - 1 {
      MappedVpcsLast(m, xs[..|xs| - 1], i);
    }
  }

  /** A VPC id no record names keeps its old entry, or stays absent. */
  lemma {:induction false} MappedVpcsUnlisted(m: Vpcs, xs: seq<RawVpc>, k: string)
    requires forall i :: 0 <= i < |xs| ==> xs[i].vpcId != k
    ensures k in MappedVpcs(m, xs) <==> k in m
    ensures k in m ==> MappedVpcs(m, xs)[k] == m[k]
  {
    if |xs| > 0 {
      MappedVpcsUnlisted(m, xs[..|xs| - 1], k);
    }
  }

  // ------------------------------------------------------------- mapSubnets

  /** The subnet mapSubnets stores: public when either launch flag is set, no route table yet. */
  function NewSubnet(s: RawSubnet): Subnet
  {
    Subnet(SubnetData(None, s.subnetId, s.cidrBlock, s.availabilityZone, s.availabilityZoneId,
                      NameTag(s.tags), s.mapCustomerOwnedIpOnLaunch || s.mapPublicIpOnLaunch),
           map[], map[], map[], map[], map[], map[], false)
  }

  /** Every subnet names a VPC already mapped and not a stub (else the write panics). */
  predicate SubnetsPlaceable(m: Vpcs, xs: seq<RawSubnet>)
  {
    forall i :: 0 <= i < |xs| ==> VpcWritable(m, xs[i].vpcId)
  }

  function MappedSubnets(m: Vpcs, xs: seq<RawSubnet>): (r: Vpcs)
    requires SubnetsPlaceable(m, xs)
    ensures SameVpcs(r, m)
    ensures forall v :: v in m ==> r[v].(subnets := m[v].subnets) == m[v]
  {
    if |xs| == 0 then m
    else
      var x := xs[|xs| - 1];
      WithSubnet(MappedSubnets(m, xs[..|xs| - 1]), x.vpcId, x.subnetId, NewSubnet(x))
  }

  method MapSubnets(vpcs: Vpcs, subnets: seq<RawSubnet>) returns (r: Vpcs)
    requires SubnetsPlaceable(vpcs, subnets)
    ensures r == MappedSubnets(vpcs, subnets)
  {
    r := vpcs;
    for i := 0 to |subnets|
      invariant SubnetsPlaceable(vpcs, subnets[..i])
      invariant r == MappedSubnets(vpcs, subnets[..i])
    {
      var v := subnets[i];
      var name := GetNameTag(v.tags);
      var isPublic := v.mapCustomerOwnedIpOnLaunch || v.mapPublicIpOnLaunch;
      assert subnets[..i + 1][..i] == subnets[..i];
      var subnet := Subnet(SubnetData(None, v.subnetId, v.cidrBlock, v.availabilityZone, v.availabilityZoneId, name, isPublic),
                           map[], map[], map[], map[], map[], map[], false);
      r := r[v.vpcId := r[v.vpcId].(subnets := r[v.vpcId].subnets[v.subnetId := subnet])];
    }
    assert subnets[..|subnets|] == subnets;
  }

  /** mapSubnets adds to each VPC exactly the subnet ids listed for it. */
  lemma {:induction false} MappedSubnetsHas(m: Vpcs, xs: seq<RawSubnet>, v: string, k: string)
    requires SubnetsPlaceable(m, xs) && v in m
    ensures k in MappedSubnets(m, xs)[v].subnets <==>
      k in m[v].subnets || exists i :: 0 <= i < |xs| && xs[i].vpcId == v && xs[i].subnetId == k
  {
    if |xs| > 0 {
      var p := xs[..|xs| - 1];
      assert SubnetsPlaceable(m, p);
      MappedSubnetsHas(m, p, v, k);
      var x := xs[|xs| - 1];
      var q := MappedSubnets(m, p);
      WithSubnetHas(q, x.vpcId, x.subnetId, NewSubnet(x), v, k);
      ListsSubnetSnoc(xs, p, v, k);
    }
  }

  /** Some record of `xs` names subnet `k` of VPC `v` iff one before the last does or the last does. */
  lemma ListsSubnetSnoc(xs: seq<RawSubnet>, p: seq<RawSubnet>, v: string, k: string)
    requires |xs| > 0 && p == xs[..|xs| - 1]
    ensures (exists i :: 0 <= i < |xs| && xs[i].vpcId == v && xs[i].subnetId == k) <==>
      (exists i :: 0 <= i < |p| && p[i].vpcId == v && p[i].subnetId == k) ||
      (xs[|xs| - 1].vpcId == v && xs[|xs| - 1].subnetId == k)
  {
    if exists i :: 0 <= i < |xs| && xs[i].vpcId == v && xs[i].subnetId == k {
      var i :| 0 <= i < |xs| && xs[i].vpcId == v && xs[i].subnetId == k;
      if i < |p| {
        assert p[i] == xs[i];
      }
    }
  }

  /** A listed (VPC, subnet) pair carries the subnet built from its last record. */
  lemma {:induction false} MappedSubnetsLast(m: Vpcs, xs: seq<RawSubnet>, i: int)
    requires SubnetsPlaceable(m, xs)
    requires 0 <= i < |xs|
    requires forall j :: i < j < |xs| ==> !(xs[j].vpcId == xs[i].vpcId && xs[j].subnetId == xs[i].subnetId)
    ensures xs[i].subnetId in MappedSubnets(m, xs)[xs[i].vpcId].subnets
    ensures MappedSubnets(m, xs)[xs[i].vpcId].subnets[xs[i].subnetId] == NewSubnet(xs[i])
  {
    if i < |xs| - 1 {
      assert SubnetsPlaceable(m, xs[..|xs| - 1]);
      MappedSubnetsLast(m, xs[..|xs| - 1], i);
    }
  }

  /** A subnet no record names keeps its old entry. */
  lemma {:induction false} MappedSubnetsUnlisted(m: Vpcs, xs: seq<RawSubnet>, v: string, k: string)
    requires SubnetsPlaceable(m, xs) && v in m && k in m[v].subnets
    requires forall i :: 0 <= i < |xs| ==> !(xs[i].vpcId == v && xs[i].subnetId == k)
    ensures k in MappedSubnets(m, xs)[v].subnets
    ensures MappedSubnets(m, xs)[v].subnets[k] == m[v].subnets[k]
  {
    if |xs| > 0 {
      assert SubnetsPlaceable(m, xs[..|xs| - 1]);
      MappedSubnetsUnlisted(m, xs[..|xs| - 1], v, k);
    }
  }

  // ----------------------------------------------------------- mapInstances

  /** mapInstances keeps an instance unless it is terminated or lacks its VPC, subnet or own id. */
  predicate KeepsInstance(x: RawInstance)
  {
    x.stateName != "terminated" && x.vpcId != "" && x.subnetId != "" && x.instanceId != ""
  }

  /** The instance mapInstances stores: statuses unset, no volumes, no interfaces. */
  function NewInstance(x: RawInstance): Instance
  {
    Instance(InstanceData(x.instanceId, x.instanceType, x.subnetId, x.vpcId, x.stateName,
                          x.publicIpAddress, x.privateIpAddress, NameTag(x.tags), "", ""),
             map[], map[])
  }

  /** Every kept instance names a mapped, non-stub subnet of a mapped VPC (else the write panics). */
  predicate InstancesPlaceable(m: Vpcs, xs: seq<RawInstance>)
  {
    forall x :: x in xs && KeepsInstance(x) ==> Writable(m, x.vpcId, x.subnetId)
  }

  predicate ReservationsPlaceable(m: Vpcs, rs: seq<Reservation>)
  {
    forall i :: 0 <= i < |rs| ==> InstancesPlaceable(m, rs[i].instances)
  }

  lemma InstancesPlaceableLayout(m: Vpcs, q: Vpcs, xs: seq<RawInstance>)
    requires SameLayout(q, m) && InstancesPlaceable(m, xs)
    ensures InstancesPlaceable(q, xs)
  {
    SameLayoutWritable(q, m);
  }

  function InstanceStep(m: Vpcs, x: RawInstance): (r: Vpcs)
    requires KeepsInstance(x) ==> Writable(m, x.vpcId, x.subnetId)
    ensures SameLayout(r, m)
  {
    if KeepsInstance(x) then
      var sub := m[x.vpcId].subnets[x.subnetId];
      WithSubnet(m, x.vpcId, x.subnetId, sub.(instances := sub.instances[x.instanceId := NewInstance(x)]))
    else m
  }

  /** What one step does to the instances of one subnet, and that it touches nothing else. */
  lemma InstanceStepAt(m: Vpcs, x: RawInstance, v: string, s: string)
    requires KeepsInstance(x) ==> Writable(m, x.vpcId, x.subnetId)
    requires v in m && s in m[v].subnets
    ensures InstanceStep(m, x)[v].subnets[s] == m[v].subnets[s].(instances := InstanceStep(m, x)[v].subnets[s].instances)
    ensures InstanceStep(m, x)[v].subnets[s].instances ==
      if KeepsInstance(x) && x.vpcId == v && x.subnetId == s
      then m[v].subnets[s].instances[x.instanceId := NewInstance(x)]
      else m[v].subnets[s].instances
  {
    if KeepsInstance(x) {
      var sub := m[x.vpcId].subnets[x.subnetId];
      WithSubnetAt(m, x.vpcId, x.subnetId, sub.(instances := sub.instances[x.instanceId := NewInstance(x)]), v, s);
    }
  }

  function ScannedInstances(m: Vpcs, xs: seq<RawInstance>): (r: Vpcs)
    requires InstancesPlaceable(m, xs)
    ensures SameLayout(r, m)
  {
    if |xs| == 0 then m
    else
      var x := xs[|xs| - 1];
      InstancesInit(m, xs);
      var q := ScannedInstances(m, xs[..|xs| - 1]);
      SameLayoutWritable(q, m);
      InstanceStep(q, x)
  }

  function MappedInstances(m: Vpcs, rs: seq<Reservation>): (r: Vpcs)
    requires ReservationsPlaceable(m, rs)
    ensures SameLayout(r, m)
  {
    if |rs| == 0 then m
    else
      var q := MappedInstances(m, rs[..|rs| - 1]);
      InstancesPlaceableLayout(m, q, rs[|rs| - 1].instances);
      ScannedInstances(q, rs[|rs| - 1].instances)
  }

  method MapInstances(vpcs: Vpcs, reservations: seq<Reservation>) returns (r: Vpcs)
    requires ReservationsPlaceable(vpcs, reservations)
    ensures r == MappedInstances(vpcs, reservations)
  {
    r := vpcs;
    for i := 0 to |reservations|
      invariant ReservationsPlaceable(vpcs, reservations[..i])
      invariant r == MappedInstances(vpcs, reservations[..i])
    {
      ReservationsNext(vpcs, reservations, i);
      r := MapReservationInstances(r, reservations[i].instances);
    }
    assert reservations[..|reservations|] == reservations;
  }

  /** The inner loop of mapInstances, over the instances of one reservation. */
  method MapReservationInstances(vpcs: Vpcs, instances: seq<RawInstance>) returns (r: Vpcs)
    requires InstancesPlaceable(vpcs, instances)
    ensures r == ScannedInstances(vpcs, instances)
  {
    r := vpcs;
    for j := 0 to |instances|
      invariant InstancesPlaceable(vpcs, instances[..j])
      invariant r == ScannedInstances(vpcs, instances[..j])
    {
      InstancesNext(vpcs, instances, j);
      r := MapInstance(r, instances[j]);
    }
    assert instances[..|instances|] == instances;
  }

  lemma InstancesInit(m: Vpcs, xs: seq<RawInstance>)
    requires InstancesPlaceable(m, xs) && |xs| > 0
    ensures InstancesPlaceable(m, xs[..|xs| - 1])
    ensures KeepsInstance(xs[|xs| - 1]) ==> Writable(m, xs[|xs| - 1].vpcId, xs[|xs| - 1].subnetId)
  {
    assert xs[|xs| - 1] in xs;
    forall y | y in xs[..|xs| - 1] ensures y in xs { }
  }

  /** The scan over one reservation's instances after `j` of them, and after one more. */
  lemma ReservationsNext(m: Vpcs, rs: seq<Reservation>, i: int)
    requires ReservationsPlaceable(m, rs) && 0 <= i < |rs|
    ensures ReservationsPlaceable(m, rs[..i]) && ReservationsPlaceable(m, rs[..i + 1])
    ensures InstancesPlaceable(MappedInstances(m, rs[..i]), rs[i].instances)
    ensures MappedInstances(m, rs[..i + 1]) == ScannedInstances(MappedInstances(m, rs[..i]), rs[i].instances)
  {
    assert rs[..i + 1][..i] == rs[..i];
    InstancesPlaceableLayout(m, MappedInstances(m, rs[..i]), rs[i].instances);
  }

  lemma InstancesNext(m: Vpcs, xs: seq<RawInstance>, j: int)
    requires InstancesPlaceable(m, xs) && 0 <= j < |xs|
    ensures InstancesPlaceable(m, xs[..j]) && InstancesPlaceable(m, xs[..j + 1])
    ensures KeepsInstance(xs[j]) ==> Writable(ScannedInstances(m, xs[..j]), xs[j].vpcId, xs[j].subnetId)
    ensures ScannedInstances(m, xs[..j + 1]) == InstanceStep(ScannedInstances(m, xs[..j]), xs[j])
  {
    assert xs[j] in xs;
    forall y | y in xs[..j + 1] ensures y in xs { }
    forall y | y in xs[..j] ensures y in xs { }
    assert xs[..j + 1][..j] == xs[..j];
    SameLayoutWritable(ScannedInstances(m, xs[..j]), m);
  }

  /** The body of the instance loop, for one instance record. */
  method MapInstance(vpcs: Vpcs, instance: RawInstance) returns (r: Vpcs)
    requires KeepsInstance(instance) ==> Writable(vpcs, instance.vpcId, instance.subnetId)
    ensures r == InstanceStep(vpcs, instance)
  {
    r := vpcs;
    if instance.stateName != "terminated" {
      var vpcId := instance.vpcId;
      var subnetId := instance.subnetId;
      var instanceId := instance.instanceId;
      if vpcId != "" && subnetId != "" && instanceId != "" {
        var name := GetNameTag(instance.tags);
        var sub := r[vpcId].subnets[subnetId];
        var created := Instance(InstanceData(instanceId, instance.instanceType, subnetId, vpcId, instance.stateName,
                                             instance.publicIpAddress, instance.privateIpAddress, name, "", ""),
                                map[], map[]);
        r := r[vpcId := r[vpcId].(subnets := r[vpcId].subnets[subnetId := sub.(instances := sub.instances[instanceId := created])])];
      }
    }
  }

  /** An instance of the scan's result either was there before, untouched, or was built from a kept record. */
  lemma {:induction false} ScannedInstancesOrigin(m: Vpcs, xs: seq<RawInstance>, v: string, s: string, k: string)
    requires InstancesPlaceable(m, xs)
    requires v in m && s in m[v].subnets && k in ScannedInstances(m, xs)[v].subnets[s].instances
    ensures || (k in m[v].subnets[s].instances &&
                ScannedInstances(m, xs)[v].subnets[s].instances[k] == m[v].subnets[s].instances[k])
            || exists x :: x in xs && KeepsInstance(x) && x.vpcId == v && x.subnetId == s && x.instanceId == k &&
                ScannedInstances(m, xs)[v].subnets[s].instances[k] == NewInstance(x)
  {
    if |xs| > 0 {
      var x := xs[|xs| - 1];
      var p := xs[..|xs| - 1];
      assert InstancesPlaceable(m, p) by {
        forall y | y in p ensures y in xs { }
      }
      var q := ScannedInstances(m, p);
      SameLayoutWritable(q, m);
      InstanceStepAt(q, x, v, s);
      if !(KeepsInstance(x) && x.vpcId == v && x.subnetId == s && x.instanceId == k) {
        ScannedInstancesOrigin(m, p, v, s, k);
        assert forall y :: y in p ==> y in xs;
      }
    }
  }

  /** The scan never removes an instance. */
  lemma {:induction false} ScannedInstancesGrow(m: Vpcs, xs: seq<RawInstance>, v: string, s: string, k: string)
    requires InstancesPlaceable(m, xs)
    requires v in m && s in m[v].subnets && k in m[v].subnets[s].instances
    ensures k in ScannedInstances(m, xs)[v].subnets[s].instances
  {
    if |xs| > 0 {
      var p := xs[..|xs| - 1];
      assert InstancesPlaceable(m, p) by {
        forall y | y in p ensures y in xs { }
      }
      ScannedInstancesGrow(m, p, v, s, k);
      var q := ScannedInstances(m, p);
      SameLayoutWritable(q, m);
      InstanceStepAt(q, xs[|xs| - 1], v, s);
    }
  }

  /** Every kept record ends up in its subnet. */
  lemma {:induction false} ScannedInstancesCover(m: Vpcs, xs: seq<RawInstance>, x: RawInstance)
    requires InstancesPlaceable(m, xs)
    requires x in xs && KeepsInstance(x)
    ensures x.instanceId in ScannedInstances(m, xs)[x.vpcId].subnets[x.subnetId].instances
  {
    var p := xs[..|xs| - 1];
    assert InstancesPlaceable(m, p) by {
      forall y | y in p ensures y in xs { }
    }
    var q := ScannedInstances(m, p);
    SameLayoutWritable(q, m);
    InstanceStepAt(q, xs[|xs| - 1], x.vpcId, x.subnetId);
    if x != xs[|xs| - 1] {
      assert x in p by {
        var i :| 0 <= i < |xs| && xs[i] == x;
        assert i < |p| && p[i] == x;
      }
      ScannedInstancesCover(m, p, x);
    }
  }

  /**
   * mapInstances, per subnet: an instance present afterwards was either
   * there before and untouched, or comes from a reservation's instance
   * that is not terminated, has non-empty VPC, subnet and instance ids, and
   * it starts with no volumes and no interfaces.
   */
  lemma {:induction false} MappedInstancesOrigin(m: Vpcs, rs: seq<Reservation>, v: string, s: string, k: string)
    requires ReservationsPlaceable(m, rs)
    requires v in m && s in m[v].subnets && k in MappedInstances(m, rs)[v].subnets[s].instances
    ensures || (k in m[v].subnets[s].instances &&
                MappedInstances(m, rs)[v].subnets[s].instances[k] == m[v].subnets[s].instances[k])
            || exists i, x :: 0 <= i < |rs| && x in rs[i].instances && KeepsInstance(x) &&
                x.vpcId == v && x.subnetId == s && x.instanceId == k &&
                MappedInstances(m, rs)[v].subnets[s].instances[k] == NewInstance(x)
    ensures k !in m[v].subnets[s].instances ==>
      var inst := MappedInstances(m, rs)[v].subnets[s].instances[k];
      && inst.data.state != "terminated" && inst.data.vpcId != "" && inst.data.subnetId != "" && inst.data.id != ""
      && inst.volumes == map[] && inst.interfaces == map[]
  {
    if |rs| > 0 {
      var p := rs[..|rs| - 1];
      assert ReservationsPlaceable(m, p);
      var q := MappedInstances(m, p);
      var xs := rs[|rs| - 1].instances;
      InstancesPlaceableLayout(m, q, xs);
      ScannedInstancesOrigin(q, xs, v, s, k);
      if k in q[v].subnets[s].instances {
        MappedInstancesOrigin(m, p, v, s, k);
      }
    }
  }

  /** mapInstances puts every kept instance of every reservation into its subnet. */
  lemma {:induction false} MappedInstancesCover(m: Vpcs, rs: seq<Reservation>, i: int, x: RawInstance)
    requires ReservationsPlaceable(m, rs)
    requires 0 <= i < |rs| && x in rs[i].instances && KeepsInstance(x)
    ensures x.instanceId in MappedInstances(m, rs)[x.vpcId].subnets[x.subnetId].instances
  {
    var p := rs[..|rs| - 1];
    assert ReservationsPlaceable(m, p);
    var q := MappedInstances(m, p);
    var xs := rs[|rs| - 1].instances;
    InstancesPlaceableLayout(m, q, xs);
    SameLayoutWritable(q, m);
    if i == |rs| - 1 {
      ScannedInstancesCover(q, xs, x);
    } else {
      MappedInstancesCover(m, p, i, x);
      ScannedInstancesGrow(q, xs, x.vpcId, x.subnetId, x.instanceId);
    }
  }

  // ---------------------------------------------------- mapInstanceStatuses

  /** An instance with both health checks taken from a status record. */
  function WithStatus(inst: Instance, st: RawInstanceStatus): Instance
  {
    inst.(data := inst.data.(instanceStatus := st.instanceStatus, systemStatus := st.systemStatus))
  }

  /** One status record applied to every instance whose key is its instance id. */
  function StatusStep(m: Vpcs, st: RawInstanceStatus): Vpcs
  {
    EveryInstance(m, (k: string, inst: Instance) => if k == st.instanceId then WithStatus(inst, st) else inst)
  }

  function MappedStatuses(m: Vpcs, sts: seq<RawInstanceStatus>): (r: Vpcs)
    ensures SameLayout(r, m)
  {
    if |sts| == 0 then m else StatusStep(MappedStatuses(m, sts[..|sts| - 1]), sts[|sts| - 1])
  }

  method MapInstanceStatuses(vpcs: Vpcs, statuses: seq<RawInstanceStatus>) returns (r: Vpcs)
    ensures r == MappedStatuses(vpcs, statuses)
  {
    r := vpcs;
    for i := 0 to |statuses|
      invariant r == MappedStatuses(vpcs, statuses[..i])
    {
      assert statuses[..i + 1][..i] == statuses[..i];
      r := StatusStep(r, statuses[i]);
    }
    assert statuses[..|statuses|] == statuses;
  }

  /**
   * mapInstanceStatuses changes nothing but instances: the same VPCs,
   * subnets and instance keys, everything else of a subnet as before.
   */
  lemma {:induction false} MappedStatusesFrame(m: Vpcs, sts: seq<RawInstanceStatus>, v: string, s: string)
    requires v in m && s in m[v].subnets
    ensures MappedStatuses(m, sts)[v].data == m[v].data && MappedStatuses(m, sts)[v].peers == m[v].peers
    ensures MappedStatuses(m, sts)[v].gateways == m[v].gateways
    ensures MappedStatuses(m, sts)[v].subnets[s] ==
      m[v].subnets[s].(instances := MappedStatuses(m, sts)[v].subnets[s].instances)
    ensures MappedStatuses(m, sts)[v].subnets[s].instances.Keys == m[v].subnets[s].instances.Keys
  {
    if |sts| > 0 {
      var q := MappedStatuses(m, sts[..|sts| - 1]);
      MappedStatusesFrame(m, sts[..|sts| - 1], v, s);
      var st := sts[|sts| - 1];
      EveryInstanceAt(q, (k: string, inst: Instance) => if k == st.instanceId then WithStatus(inst, st) else inst, v, s);
    }
  }

  /** Apart from its two health checks, every instance is untouched by the status pass. */
  lemma {:induction false} MappedStatusesKeep(m: Vpcs, sts: seq<RawInstanceStatus>, v: string, s: string, k: string)
    requires v in m && s in m[v].subnets && k in m[v].subnets[s].instances
    ensures k in MappedStatuses(m, sts)[v].subnets[s].instances
    ensures var before := m[v].subnets[s].instances[k];
      var after := MappedStatuses(m, sts)[v].subnets[s].instances[k];
      after.(data := after.data.(instanceStatus := before.data.instanceStatus, systemStatus := before.data.systemStatus)) == before
  {
    MappedStatusesFrame(m, sts, v, s);
    if |sts| > 0 {
      var q := MappedStatuses(m, sts[..|sts| - 1]);
      MappedStatusesKeep(m, sts[..|sts| - 1], v, s, k);
      MappedStatusesFrame(m, sts[..|sts| - 1], v, s);
      StatusStepAt(q, sts[|sts| - 1], v, s, k);
    }
  }

  /** One status record sets the health checks of the instance it names and of no other. */
  lemma StatusStepAt(q: Vpcs, st: RawInstanceStatus, v: string, s: string, k: string)
    requires v in q && s in q[v].subnets && k in q[v].subnets[s].instances
    ensures k in StatusStep(q, st)[v].subnets[s].instances
    ensures StatusStep(q, st)[v].subnets[s].instances[k] ==
      if k == st.instanceId then WithStatus(q[v].subnets[s].instances[k], st) else q[v].subnets[s].instances[k]
  {
    EveryInstanceAt(q, (k: string, inst: Instance) => if k == st.instanceId then WithStatus(inst, st) else inst, v, s);
  }

  /** An instance named by some status record carries the health checks of the last such record. */
  lemma {:induction false} MappedStatusesLast(m: Vpcs, sts: seq<RawInstanceStatus>, i: int, v: string, s: string)
    requires 0 <= i < |sts| && forall j :: i < j < |sts| ==> sts[j].instanceId != sts[i].instanceId
    requires v in m && s in m[v].subnets && sts[i].instanceId in m[v].subnets[s].instances
    ensures sts[i].instanceId in MappedStatuses(m, sts)[v].subnets[s].instances
    ensures MappedStatuses(m, sts)[v].subnets[s].instances[sts[i].instanceId] ==
      WithStatus(m[v].subnets[s].instances[sts[i].instanceId], sts[i])
  {
    var k := sts[i].instanceId;
    var p := sts[..|sts| - 1];
    var q := MappedStatuses(m, p);
    var st := sts[|sts| - 1];
    MappedStatusesFrame(m, p, v, s);
    if i < |sts| - 1 {
      MappedStatusesLast(m, p, i, v, s);
    } else {
      MappedStatusesKeep(m, p, v, s, k);
    }
    StatusStepAt(q, st, v, s, k);
  }

  /** An instance no status record names keeps its health checks. */
  lemma {:induction false} MappedStatusesUnlisted(m: Vpcs, sts: seq<RawInstanceStatus>, v: string, s: string, k: string)
    requires forall j :: 0 <= j < |sts| ==> sts[j].instanceId != k
    requires v in m && s in m[v].subnets && k in m[v].subnets[s].instances
    ensures k in MappedStatuses(m, sts)[v].subnets[s].instances
    ensures MappedStatuses(m, sts)[v].subnets[s].instances[k] == m[v].subnets[s].instances[k]
  {
    MappedStatusesFrame(m, sts, v, s);
    if |sts| > 0 {
      var p := sts[..|sts| - 1];
      var q := MappedStatuses(m, p);
      var st := sts[|sts| - 1];
      MappedStatusesFrame(m, p, v, s);
      MappedStatusesUnlisted(m, p, v, s, k);
      StatusStepAt(q, st, v, s, k);
    }
  }

  // ------------------------------------------------------------- mapVolumes

  /** The volume mapVolumes stores: not marked encrypted, no KMS key. */
  function NewVolume(vol: RawVolume, att: VolumeAttachment): Volume
  {
    Volume(vol.volumeId, att.device, vol.volumeType, NameTag(vol.tags), false, "", vol.size)
  }

  function AttachFunction(vol: RawVolume, att: VolumeAttachment): (string, Instance) -> Instance
  {
    (k: string, inst: Instance) =>
      if k == att.instanceId then inst.(volumes := inst.volumes[vol.volumeId := NewVolume(vol, att)]) else inst
  }

  /** One attachment: the volume goes into every instance whose key is the attachment's instance id. */
  function AttachStep(m: Vpcs, vol: RawVolume, att: VolumeAttachment): Vpcs
  {
    if att.instanceId == "" then m else EveryInstance(m, AttachFunction(vol, att))
  }

  function AttachedVolume(m: Vpcs, vol: RawVolume, atts: seq<VolumeAttachment>): (r: Vpcs)
    ensures SameLayout(r, m)
  {
    if |atts| == 0 then m else AttachStep(AttachedVolume(m, vol, atts[..|atts| - 1]), vol, atts[|atts| - 1])
  }

  function MappedVolumes(m: Vpcs, vols: seq<RawVolume>): (r: Vpcs)
    ensures SameLayout(r, m)
  {
    if |vols| == 0 then m
    else AttachedVolume(MappedVolumes(m, vols[..|vols| - 1]), vols[|vols| - 1], vols[|vols| - 1].attachments)
  }

  method MapVolumes(vpcs: Vpcs, volumes: seq<RawVolume>) returns (r: Vpcs)
    ensures r == MappedVolumes(vpcs, volumes)
  {
    r := vpcs;
    for i := 0 to |volumes|
      invariant r == MappedVolumes(vpcs, volumes[..i])
    {
      assert volumes[..i + 1][..i] == volumes[..i];
      r := MapVolume(r, volumes[i]);
    }
    assert volumes[..|volumes|] == volumes;
  }

  /** The inner loop of mapVolumes, over the attachments of one volume. */
  method MapVolume(vpcs: Vpcs, volume: RawVolume) returns (r: Vpcs)
    ensures r == AttachedVolume(vpcs, volume, volume.attachments)
  {
    r := vpcs;
    for j := 0 to |volume.attachments|
      invariant r == AttachedVolume(vpcs, volume, volume.attachments[..j])
    {
      assert volume.attachments[..j + 1][..j] == volume.attachments[..j];
      var attachment := volume.attachments[j];
      if attachment.instanceId != "" {
        r := EveryInstance(r, AttachFunction(volume, attachment));
      }
    }
    assert volume.attachments[..|volume.attachments|] == volume.attachments;
  }

  /** Some attachment of volume `vk` names instance `k`, and `k` is not empty. */
  predicate Attaches(vols: seq<RawVolume>, k: string, vk: string)
  {
    && k != ""
    && exists i, j :: 0 <= i < |vols| && 0 <= j < |vols[i].attachments| &&
         vols[i].attachments[j].instanceId == k && vols[i].volumeId == vk
  }

  /** Only instances' volume maps change, and no instance appears or disappears. */
  predicate OnlyVolumesChange(a: Vpcs, b: Vpcs, v: string, s: string)
    requires v in a && s in a[v].subnets && v in b && s in b[v].subnets
  {
    && b[v].data == a[v].data && b[v].peers == a[v].peers && b[v].gateways == a[v].gateways
    && b[v].subnets[s] == a[v].subnets[s].(instances := b[v].subnets[s].instances)
    && b[v].subnets[s].instances.Keys == a[v].subnets[s].instances.Keys
    && forall k :: k in a[v].subnets[s].instances ==>
         b[v].subnets[s].instances[k] == a[v].subnets[s].instances[k].(volumes := b[v].subnets[s].instances[k].volumes)
  }

  lemma OnlyVolumesChangeTransitive(a: Vpcs, b: Vpcs, c: Vpcs, v: string, s: string)
    requires v in a && s in a[v].subnets && v in b && s in b[v].subnets && v in c && s in c[v].subnets
    requires OnlyVolumesChange(a, b, v, s) && OnlyVolumesChange(b, c, v, s)
    ensures OnlyVolumesChange(a, c, v, s)
  {
  }

  /** Some attachment names instance `k`. */
  predicate NamesInstance(atts: seq<VolumeAttachment>, k: string)
  {
    exists j :: 0 <= j < |atts| && atts[j].instanceId == k
  }

  /** The volumes of instance `k` in subnet `s` of VPC `v` (none when there is no such instance). */
  function VolumesAt(m: Vpcs, v: string, s: string, k: string): map<string, Volume>
  {
    if v in m && s in m[v].subnets && k in m[v].subnets[s].instances
    then m[v].subnets[s].instances[k].volumes
    else map[]
  }

  lemma AttachStepFrame(m: Vpcs, vol: RawVolume, att: VolumeAttachment, v: string, s: string)
    requires v in m && s in m[v].subnets
    ensures OnlyVolumesChange(m, AttachStep(m, vol, att), v, s)
  {
    if att.instanceId != "" {
      EveryInstanceAt(m, AttachFunction(vol, att), v, s);
    }
  }

  lemma AttachStepVolumes(m: Vpcs, vol: RawVolume, att: VolumeAttachment, v: string, s: string, k: string)
    requires v in m && s in m[v].subnets
    ensures v in AttachStep(m, vol, att) && s in AttachStep(m, vol, att)[v].subnets
    ensures k in AttachStep(m, vol, att)[v].subnets[s].instances <==> k in m[v].subnets[s].instances
    ensures VolumesAt(AttachStep(m, vol, att), v, s, k) ==
      if att.instanceId != "" && k == att.instanceId && k in m[v].subnets[s].instances
      then VolumesAt(m, v, s, k)[vol.volumeId := NewVolume(vol, att)]
      else VolumesAt(m, v, s, k)
  {
    if att.instanceId != "" {
      EveryInstanceAt(m, AttachFunction(vol, att), v, s);
    }
  }

  lemma {:induction false} AttachedVolumeKeeps(m: Vpcs, vol: RawVolume, atts: seq<VolumeAttachment>, v: string, s: string, k: string)
    requires v in m && s in m[v].subnets && k in m[v].subnets[s].instances
    ensures k in AttachedVolume(m, vol, atts)[v].subnets[s].instances
  {
    if |atts| > 0 {
      AttachedVolumeKeeps(m, vol, atts[..|atts| - 1], v, s, k);
      AttachStepVolumes(AttachedVolume(m, vol, atts[..|atts| - 1]), vol, atts[|atts| - 1], v, s, k);
    }
  }

  lemma {:induction false} AttachedVolumeFrame(m: Vpcs, vol: RawVolume, atts: seq<VolumeAttachment>, v: string, s: string)
    requires v in m && s in m[v].subnets
    ensures OnlyVolumesChange(m, AttachedVolume(m, vol, atts), v, s)
  {
    if |atts| > 0 {
      var p := atts[..|atts| - 1];
      AttachedVolumeFrame(m, vol, p, v, s);
      var q := AttachedVolume(m, vol, p);
      AttachStepFrame(q, vol, atts[|atts| - 1], v, s);
      OnlyVolumesChangeTransitive(m, q, AttachedVolume(m, vol, atts), v, s);
    }
  }

  /** Some attachment in `atts` names instance `k`, which is not empty, and is where `after[vk]` came from. */
  predicate AttachedFrom(vol: RawVolume, atts: seq<VolumeAttachment>, k: string, vk: string, after: map<string, Volume>)
  {
    vk == vol.volumeId && k != "" && vk in after &&
    exists j :: 0 <= j < |atts| && atts[j].instanceId == k && after[vk] == NewVolume(vol, atts[j])
  }

  /** What one volume's attachments do to the volumes of one instance. */
  lemma AttachedVolumeAt(m: Vpcs, vol: RawVolume, atts: seq<VolumeAttachment>,
                         v: string, s: string, k: string, vk: string)
    requires v in m && s in m[v].subnets && k in m[v].subnets[s].instances
    ensures var before := VolumesAt(m, v, s, k);
      var after := VolumesAt(AttachedVolume(m, vol, atts), v, s, k);
      && (vk in after <==> vk in before || (vk == vol.volumeId && k != "" && exists j :: 0 <= j < |atts| && atts[j].instanceId == k))
      && (vk in after ==> (vk in before && after[vk] == before[vk]) || AttachedFrom(vol, atts, k, vk, after))
  {
    AttachedVolumeHas(m, vol, atts, v, s, k, vk);
    AttachedVolumeOrigin(m, vol, atts, v, s, k, vk);
  }

  /** A volume is attached to an instance afterwards iff it was before or one of the attachments names the instance. */
  lemma {:induction false} AttachedVolumeHas(m: Vpcs, vol: RawVolume, atts: seq<VolumeAttachment>,
                                             v: string, s: string, k: string, vk: string)
    requires v in m && s in m[v].subnets && k in m[v].subnets[s].instances
    ensures var before := VolumesAt(m, v, s, k);
      var after := VolumesAt(AttachedVolume(m, vol, atts), v, s, k);
      vk in after <==> vk in before || (vk == vol.volumeId && k != "" && exists j :: 0 <= j < |atts| && atts[j].instanceId == k)
  {
    if |atts| > 0 {
      var p := atts[..|atts| - 1];
      AttachedVolumeHas(m, vol, p, v, s, k, vk);
      AttachedVolumeKeeps(m, vol, p, v, s, k);
      AttachStepVolumes(AttachedVolume(m, vol, p), vol, atts[|atts| - 1], v, s, k);
      AttachmentsSnoc(atts, p, k);
    }
  }

  /** A volume attached to an instance afterwards was there already, or comes from an attachment naming it. */
  lemma {:induction false} AttachedVolumeOrigin(m: Vpcs, vol: RawVolume, atts: seq<VolumeAttachment>,
                                                v: string, s: string, k: string, vk: string)
    requires v in m && s in m[v].subnets && k in m[v].subnets[s].instances
    ensures var before := VolumesAt(m, v, s, k);
      var after := VolumesAt(AttachedVolume(m, vol, atts), v, s, k);
      vk in after ==> (vk in before && after[vk] == before[vk]) || AttachedFrom(vol, atts, k, vk, after)
  {
    if |atts| > 0 {
      var p := atts[..|atts| - 1];
      var att := atts[|atts| - 1];
      AttachedVolumeOrigin(m, vol, p, v, s, k, vk);
      AttachedVolumeKeeps(m, vol, p, v, s, k);
      var q := AttachedVolume(m, vol, p);
      AttachStepVolumes(q, vol, att, v, s, k);
      var mid := VolumesAt(q, v, s, k);
      var after := VolumesAt(AttachedVolume(m, vol, atts), v, s, k);
      var before := VolumesAt(m, v, s, k);
      if vk in after {
        if att.instanceId != "" && k == att.instanceId && vk == vol.volumeId {
          assert atts[|atts| - 1].instanceId == k;
          assert AttachedFrom(vol, atts, k, vk, after);
        } else {
          assert vk in mid && after[vk] == mid[vk];
          if !(vk in before && mid[vk] == before[vk]) {
            AttachedFromSnoc(vol, atts, k, vk, mid, after);
          }
        }
      }
    }
  }

  lemma AttachmentsSnoc(atts: seq<VolumeAttachment>, p: seq<VolumeAttachment>, k: string)
    requires |atts| > 0 && p == atts[..|atts| - 1]
    ensures (exists j :: 0 <= j < |atts| && atts[j].instanceId == k) <==>
      (exists j :: 0 <= j < |p| && p[j].instanceId == k) || atts[|atts| - 1].instanceId == k
  {
    if exists j :: 0 <= j < |atts| && atts[j].instanceId == k {
      var j :| 0 <= j < |atts| && atts[j].instanceId == k;
      if j < |p| {
        assert p[j] == atts[j];
      }
    }
    if exists j :: 0 <= j < |p| && p[j].instanceId == k {
      var j :| 0 <= j < |p| && p[j].instanceId == k;
      assert p[j] == atts[j];
    }
  }

  lemma AttachedFromSnoc(vol: RawVolume, atts: seq<VolumeAttachment>, k: string, vk: string,
                         mid: map<string, Volume>, after: map<string, Volume>)
    requires |atts| > 0 && AttachedFrom(vol, atts[..|atts| - 1], k, vk, mid)
    requires vk in after && after[vk] == mid[vk]
    ensures AttachedFrom(vol, atts, k, vk, after)
  {
    var p := atts[..|atts| - 1];
    var j :| 0 <= j < |p| && p[j].instanceId == k && mid[vk] == NewVolume(vol, p[j]);
    assert atts[j] == p[j];
  }

  lemma {:induction false} MappedVolumesFrame(m: Vpcs, vols: seq<RawVolume>, v: string, s: string)
    requires v in m && s in m[v].subnets
    ensures OnlyVolumesChange(m, MappedVolumes(m, vols), v, s)
  {
    if |vols| > 0 {
      var p := vols[..|vols| - 1];
      MappedVolumesFrame(m, p, v, s);
      var q := MappedVolumes(m, p);
      AttachedVolumeFrame(q, vols[|vols| - 1], vols[|vols| - 1].attachments, v, s);
      OnlyVolumesChangeTransitive(m, q, MappedVolumes(m, vols), v, s);
    }
  }

  /** Some attachment of volume `vk` names instance `k` and is where `after[vk]` came from. */
  predicate VolumeFrom(vols: seq<RawVolume>, k: string, vk: string, after: map<string, Volume>)
  {
    k != "" && vk in after &&
    exists i, j :: 0 <= i < |vols| && 0 <= j < |vols[i].attachments| && vols[i].attachments[j].instanceId == k &&
      vols[i].volumeId == vk && after[vk] == NewVolume(vols[i], vols[i].attachments[j])
  }

  /**
   * mapVolumes: an instance `k` holds volume `vk` afterwards exactly when
   * it held it before or some attachment of volume `vk` names `k`; a
   * volume that is new or replaced is built from such an attachment.
   * (MappedVolumesFrame: nothing but instances' volume maps changes.)
   */
  lemma {:induction false} MappedVolumesAt(m: Vpcs, vols: seq<RawVolume>, v: string, s: string, k: string, vk: string)
    requires v in m && s in m[v].subnets && k in m[v].subnets[s].instances
    ensures k in MappedVolumes(m, vols)[v].subnets[s].instances
    ensures var before := VolumesAt(m, v, s, k);
      var after := VolumesAt(MappedVolumes(m, vols), v, s, k);
      && (vk in after <==> vk in before || Attaches(vols, k, vk))
      && (vk in after ==> (vk in before && after[vk] == before[vk]) || VolumeFrom(vols, k, vk, after))
  {
    if |vols| > 0 {
      var p := vols[..|vols| - 1];
      var vol := vols[|vols| - 1];
      MappedVolumesAt(m, p, v, s, k, vk);
      var q := MappedVolumes(m, p);
      AttachedVolumeAt(q, vol, vol.attachments, v, s, k, vk);
      AttachedVolumeKeeps(q, vol, vol.attachments, v, s, k);
      var before := VolumesAt(m, v, s, k);
      var mid := VolumesAt(q, v, s, k);
      var after := VolumesAt(MappedVolumes(m, vols), v, s, k);
      VolumesSnoc(vols, p, k, vk);
      if vk in after && !(vk in before && after[vk] == before[vk]) {
        if AttachedFrom(vol, vol.attachments, k, vk, after) {
          VolumeFromLast(vols, k, vk, after);
        } else {
          VolumeFromSnoc(vols, p, k, vk, mid, after);
        }
      }
    }
  }

  lemma VolumesSnoc(vols: seq<RawVolume>, p: seq<RawVolume>, k: string, vk: string)
    requires |vols| > 0 && p == vols[..|vols| - 1]
    ensures Attaches(vols, k, vk) <==>
      (Attaches(p, k, vk) || (vk == vols[|vols| - 1].volumeId && k != "" && NamesInstance(vols[|vols| - 1].attachments, k)))
  {
    if Attaches(vols, k, vk) {
      var i, j :| 0 <= i < |vols| && 0 <= j < |vols[i].attachments| &&
        vols[i].attachments[j].instanceId == k && vols[i].volumeId == vk;
      if i < |p| {
        assert p[i] == vols[i];
      }
    }
    if Attaches(p, k, vk) {
      var i, j :| 0 <= i < |p| && 0 <= j < |p[i].attachments| && p[i].attachments[j].instanceId == k && p[i].volumeId == vk;
      assert vols[i] == p[i];
    }
  }

  lemma VolumeFromLast(vols: seq<RawVolume>, k: string, vk: string, after: map<string, Volume>)
    requires |vols| > 0 && AttachedFrom(vols[|vols| - 1], vols[|vols| - 1].attachments, k, vk, after)
    ensures VolumeFrom(vols, k, vk, after)
  {
    var vol := vols[|vols| - 1];
    var j :| 0 <= j < |vol.attachments| && vol.attachments[j].instanceId == k && after[vk] == NewVolume(vol, vol.attachments[j]);
    assert vols[|vols| - 1].attachments[j].instanceId == k;
  }

  lemma VolumeFromSnoc(vols: seq<RawVolume>, p: seq<RawVolume>, k: string, vk: string,
                       mid: map<string, Volume>, after: map<string, Volume>)
    requires |vols| > 0 && p == vols[..|vols| - 1] && VolumeFrom(p, k, vk, mid)
    requires vk in after && after[vk] == mid[vk]
    ensures VolumeFrom(vols, k, vk, after)
  {
    var i, j :| 0 <= i < |p| && 0 <= j < |p[i].attachments| && p[i].attachments[j].instanceId == k &&
      p[i].volumeId == vk && mid[vk] == NewVolume(p[i], p[i].attachments[j]);
    assert vols[i] == p[i];
  }

  // --------------------------------------------------------- mapNatGateways

  /** mapNatGateways skips a gateway in state "deleted". */
  predicate KeepsNatGateway(g: RawNatGateway)
  {
    g.state != "deleted"
  }

  /** The NAT gateway stored: addresses from its first address record, no interfaces. */
  function NewNatGateway(g: RawNatGateway): NatGateway
    requires |g.addresses| > 0
  {
    NatGateway(NatGatewayData(g.natGatewayId, g.addresses[0].privateIp, g.addresses[0].publicIp,
                              g.state, g.connectivityType, NameTag(g.tags)), map[])
  }

  /** Every kept gateway names a writable subnet and has an address record (else the pass panics). */
  predicate NatGatewaysPlaceable(m: Vpcs, gs: seq<RawNatGateway>)
  {
    forall g :: g in gs && KeepsNatGateway(g) ==> Writable(m, g.vpcId, g.subnetId) && |g.addresses| > 0
  }

  function NatGatewayStep(m: Vpcs, g: RawNatGateway): (r: Vpcs)
    requires KeepsNatGateway(g) ==> Writable(m, g.vpcId, g.subnetId) && |g.addresses| > 0
    ensures SameLayout(r, m)
  {
    if KeepsNatGateway(g) then
      var sub := m[g.vpcId].subnets[g.subnetId];
      WithSubnet(m, g.vpcId, g.subnetId, sub.(natGateways := sub.natGateways[g.natGatewayId := NewNatGateway(g)]))
    else m
  }

  lemma NatGatewayStepAt(m: Vpcs, g: RawNatGateway, v: string, s: string)
    requires KeepsNatGateway(g) ==> Writable(m, g.vpcId, g.subnetId) && |g.addresses| > 0
    requires v in m && s in m[v].subnets
    ensures NatGatewayStep(m, g)[v].subnets[s] == m[v].subnets[s].(natGateways := NatGatewayStep(m, g)[v].subnets[s].natGateways)
    ensures NatGatewayStep(m, g)[v].subnets[s].natGateways ==
      if KeepsNatGateway(g) && g.vpcId == v && g.subnetId == s
      then m[v].subnets[s].natGateways[g.natGatewayId := NewNatGateway(g)]
      else m[v].subnets[s].natGateways
  {
    if KeepsNatGateway(g) {
      var sub := m[g.vpcId].subnets[g.subnetId];
      WithSubnetAt(m, g.vpcId, g.subnetId, sub.(natGateways := sub.natGateways[g.natGatewayId := NewNatGateway(g)]), v, s);
    }
  }

  function MappedNatGateways(m: Vpcs, gs: seq<RawNatGateway>): (r: Vpcs)
    requires NatGatewaysPlaceable(m, gs)
    ensures SameLayout(r, m)
  {
    if |gs| == 0 then m
    else
      NatGatewaysInit(m, gs);
      var q := MappedNatGateways(m, gs[..|gs| - 1]);
      SameLayoutWritable(q, m);
      NatGatewayStep(q, gs[|gs| - 1])
  }

  method MapNatGateways(vpcs: Vpcs, natGateways: seq<RawNatGateway>) returns (r: Vpcs)
    requires NatGatewaysPlaceable(vpcs, natGateways)
    ensures r == MappedNatGateways(vpcs, natGateways)
  {
    r := vpcs;
    for i := 0 to |natGateways|
      invariant NatGatewaysPlaceable(vpcs, natGateways[..i])
      invariant r == MappedNatGateways(vpcs, natGateways[..i])
    {
      NatGatewaysNext(vpcs, natGateways, i);
      r := MapNatGateway(r, natGateways[i]);
    }
    assert natGateways[..|natGateways|] == natGateways;
  }

  lemma NatGatewaysInit(m: Vpcs, gs: seq<RawNatGateway>)
    requires NatGatewaysPlaceable(m, gs) && |gs| > 0
    ensures NatGatewaysPlaceable(m, gs[..|gs| - 1])
    ensures KeepsNatGateway(gs[|gs| - 1]) ==> Writable(m, gs[|gs| - 1].vpcId, gs[|gs| - 1].subnetId) && |gs[|gs| - 1].addresses| > 0
  {
    assert gs[|gs| - 1] in gs;
    forall y | y in gs[..|gs| - 1] ensures y in gs { }
  }

  /** The walk over the NAT gateways after `i` of them, and after one more. */
  lemma NatGatewaysNext(m: Vpcs, gs: seq<RawNatGateway>, i: int)
    requires NatGatewaysPlaceable(m, gs) && 0 <= i < |gs|
    ensures NatGatewaysPlaceable(m, gs[..i]) && NatGatewaysPlaceable(m, gs[..i + 1])
    ensures KeepsNatGateway(gs[i]) ==> Writable(MappedNatGateways(m, gs[..i]), gs[i].vpcId, gs[i].subnetId) && |gs[i].addresses| > 0
    ensures MappedNatGateways(m, gs[..i + 1]) == NatGatewayStep(MappedNatGateways(m, gs[..i]), gs[i])
  {
    assert gs[i] in gs;
    forall y | y in gs[..i + 1] ensures y in gs { }
    forall y | y in gs[..i] ensures y in gs { }
    assert gs[..i + 1][..i] == gs[..i];
    SameLayoutWritable(MappedNatGateways(m, gs[..i]), m);
  }

  /** The body of the NAT gateway loop, for one gateway. */
  method MapNatGateway(vpcs: Vpcs, gateway: RawNatGateway) returns (r: Vpcs)
    requires KeepsNatGateway(gateway) ==> Writable(vpcs, gateway.vpcId, gateway.subnetId) && |gateway.addresses| > 0
    ensures r == NatGatewayStep(vpcs, gateway)
  {
    if gateway.state == "deleted" {
      return vpcs;
    }
    var name := GetNameTag(gateway.tags);
    var created := NatGateway(NatGatewayData(gateway.natGatewayId, gateway.addresses[0].privateIp,
                                             gateway.addresses[0].publicIp, gateway.state,
                                             gateway.connectivityType, name), map[]);
    var sub := vpcs[gateway.vpcId].subnets[gateway.subnetId];
    r := vpcs[gateway.vpcId := vpcs[gateway.vpcId].(subnets := vpcs[gateway.vpcId].subnets[gateway.subnetId :=
           sub.(natGateways := sub.natGateways[gateway.natGatewayId := created])])];
  }

  /**
   * mapNatGateways, per subnet: a gateway present afterwards was there
   * before and untouched, or is built from a listed gateway of that VPC and
   * subnet that is not "deleted".
   */
  lemma {:induction false} MappedNatGatewaysOrigin(m: Vpcs, gs: seq<RawNatGateway>, v: string, s: string, k: string)
    requires NatGatewaysPlaceable(m, gs)
    requires v in m && s in m[v].subnets && k in MappedNatGateways(m, gs)[v].subnets[s].natGateways
    ensures || (k in m[v].subnets[s].natGateways &&
                MappedNatGateways(m, gs)[v].subnets[s].natGateways[k] == m[v].subnets[s].natGateways[k])
            || exists g :: g in gs && KeepsNatGateway(g) && g.vpcId == v && g.subnetId == s && g.natGatewayId == k &&
                MappedNatGateways(m, gs)[v].subnets[s].natGateways[k] == NewNatGateway(g)
  {
    if |gs| > 0 {
      var g := gs[|gs| - 1];
      var p := gs[..|gs| - 1];
      assert NatGatewaysPlaceable(m, p) by {
        forall y | y in p ensures y in gs { }
      }
      var q := MappedNatGateways(m, p);
      SameLayoutWritable(q, m);
      NatGatewayStepAt(q, g, v, s);
      if !(KeepsNatGateway(g) && g.vpcId == v && g.subnetId == s && g.natGatewayId == k) {
        MappedNatGatewaysOrigin(m, p, v, s, k);
        assert forall y :: y in p ==> y in gs;
      }
    }
  }

  /** mapNatGateways never removes a gateway. */
  lemma {:induction false} MappedNatGatewaysGrow(m: Vpcs, gs: seq<RawNatGateway>, v: string, s: string, k: string)
    requires NatGatewaysPlaceable(m, gs)
    requires v in m && s in m[v].subnets && k in m[v].subnets[s].natGateways
    ensures k in MappedNatGateways(m, gs)[v].subnets[s].natGateways
  {
    if |gs| > 0 {
      var p := gs[..|gs| - 1];
      assert NatGatewaysPlaceable(m, p) by {
        forall y | y in p ensures y in gs { }
      }
      MappedNatGatewaysGrow(m, p, v, s, k);
      var q := MappedNatGateways(m, p);
      SameLayoutWritable(q, m);
      NatGatewayStepAt(q, gs[|gs| - 1], v, s);
    }
  }

  /** Every listed gateway that is not "deleted" ends up in its subnet. */
  lemma {:induction false} MappedNatGatewaysCover(m: Vpcs, gs: seq<RawNatGateway>, g: RawNatGateway)
    requires NatGatewaysPlaceable(m, gs)
    requires g in gs && KeepsNatGateway(g)
    ensures g.natGatewayId in MappedNatGateways(m, gs)[g.vpcId].subnets[g.subnetId].natGateways
  {
    var p := gs[..|gs| - 1];
    assert NatGatewaysPlaceable(m, p) by {
      forall y | y in p ensures y in gs { }
    }
    var q := MappedNatGateways(m, p);
    SameLayoutWritable(q, m);
    NatGatewayStepAt(q, gs[|gs| - 1], g.vpcId, g.subnetId);
    if g != gs[|gs| - 1] {
      assert g in p by {
        var i :| 0 <= i < |gs| && gs[i] == g;
        assert i < |p| && p[i] == g;
      }
      MappedNatGatewaysCover(m, p, g);
    }
  }
}
