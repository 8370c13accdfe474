/**
 * The first passes of the older snapshot (cmd/vpc-ls.go): VPCs, subnets,
 * instances and NAT gateways. The records carry no names, an instance is
 * built with the volumes of its block devices and the interfaces it
 * reports, and NAT gateways are not filtered by state.
 *
 * As in the current passes, each pass is a method whose loops follow the
 * source and whose result is a specification function of its inputs. What
 * a pass adds to one subnet is collected by a function of the input list
 * alone (`InstancesFor`, `NatGatewaysFor`), and the lemmas say which
 * records those are.
 */
module LegacyBase {
  import opened Wrappers
  import opened Ec2
  import opened LegacyModel
  import MapBase
  import Model

  // ---------------------------------------------------------------- mapVpcs

  /** The VPC mapVpcs stores: no name, no gateways, no subnets, no peers. */
  function NewVpc(v: RawVpc): Vpc
  {
    Vpc(v.vpcId, v.isDefault, v.cidrBlock, MapBase.Ipv6Cidr(v.ipv6Associations), [], map[], map[], false)
  }

  function MappedVpcs(m: Vpcs, xs: seq<RawVpc>): Vpcs
  {
    if |xs| == 0 then m
    else MappedVpcs(m, xs[..|xs| - 1])[xs[|xs| - 1].vpcId := NewVpc(xs[|xs| - 1])]
  }

  method MapVpcs(vpcs: Vpcs, vpcData: seq<RawVpc>) returns (r: Vpcs)
    ensures r == MappedVpcs(vpcs, vpcData)
  {
    r := vpcs;
    for i := 0 to |vpcData|
      invariant r == MappedVpcs(vpcs, vpcData[..i])
    {
      var v := vpcData[i];
      var v6cidr := "";
      for j := 0 to |v.ipv6Associations|
        invariant v6cidr == MapBase.Ipv6Cidr(v.ipv6Associations[..j])
      {
        assert v.ipv6Associations[..j + 1][..j] == v.ipv6Associations[..j];
        if v.ipv6Associations[j].state == "associated" {
          v6cidr := v.ipv6Associations[j].ipv6CidrBlock;
        }
      }
      assert v.ipv6Associations[..|v.ipv6Associations|] == v.ipv6Associations;
      assert vpcData[..i + 1][..i] == vpcData[..i];
      r := r[v.vpcId := Vpc(v.vpcId, v.isDefault, v.cidrBlock, v6cidr, [], map[], map[], false)];
    }
    assert vpcData[..|vpcData|] == vpcData;
  }

  /** mapVpcs: a key is present afterwards iff it was before or some record names it; an unlisted one keeps its entry. */
  lemma {:induction false} MappedVpcsAt(m: Vpcs, xs: seq<RawVpc>, k: string)
    ensures k in MappedVpcs(m, xs) <==> k in m || exists i :: 0 <= i < |xs| && xs[i].vpcId == k
    ensures (forall i :: 0 <= i < |xs| ==> xs[i].vpcId != k) && k in m ==> MappedVpcs(m, xs)[k] == m[k]
  {
    if |xs| > 0 {
      var p := xs[..|xs| - 1];
      MappedVpcsAt(m, p, k);
      assert forall i :: 0 <= i < |p| ==> p[i] == xs[i];
      if exists i :: 0 <= i < |xs| && xs[i].vpcId == k {
        var i :| 0 <= i < |xs| && xs[i].vpcId == k;
        assert i < |p| || xs[|xs| - 1].vpcId == k;
      }
    }
  }

  /** A listed VPC id carries the VPC built from its last record. */
  lemma {:induction false} MappedVpcsLast(m: Vpcs, xs: seq<RawVpc>, i: int)
    requires 0 <= i < |xs|
    requires forall j :: i < j < |xs| ==> xs[j].vpcId != xs[i].vpcId
    ensures xs[i].vpcId in MappedVpcs(m, xs) && MappedVpcs(m, xs)[xs[i].vpcId] == NewVpc(xs[i])
  {
    if i < |xs| - 1 {
      MappedVpcsLast(m, xs[..|xs| - 1], i);
    }
  }

  /**
   * Against the current mapVpcs, from an empty topology: the same keys, and
   * each older VPC has the id, default flag and both CIDRs of the current
   * VPC data, without its name.
   */
  lemma {:induction false} MappedVpcsAgainstCurrent(xs: seq<RawVpc>)
    ensures MappedVpcs(map[], xs).Keys == MapBase.MappedVpcs(map[], xs).Keys
    ensures forall k :: k in MappedVpcs(map[], xs) ==>
      var older := MappedVpcs(map[], xs)[k];
      var current := MapBase.MappedVpcs(map[], xs)[k];
      && older.id == current.data.id && older.isDefault == current.data.isDefault
      && older.cidrBlock == current.data.cidrBlock && older.ipv6CidrBlock == current.data.ipv6CidrBlock
      && older.subnets == map[] && older.peers == map[] && older.gateways == []
  {
    if |xs| > 0 {
      MappedVpcsAgainstCurrent(xs[..|xs| - 1]);
    }
  }

  // ------------------------------------------------------------- mapSubnets

  /** The subnet mapSubnets stores: public when either launch flag is set, no route table, empty collections. */
  function NewSubnet(s: RawSubnet): Subnet
  {
    Subnet(s.subnetId, s.cidrBlock, s.availabilityZone, s.availabilityZoneId,
           s.mapCustomerOwnedIpOnLaunch || s.mapPublicIpOnLaunch, None, map[], map[], map[], map[], map[], false)
  }

  /** Every subnet names a mapped VPC (else the write into its nil Subnets panics). */
  predicate SubnetsPlaceable(m: Vpcs, xs: seq<RawSubnet>)
  {
    forall i :: 0 <= i < |xs| ==> VpcWritable(m, xs[i].vpcId)
  }

  function MappedSubnets(m: Vpcs, xs: seq<RawSubnet>): (r: Vpcs)
    requires SubnetsPlaceable(m, xs)
    ensures SameVpcs(r, m)
    ensures forall v :: v in m ==> r[v].(subnets := m[v].subnets) == m[v]
  {
    if |xs| == 0 then m
    else
      var x := xs[|xs| - 1];
      WithSubnet(MappedSubnets(m, xs[..|xs| - 1]), x.vpcId, x.subnetId, NewSubnet(x))
  }

  method MapSubnets(vpcs: Vpcs, subnets: seq<RawSubnet>) returns (r: Vpcs)
    requires SubnetsPlaceable(vpcs, subnets)
    ensures r == MappedSubnets(vpcs, subnets)
  {
    r := vpcs;
    for i := 0 to |subnets|
      invariant SubnetsPlaceable(vpcs, subnets[..i])
      invariant r == MappedSubnets(vpcs, subnets[..i])
    {
      var v := subnets[i];
      var isPublic := v.mapCustomerOwnedIpOnLaunch || v.mapPublicIpOnLaunch;
      assert subnets[..i + 1][..i] == subnets[..i];
      var subnet := Subnet(v.subnetId, v.cidrBlock, v.availabilityZone, v.availabilityZoneId, isPublic,
                           None, map[], map[], map[], map[], map[], false);
      r := r[v.vpcId := r[v.vpcId].(subnets := r[v.vpcId].subnets[v.subnetId := subnet])];
    }
    assert subnets[..|subnets|] == subnets;
  }

  /** The subnets the records give VPC `v`, each from its last record. */
  function SubnetsFor(xs: seq<RawSubnet>, v: string): map<string, Subnet>
  {
    if |xs| == 0 then map[]
    else
      var x := xs[|xs| - 1];
      SubnetsFor(xs[..|xs| - 1], v) + if x.vpcId == v then map[x.subnetId := NewSubnet(x)] else map[]
  }

  /** mapSubnets adds to each VPC exactly the subnets listed for it, over whatever it had. */
  lemma {:induction false} MappedSubnetsAt(m: Vpcs, xs: seq<RawSubnet>, v: string)
    requires SubnetsPlaceable(m, xs) && v in m
    ensures MappedSubnets(m, xs)[v].subnets == m[v].subnets + SubnetsFor(xs, v)
  {
    if |xs| > 0 {
      var p := xs[..|xs| - 1];
      assert SubnetsPlaceable(m, p);
      MappedSubnetsAt(m, p, v);
      var x := xs[|xs| - 1];
      if x.vpcId == v {
        Model.PlusUpdate(m[v].subnets, SubnetsFor(p, v), x.subnetId, NewSubnet(x));
      } else {
        Model.PlusEmpty(m[v].subnets, SubnetsFor(p, v));
      }
    }
  }

  /** A subnet id is listed for `v` iff some record names it. */
  lemma {:induction false} SubnetsForHas(xs: seq<RawSubnet>, v: string, k: string)
    ensures k in SubnetsFor(xs, v) <==> exists i :: 0 <= i < |xs| && xs[i].vpcId == v && xs[i].subnetId == k
  {
    if |xs| > 0 {
      var p := xs[..|xs| - 1];
      SubnetsForHas(p, v, k);
      assert forall i :: 0 <= i < |p| ==> p[i] == xs[i];
      if exists i :: 0 <= i < |xs| && xs[i].vpcId == v && xs[i].subnetId == k {
        var i :| 0 <= i < |xs| && xs[i].vpcId == v && xs[i].subnetId == k;
        assert i < |p| || (xs[|xs| - 1].vpcId == v && xs[|xs| - 1].subnetId == k);
      }
    }
  }

  /** A listed subnet holds the subnet built from its last record. */
  lemma {:induction false} SubnetsForLast(xs: seq<RawSubnet>, i: int)
    requires 0 <= i < |xs|
    requires forall j :: i < j < |xs| ==> !(xs[j].vpcId == xs[i].vpcId && xs[j].subnetId == xs[i].subnetId)
    ensures xs[i].subnetId in SubnetsFor(xs, xs[i].vpcId)
    ensures SubnetsFor(xs, xs[i].vpcId)[xs[i].subnetId] == NewSubnet(xs[i])
  {
    if i < |xs| - 1 {
      SubnetsForLast(xs[..|xs| - 1], i);
    }
  }

  // ----------------------------------------------------------- mapInstances

  /** mapInstances keeps every instance that is not terminated; ids are not checked. */
  predicate KeepsInstance(x: RawInstance)
  {
    x.stateName != "terminated"
  }

  /** The volumes of an instance's block devices, keyed by EBS volume id; a later device with the same id wins. */
  function BlockVolumes(bds: seq<BlockDevice>): map<string, Volume>
  {
    if |bds| == 0 then map[]
    else BlockVolumes(bds[..|bds| - 1])[bds[|bds| - 1].volumeId := Volume(bds[|bds| - 1].volumeId, bds[|bds| - 1].deviceName)]
  }

  /**
   * A volume id is present iff some device carries it; its entry is that
   * volume with the device name of the last such device.
   */
  lemma {:induction false} BlockVolumesAt(bds: seq<BlockDevice>, k: string)
    ensures k in BlockVolumes(bds) <==> exists i :: 0 <= i < |bds| && bds[i].volumeId == k
    ensures forall i :: 0 <= i < |bds| && bds[i].volumeId == k && (forall j :: i < j < |bds| ==> bds[j].volumeId != k) ==>
      k in BlockVolumes(bds) && BlockVolumes(bds)[k] == Volume(k, bds[i].deviceName)
  {
    if |bds| > 0 {
      var p := bds[..|bds| - 1];
      var last := bds[|bds| - 1];
      assert BlockVolumes(bds) == BlockVolumes(p)[last.volumeId := Volume(last.volumeId, last.deviceName)];
      BlockVolumesAt(p, k);
      assert forall i :: 0 <= i < |p| ==> p[i] == bds[i];
      if last.volumeId != k {
        forall i | 0 <= i < |bds| && bds[i].volumeId == k
          ensures i < |p| && p[i].volumeId == k
        {
        }
      }
    }
  }

  function InterfaceOf(nic: InstanceNic): InstanceInterface
  {
    InstanceInterface(nic.networkInterfaceId, nic.privateIpAddress, nic.macAddress, nic.privateDnsName)
  }

  /** The instance's own interface list: one entry per reported interface, in order, with its id, addresses and DNS name. */
  function InstanceInterfaces(nics: seq<InstanceNic>): (r: seq<InstanceInterface>)
    ensures |r| == |nics|
    ensures forall i :: 0 <= i < |nics| ==>
      r[i].id == nics[i].networkInterfaceId && r[i].privateIp == nics[i].privateIpAddress &&
      r[i].mac == nics[i].macAddress && r[i].dns == nics[i].privateDnsName
  {
    if |nics| == 0 then [] else InstanceInterfaces(nics[..|nics| - 1]) + [InterfaceOf(nics[|nics| - 1])]
  }

  /** The instance mapInstances stores, with its block-device volumes and its interfaces. */
  function NewInstance(x: RawInstance): Instance
  {
    Instance(x.instanceId, x.instanceType, x.subnetId, x.vpcId, x.stateName, x.publicIpAddress, x.privateIpAddress,
             BlockVolumes(x.blockDevices), InstanceInterfaces(x.networkInterfaces))
  }

  /** Every kept instance names a mapped subnet of a mapped VPC (else the write panics). */
  predicate InstancesPlaceable(m: Vpcs, xs: seq<RawInstance>)
  {
    forall x :: x in xs && KeepsInstance(x) ==> Writable(m, x.vpcId, x.subnetId)
  }

  predicate ReservationsPlaceable(m: Vpcs, rs: seq<Reservation>)
  {
    forall i :: 0 <= i < |rs| ==> InstancesPlaceable(m, rs[i].instances)
  }

  lemma InstancesPlaceableLayout(m: Vpcs, q: Vpcs, xs: seq<RawInstance>)
    requires SameLayout(q, m) && InstancesPlaceable(m, xs)
    ensures InstancesPlaceable(q, xs)
  {
    SameLayoutWritable(q, m);
  }

  function InstanceStep(m: Vpcs, x: RawInstance): (r: Vpcs)
    requires KeepsInstance(x) ==> Writable(m, x.vpcId, x.subnetId)
    ensures SameLayout(r, m)
  {
    if KeepsInstance(x) then
      var sub := m[x.vpcId].subnets[x.subnetId];
      WithSubnetLayout(m, x.vpcId, x.subnetId, sub.(ec2s := sub.ec2s[x.instanceId := NewInstance(x)]));
      WithSubnet(m, x.vpcId, x.subnetId, sub.(ec2s := sub.ec2s[x.instanceId := NewInstance(x)]))
    else m
  }

  function ScannedInstances(m: Vpcs, xs: seq<RawInstance>): (r: Vpcs)
    requires InstancesPlaceable(m, xs)
    ensures SameLayout(r, m)
  {
    if |xs| == 0 then m
    else
      InstancesInit(m, xs);
      var q := ScannedInstances(m, xs[..|xs| - 1]);
      SameLayoutWritable(q, m);
      var r := InstanceStep(q, xs[|xs| - 1]);
      SameLayoutTransitive(r, q, m);
      r
  }

  function MappedInstances(m: Vpcs, rs: seq<Reservation>): (r: Vpcs)
    requires ReservationsPlaceable(m, rs)
    ensures SameLayout(r, m)
  {
    if |rs| == 0 then m
    else
      var q := MappedInstances(m, rs[..|rs| - 1]);
      InstancesPlaceableLayout(m, q, rs[|rs| - 1].instances);
      var r := ScannedInstances(q, rs[|rs| - 1].instances);
      SameLayoutTransitive(r, q, m);
      r
  }

  method MapInstances(vpcs: Vpcs, reservations: seq<Reservation>) returns (r: Vpcs)
    requires ReservationsPlaceable(vpcs, reservations)
    ensures r == MappedInstances(vpcs, reservations)
  {
    r := vpcs;
    for i := 0 to |reservations|
      invariant ReservationsPlaceable(vpcs, reservations[..i])
      invariant r == MappedInstances(vpcs, reservations[..i])
    {
      assert reservations[..i + 1][..i] == reservations[..i];
      InstancesPlaceableLayout(vpcs, r, reservations[i].instances);
      r := MapReservationInstances(r, reservations[i].instances);
    }
    assert reservations[..|reservations|] == reservations;
  }

  /** The inner loop of mapInstances, over the instances of one reservation. */
  method MapReservationInstances(vpcs: Vpcs, instances: seq<RawInstance>) returns (r: Vpcs)
    requires InstancesPlaceable(vpcs, instances)
    ensures r == ScannedInstances(vpcs, instances)
  {
    r := vpcs;
    for j := 0 to |instances|
      invariant InstancesPlaceable(vpcs, instances[..j])
      invariant r == ScannedInstances(vpcs, instances[..j])
    {
      InstancesNext(vpcs, instances, j);
      r := MapInstance(r, instances[j]);
    }
    assert instances[..|instances|] == instances;
  }

  lemma InstancesInit(m: Vpcs, xs: seq<RawInstance>)
    requires InstancesPlaceable(m, xs) && |xs| > 0
    ensures InstancesPlaceable(m, xs[..|xs| - 1])
    ensures KeepsInstance(xs[|xs| - 1]) ==> Writable(m, xs[|xs| - 1].vpcId, xs[|xs| - 1].subnetId)
  {
    assert xs[|xs| - 1] in xs;
    forall y | y in xs[..|xs| - 1] ensures y in xs { }
  }

  lemma InstancesNext(m: Vpcs, xs: seq<RawInstance>, j: int)
    requires InstancesPlaceable(m, xs) && 0 <= j < |xs|
    ensures InstancesPlaceable(m, xs[..j]) && InstancesPlaceable(m, xs[..j + 1])
    ensures KeepsInstance(xs[j]) ==> Writable(ScannedInstances(m, xs[..j]), xs[j].vpcId, xs[j].subnetId)
    ensures ScannedInstances(m, xs[..j + 1]) == InstanceStep(ScannedInstances(m, xs[..j]), xs[j])
  {
    assert xs[j] in xs;
    forall y | y in xs[..j + 1] ensures y in xs { }
    forall y | y in xs[..j] ensures y in xs { }
    assert xs[..j + 1][..j] == xs[..j];
    SameLayoutWritable(ScannedInstances(m, xs[..j]), m);
  }

  /** The body of the instance loop: the interface list, the volume map, then the write unless terminated. */
  method MapInstance(vpcs: Vpcs, instance: RawInstance) returns (r: Vpcs)
    requires KeepsInstance(instance) ==> Writable(vpcs, instance.vpcId, instance.subnetId)
    ensures r == InstanceStep(vpcs, instance)
  {
    var nics := instance.networkInterfaces;
    var networkInterfaces := [];
    for k := 0 to |nics|
      invariant networkInterfaces == InstanceInterfaces(nics[..k])
    {
      assert nics[..k + 1][..k] == nics[..k];
      var nic := nics[k];
      networkInterfaces := networkInterfaces + [InstanceInterface(nic.networkInterfaceId, nic.privateIpAddress, nic.macAddress, nic.privateDnsName)];
    }
    assert nics[..|nics|] == nics;
    var bds := instance.blockDevices;
    var volumes := map[];
    for k := 0 to |bds|
      invariant volumes == BlockVolumes(bds[..k])
    {
      assert bds[..k + 1][..k] == bds[..k];
      volumes := volumes[bds[k].volumeId := Volume(bds[k].volumeId, bds[k].deviceName)];
    }
    assert bds[..|bds|] == bds;
    r := vpcs;
    if instance.stateName != "terminated" {
      var created := Instance(instance.instanceId, instance.instanceType, instance.subnetId, instance.vpcId,
                              instance.stateName, instance.publicIpAddress, instance.privateIpAddress,
                              volumes, networkInterfaces);
      var sub := r[instance.vpcId].subnets[instance.subnetId];
      r := r[instance.vpcId := r[instance.vpcId].(subnets := r[instance.vpcId].subnets[instance.subnetId :=
             sub.(ec2s := sub.ec2s[instance.instanceId := created])])];
    }
  }

  /** The instances one reservation's list gives subnet `s` of VPC `v`. */
  function InstancesIn(xs: seq<RawInstance>, v: string, s: string): map<string, Instance>
  {
    if |xs| == 0 then map[]
    else
      var x := xs[|xs| - 1];
      InstancesIn(xs[..|xs| - 1], v, s) + InstanceAdded(x, v, s)
  }

  /** The instances all reservations give subnet `s` of VPC `v`. */
  function InstancesFor(rs: seq<Reservation>, v: string, s: string): map<string, Instance>
  {
    if |rs| == 0 then map[] else InstancesFor(rs[..|rs| - 1], v, s) + InstancesIn(rs[|rs| - 1].instances, v, s)
  }

  /** What an instance record adds to subnet `s` of VPC `v`. */
  function InstanceAdded(x: RawInstance, v: string, s: string): map<string, Instance>
  {
    if KeepsInstance(x) && x.vpcId == v && x.subnetId == s then map[x.instanceId := NewInstance(x)] else map[]
  }

  lemma InstanceStepAt(m: Vpcs, x: RawInstance, v: string, s: string)
    requires KeepsInstance(x) ==> Writable(m, x.vpcId, x.subnetId)
    requires v in m && s in m[v].subnets
    ensures InstanceStep(m, x)[v].(subnets := m[v].subnets) == m[v]
    ensures InstanceStep(m, x)[v].subnets[s] == m[v].subnets[s].(ec2s := m[v].subnets[s].ec2s + InstanceAdded(x, v, s))
  {
    var ec2s := m[v].subnets[s].ec2s;
    var added := InstanceAdded(x, v, s);
    if KeepsInstance(x) {
      var created := NewInstance(x);
      var sub := m[x.vpcId].subnets[x.subnetId];
      assert InstanceStep(m, x) == WithSubnet(m, x.vpcId, x.subnetId, sub.(ec2s := sub.ec2s[x.instanceId := created]));
      WithSubnetAt(m, x.vpcId, x.subnetId, sub.(ec2s := sub.ec2s[x.instanceId := created]), v, s);
      if x.vpcId == v && x.subnetId == s {
        assert added == map[x.instanceId := created];
        PlusOne(ec2s, x.instanceId, created);
      } else {
        assert added == map[];
        PlusNone(ec2s);
      }
    } else {
      assert added == map[];
      PlusNone(ec2s);
    }
  }

  /** One reservation's scan adds to each subnet exactly that reservation's instances for it, and changes nothing else. */
  lemma {:induction false} ScannedInstancesAt(m: Vpcs, xs: seq<RawInstance>, v: string, s: string)
    requires InstancesPlaceable(m, xs) && v in m && s in m[v].subnets
    ensures ScannedInstances(m, xs)[v].(subnets := m[v].subnets) == m[v]
    ensures ScannedInstances(m, xs)[v].subnets[s] == m[v].subnets[s].(ec2s := m[v].subnets[s].ec2s + InstancesIn(xs, v, s))
  {
    if |xs| > 0 {
      InstancesInit(m, xs);
      var p := xs[..|xs| - 1];
      var q := ScannedInstances(m, p);
      ScannedInstancesAt(m, p, v, s);
      SameLayoutWritable(q, m);
      InstanceStepAt(q, xs[|xs| - 1], v, s);
      PlusAssoc(m[v].subnets[s].ec2s, InstancesIn(p, v, s), InstanceAdded(xs[|xs| - 1], v, s));
    }
  }

  /**
   * mapInstances adds to each subnet exactly the instances all reservations
   * give it, over whatever it had, and changes nothing else.
   */
  lemma {:induction false} MappedInstancesAt(m: Vpcs, rs: seq<Reservation>, v: string, s: string)
    requires ReservationsPlaceable(m, rs) && v in m && s in m[v].subnets
    ensures MappedInstances(m, rs)[v].(subnets := m[v].subnets) == m[v]
    ensures MappedInstances(m, rs)[v].subnets[s] == m[v].subnets[s].(ec2s := m[v].subnets[s].ec2s + InstancesFor(rs, v, s))
  {
    if |rs| > 0 {
      var p := rs[..|rs| - 1];
      assert ReservationsPlaceable(m, p);
      var q := MappedInstances(m, p);
      MappedInstancesAt(m, p, v, s);
      InstancesPlaceableLayout(m, q, rs[|rs| - 1].instances);
      ScannedInstancesAt(q, rs[|rs| - 1].instances, v, s);
      PlusAssoc(m[v].subnets[s].ec2s, InstancesFor(p, v, s), InstancesIn(rs[|rs| - 1].instances, v, s));
    }
  }

  /** An instance id one reservation gives a subnet is that of one of its kept instances there, built from it. */
  lemma {:induction false} InstancesInMembers(xs: seq<RawInstance>, v: string, s: string, k: string)
    ensures k in InstancesIn(xs, v, s) <==>
      exists x :: x in xs && KeepsInstance(x) && x.vpcId == v && x.subnetId == s && x.instanceId == k
    ensures k in InstancesIn(xs, v, s) ==>
      exists x :: x in xs && KeepsInstance(x) && x.vpcId == v && x.subnetId == s && x.instanceId == k &&
        InstancesIn(xs, v, s)[k] == NewInstance(x)
  {
    if |xs| > 0 {
      var p := xs[..|xs| - 1];
      var x := xs[|xs| - 1];
      InstancesInMembers(p, v, s, k);
      assert forall y :: y in p ==> y in xs;
      assert forall y :: y in xs ==> y in p || y == x;
    }
  }

  /**
   * The instances mapInstances gives a subnet: an id is there iff some
   * reservation lists a non-terminated instance of that VPC and subnet with
   * that id, and its entry is built from such an instance, with that
   * instance's block-device volumes and reported interfaces.
   */
  lemma {:induction false} InstancesForMembers(rs: seq<Reservation>, v: string, s: string, k: string)
    ensures k in InstancesFor(rs, v, s) <==>
      exists i, x :: 0 <= i < |rs| && x in rs[i].instances && KeepsInstance(x) && x.vpcId == v && x.subnetId == s && x.instanceId == k
    ensures k in InstancesFor(rs, v, s) ==>
      exists i, x :: 0 <= i < |rs| && x in rs[i].instances && KeepsInstance(x) && x.vpcId == v && x.subnetId == s && x.instanceId == k &&
        InstancesFor(rs, v, s)[k] == NewInstance(x)
  {
    if |rs| > 0 {
      var p := rs[..|rs| - 1];
      var last := rs[|rs| - 1].instances;
      InstancesForMembers(p, v, s, k);
      InstancesInMembers(last, v, s, k);
      assert forall i :: 0 <= i < |p| ==> p[i] == rs[i];
      if k in InstancesIn(last, v, s) {
        var x :| x in last && KeepsInstance(x) && x.vpcId == v && x.subnetId == s && x.instanceId == k &&
          InstancesIn(last, v, s)[k] == NewInstance(x);
        assert rs[|rs| - 1].instances == last;
      } else if exists i, x :: 0 <= i < |rs| && x in rs[i].instances && KeepsInstance(x) && x.vpcId == v && x.subnetId == s && x.instanceId == k {
        var i, x :| 0 <= i < |rs| && x in rs[i].instances && KeepsInstance(x) && x.vpcId == v && x.subnetId == s && x.instanceId == k;
        assert i < |p|;
      }
    }
  }

  // --------------------------------------------------------- mapNatGateways

  /** The NAT gateway stored: addresses from the first address record, no name. */
  function NewNatGateway(g: RawNatGateway): NatGateway
    requires |g.addresses| > 0
  {
    NatGateway(g.natGatewayId, g.addresses[0].privateIp, g.addresses[0].publicIp, g.state, g.connectivityType)
  }

  /** Every gateway, deleted or not, names a writable subnet and has an address record (else the pass panics). */
  predicate NatGatewaysPlaceable(m: Vpcs, gs: seq<RawNatGateway>)
  {
    forall g :: g in gs ==> Writable(m, g.vpcId, g.subnetId) && |g.addresses| > 0
  }

  /** Every gateway has an address record. */
  predicate Addressed(gs: seq<RawNatGateway>)
  {
    forall g :: g in gs ==> |g.addresses| > 0
  }

  function NatGatewayStep(m: Vpcs, g: RawNatGateway): (r: Vpcs)
    requires Writable(m, g.vpcId, g.subnetId) && |g.addresses| > 0
    ensures SameLayout(r, m)
  {
    var sub := m[g.vpcId].subnets[g.subnetId];
    WithSubnetLayout(m, g.vpcId, g.subnetId, sub.(natGateways := sub.natGateways[g.natGatewayId := NewNatGateway(g)]));
    WithSubnet(m, g.vpcId, g.subnetId, sub.(natGateways := sub.natGateways[g.natGatewayId := NewNatGateway(g)]))
  }

  function MappedNatGateways(m: Vpcs, gs: seq<RawNatGateway>): (r: Vpcs)
    requires NatGatewaysPlaceable(m, gs)
    ensures SameLayout(r, m)
  {
    if |gs| == 0 then m
    else
      NatGatewaysInit(m, gs);
      var q := MappedNatGateways(m, gs[..|gs| - 1]);
      SameLayoutWritable(q, m);
      var r := NatGatewayStep(q, gs[|gs| - 1]);
      SameLayoutTransitive(r, q, m);
      r
  }

  method MapNatGateways(vpcs: Vpcs, natGateways: seq<RawNatGateway>) returns (r: Vpcs)
    requires NatGatewaysPlaceable(vpcs, natGateways)
    ensures r == MappedNatGateways(vpcs, natGateways)
  {
    r := vpcs;
    for i := 0 to |natGateways|
      invariant NatGatewaysPlaceable(vpcs, natGateways[..i])
      invariant r == MappedNatGateways(vpcs, natGateways[..i])
    {
      NatGatewaysNext(vpcs, natGateways, i);
      var gateway := natGateways[i];
      var created := NatGateway(gateway.natGatewayId, gateway.addresses[0].privateIp, gateway.addresses[0].publicIp,
                                gateway.state, gateway.connectivityType);
      var sub := r[gateway.vpcId].subnets[gateway.subnetId];
      r := r[gateway.vpcId := r[gateway.vpcId].(subnets := r[gateway.vpcId].subnets[gateway.subnetId :=
             sub.(natGateways := sub.natGateways[gateway.natGatewayId := created])])];
    }
    assert natGateways[..|natGateways|] == natGateways;
  }

  lemma NatGatewaysInit(m: Vpcs, gs: seq<RawNatGateway>)
    requires NatGatewaysPlaceable(m, gs) && |gs| > 0
    ensures NatGatewaysPlaceable(m, gs[..|gs| - 1])
    ensures Writable(m, gs[|gs| - 1].vpcId, gs[|gs| - 1].subnetId) && |gs[|gs| - 1].addresses| > 0
  {
    assert gs[|gs| - 1] in gs;
    forall y | y in gs[..|gs| - 1] ensures y in gs { }
  }

  lemma NatGatewaysNext(m: Vpcs, gs: seq<RawNatGateway>, i: int)
    requires NatGatewaysPlaceable(m, gs) && 0 <= i < |gs|
    ensures NatGatewaysPlaceable(m, gs[..i]) && NatGatewaysPlaceable(m, gs[..i + 1])
    ensures Writable(MappedNatGateways(m, gs[..i]), gs[i].vpcId, gs[i].subnetId) && |gs[i].addresses| > 0
    ensures MappedNatGateways(m, gs[..i + 1]) == NatGatewayStep(MappedNatGateways(m, gs[..i]), gs[i])
  {
    NatGatewaysPrefix(m, gs, i);
    var q := MappedNatGateways(m, gs[..i]);
    assert gs[..i + 1][..i] == gs[..i];
    assert gs[..i + 1][i] == gs[i];
    SameLayoutWritable(q, m);
  }

  lemma NatGatewaysPrefix(m: Vpcs, gs: seq<RawNatGateway>, i: int)
    requires NatGatewaysPlaceable(m, gs) && 0 <= i < |gs|
    ensures NatGatewaysPlaceable(m, gs[..i]) && NatGatewaysPlaceable(m, gs[..i + 1])
    ensures Writable(m, gs[i].vpcId, gs[i].subnetId) && |gs[i].addresses| > 0
  {
    assert gs[i] in gs;
    forall y | y in gs[..i + 1] ensures y in gs { }
    forall y | y in gs[..i] ensures y in gs { }
  }

  /** The gateways the list gives subnet `s` of VPC `v`, whatever their state. */
  function NatGatewaysFor(gs: seq<RawNatGateway>, v: string, s: string): map<string, NatGateway>
    requires Addressed(gs)
  {
    if |gs| == 0 then map[]
    else
      var g := gs[|gs| - 1];
      assert g in gs;
      assert Addressed(gs[..|gs| - 1]) by {
        forall y | y in gs[..|gs| - 1] ensures y in gs { }
      }
      NatGatewaysFor(gs[..|gs| - 1], v, s) + NatGatewayAdded(g, v, s)
  }

  /** What a gateway record adds to subnet `s` of VPC `v`. */
  function NatGatewayAdded(g: RawNatGateway, v: string, s: string): map<string, NatGateway>
    requires |g.addresses| > 0
  {
    if g.vpcId == v && g.subnetId == s then map[g.natGatewayId := NewNatGateway(g)] else map[]
  }

  lemma NatGatewayStepAt(m: Vpcs, g: RawNatGateway, v: string, s: string)
    requires Writable(m, g.vpcId, g.subnetId) && |g.addresses| > 0
    requires v in m && s in m[v].subnets
    ensures NatGatewayStep(m, g)[v].(subnets := m[v].subnets) == m[v]
    ensures NatGatewayStep(m, g)[v].subnets[s] ==
      m[v].subnets[s].(natGateways := m[v].subnets[s].natGateways + NatGatewayAdded(g, v, s))
  {
    var gws := m[v].subnets[s].natGateways;
    var sub := m[g.vpcId].subnets[g.subnetId];
    WithSubnetAt(m, g.vpcId, g.subnetId, sub.(natGateways := sub.natGateways[g.natGatewayId := NewNatGateway(g)]), v, s);
    if g.vpcId == v && g.subnetId == s {
      Model.PlusUpdate(gws, map[], g.natGatewayId, NewNatGateway(g));
      assert gws + NatGatewayAdded(g, v, s) == gws[g.natGatewayId := NewNatGateway(g)];
    } else {
      Model.PlusEmpty(gws, map[]);
      assert gws + NatGatewayAdded(g, v, s) == gws;
    }
  }

  /** mapNatGateways adds to each subnet exactly the gateways listed for it, over whatever it had. */
  lemma {:induction false} MappedNatGatewaysAt(m: Vpcs, gs: seq<RawNatGateway>, v: string, s: string)
    requires NatGatewaysPlaceable(m, gs) && v in m && s in m[v].subnets
    ensures Addressed(gs)
    ensures MappedNatGateways(m, gs)[v].(subnets := m[v].subnets) == m[v]
    ensures MappedNatGateways(m, gs)[v].subnets[s] ==
      m[v].subnets[s].(natGateways := m[v].subnets[s].natGateways + NatGatewaysFor(gs, v, s))
  {
    if |gs| > 0 {
      NatGatewaysInit(m, gs);
      var p := gs[..|gs| - 1];
      var q := MappedNatGateways(m, p);
      MappedNatGatewaysAt(m, p, v, s);
      SameLayoutWritable(q, m);
      NatGatewayStepAt(q, gs[|gs| - 1], v, s);
      PlusAssoc(m[v].subnets[s].natGateways, NatGatewaysFor(p, v, s), NatGatewayAdded(gs[|gs| - 1], v, s));
    }
  }

  /** A gateway id is listed for a subnet iff some gateway of that subnet has it, and its entry is built from such a gateway. */
  lemma {:induction false} NatGatewaysForMembers(gs: seq<RawNatGateway>, v: string, s: string, k: string)
    requires Addressed(gs)
    ensures k in NatGatewaysFor(gs, v, s) <==> exists g :: g in gs && g.vpcId == v && g.subnetId == s && g.natGatewayId == k
    ensures k in NatGatewaysFor(gs, v, s) ==>
      exists g :: g in gs && g.vpcId == v && g.subnetId == s && g.natGatewayId == k && NatGatewaysFor(gs, v, s)[k] == NewNatGateway(g)
  {
    if |gs| > 0 {
      var p := gs[..|gs| - 1];
      var g := gs[|gs| - 1];
      assert forall y :: y in p ==> y in gs;
      assert forall y :: y in gs ==> y in p || y == g;
      NatGatewaysForMembers(p, v, s, k);
    }
  }

  /**
   * Against the current mapNatGateways: a gateway in state "deleted", with
   * no other gateway of the same id in its subnet and none there before, is
   * filed by the older pass and never by the current one.
   */
  lemma DeletedNatGatewayFiled(m: Vpcs, cm: Model.Vpcs, gs: seq<RawNatGateway>, g: RawNatGateway)
    requires NatGatewaysPlaceable(m, gs) && MapBase.NatGatewaysPlaceable(cm, gs)
    requires g in gs && g.state == "deleted"
    requires forall h :: h in gs && h.vpcId == g.vpcId && h.subnetId == g.subnetId && h.natGatewayId == g.natGatewayId ==> h == g
    requires g.vpcId in cm && g.subnetId in cm[g.vpcId].subnets
    requires g.natGatewayId !in cm[g.vpcId].subnets[g.subnetId].natGateways
    ensures g.natGatewayId in MappedNatGateways(m, gs)[g.vpcId].subnets[g.subnetId].natGateways
    ensures g.natGatewayId !in MapBase.MappedNatGateways(cm, gs)[g.vpcId].subnets[g.subnetId].natGateways
  {
    MappedNatGatewaysAt(m, gs, g.vpcId, g.subnetId);
    NatGatewaysForMembers(gs, g.vpcId, g.subnetId, g.natGatewayId);
    if g.natGatewayId in MapBase.MappedNatGateways(cm, gs)[g.vpcId].subnets[g.subnetId].natGateways {
      MapBase.MappedNatGatewaysOrigin(cm, gs, g.vpcId, g.subnetId, g.natGatewayId);
    }
  }
}
