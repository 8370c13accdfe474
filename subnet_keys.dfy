/**
 * mappings.go: mapSubnets stores every subnet under its own id, and the
 * passes after it keep each subnet's data id. The one exception is the
 * zero-valued subnet that mapRouteTables stores, with an empty id, for an
 * explicit association naming a subnet the VPC does not list; so up to
 * mapVpcEndpoints every subnet is stored under its own id or has none.
 */
module SubnetKeys {
  import opened Ec2
  import opened Model
  import opened MapBase
  import opened MapRoutes
  import opened MapEndpoints

  /** A subnet stored under key `s` carries `s` as its id, or no id at all. */
  predicate KeyedAt(x: Subnet, s: string)
  {
    x.data.id == s || x.data.id == ""
  }

  predicate IdsKeyed(m: Vpcs)
  {
    forall v, s :: v in m && s in m[v].subnets ==> KeyedAt(m[v].subnets[s], s)
  }

  /** `b` has the layout of `a` and every subnet keeps its id. */
  predicate SameIds(a: Vpcs, b: Vpcs)
  {
    SameLayout(a, b) &&
    forall v, s :: v in a && s in a[v].subnets ==> b[v].subnets[s].data.id == a[v].subnets[s].data.id
  }

  lemma SameIdsKeyed(a: Vpcs, b: Vpcs)
    requires SameIds(a, b) && IdsKeyed(a)
    ensures IdsKeyed(b)
  {
    forall v, s | v in b && s in b[v].subnets
      ensures KeyedAt(b[v].subnets[s], s)
    {
      assert KeyedAt(a[v].subnets[s], s);
    }
  }

  lemma SameIdsTransitive(a: Vpcs, b: Vpcs, c: Vpcs)
    requires SameIds(a, b) && SameIds(b, c)
    ensures SameIds(a, c)
  {
  }

  /** Each VPC's subnet data, as mapVpcEndpoints reads it, is keyed by id. */
  lemma IdsKeyedData(m: Vpcs, v: string)
    requires IdsKeyed(m) && v in m
    ensures KeyedById(SubnetDataOf(m[v]))
  {
    forall k | k in SubnetDataOf(m[v])
      ensures SubnetDataOf(m[v])[k].id == k || SubnetDataOf(m[v])[k].id == ""
    {
      assert KeyedAt(m[v].subnets[k], k);
    }
  }

  lemma WithSubnetKeyed(m: Vpcs, vid: string, sid: string, x: Subnet)
    requires vid in m && IdsKeyed(m) && KeyedAt(x, sid)
    ensures IdsKeyed(WithSubnet(m, vid, sid, x))
  {
    var r := WithSubnet(m, vid, sid, x);
    forall v, s | v in r && s in r[v].subnets
      ensures KeyedAt(r[v].subnets[s], s)
    {
      if v != vid || s != sid {
        assert KeyedAt(m[v].subnets[s], s);
      }
    }
  }

  /** mapSubnets stores each subnet under its own id. */
  lemma {:induction false} SubnetsKeyed(m: Vpcs, xs: seq<RawSubnet>)
    requires SubnetsPlaceable(m, xs) && IdsKeyed(m)
    ensures IdsKeyed(MappedSubnets(m, xs))
  {
    if |xs| > 0 {
      var p := xs[..|xs| - 1];
      var x := xs[|xs| - 1];
      assert SubnetsPlaceable(m, p);
      assert VpcWritable(m, x.vpcId);
      SubnetsKeyed(m, p);
      WithSubnetKeyed(MappedSubnets(m, p), x.vpcId, x.subnetId, NewSubnet(x));
    }
  }

  lemma InstanceStepIds(m: Vpcs, x: RawInstance)
    requires KeepsInstance(x) ==> Writable(m, x.vpcId, x.subnetId)
    ensures SameIds(m, InstanceStep(m, x))
  {
    forall v, s | v in m && s in m[v].subnets
      ensures InstanceStep(m, x)[v].subnets[s].data.id == m[v].subnets[s].data.id
    {
      InstanceStepAt(m, x, v, s);
    }
  }

  lemma {:induction false} ScannedInstancesIds(m: Vpcs, xs: seq<RawInstance>)
    requires InstancesPlaceable(m, xs)
    ensures SameIds(m, ScannedInstances(m, xs))
  {
    if |xs| > 0 {
      var p := xs[..|xs| - 1];
      InstancesInit(m, xs);
      ScannedInstancesIds(m, p);
      var q := ScannedInstances(m, p);
      SameLayoutWritable(q, m);
      InstanceStepIds(q, xs[|xs| - 1]);
      SameIdsTransitive(m, q, ScannedInstances(m, xs));
    }
  }

  /** mapInstances adds instances and leaves every subnet's data alone. */
  lemma {:induction false} MappedInstancesIds(m: Vpcs, rs: seq<Reservation>)
    requires ReservationsPlaceable(m, rs)
    ensures SameIds(m, MappedInstances(m, rs))
  {
    if |rs| > 0 {
      var p := rs[..|rs| - 1];
      assert ReservationsPlaceable(m, p);
      MappedInstancesIds(m, p);
      var q := MappedInstances(m, p);
      InstancesPlaceableLayout(m, q, rs[|rs| - 1].instances);
      ScannedInstancesIds(q, rs[|rs| - 1].instances);
      SameIdsTransitive(m, q, MappedInstances(m, rs));
    }
  }

  /** mapInstanceStatuses changes instances only. */
  lemma StatusesIds(m: Vpcs, sts: seq<RawInstanceStatus>)
    ensures SameIds(m, MappedStatuses(m, sts))
  {
    forall v, s | v in m && s in m[v].subnets
      ensures MappedStatuses(m, sts)[v].subnets[s].data.id == m[v].subnets[s].data.id
    {
      MappedStatusesFrame(m, sts, v, s);
    }
  }

  /** mapVolumes changes instances only. */
  lemma VolumesIds(m: Vpcs, vols: seq<RawVolume>)
    ensures SameIds(m, MappedVolumes(m, vols))
  {
    forall v, s | v in m && s in m[v].subnets
      ensures MappedVolumes(m, vols)[v].subnets[s].data.id == m[v].subnets[s].data.id
    {
      MappedVolumesFrame(m, vols, v, s);
    }
  }

  lemma NatGatewayStepIds(m: Vpcs, g: RawNatGateway)
    requires KeepsNatGateway(g) ==> Writable(m, g.vpcId, g.subnetId) && |g.addresses| > 0
    ensures SameIds(m, NatGatewayStep(m, g))
  {
    forall v, s | v in m && s in m[v].subnets
      ensures NatGatewayStep(m, g)[v].subnets[s].data.id == m[v].subnets[s].data.id
    {
      NatGatewayStepAt(m, g, v, s);
    }
  }

  /** mapNatGateways adds NAT gateways and leaves every subnet's data alone. */
  lemma {:induction false} NatGatewaysIds(m: Vpcs, gs: seq<RawNatGateway>)
    requires NatGatewaysPlaceable(m, gs)
    ensures SameIds(m, MappedNatGateways(m, gs))
  {
    if |gs| > 0 {
      NatGatewaysInit(m, gs);
      var p := gs[..|gs| - 1];
      NatGatewaysIds(m, p);
      var q := MappedNatGateways(m, p);
      SameLayoutWritable(q, m);
      NatGatewayStepIds(q, gs[|gs| - 1]);
      SameIdsTransitive(m, q, MappedNatGateways(m, gs));
    }
  }

  /**
   * mapRouteTables only sets route tables; a subnet it adds is the zero
   * value, whose id is empty.
   */
  lemma RouteTablesKeyed(m: Vpcs, rts: seq<RawRouteTable>)
    requires RouteTablesPlaceable(m, rts) && IdsKeyed(m)
    ensures IdsKeyed(MappedRouteTables(m, rts))
  {
    var r := MappedRouteTables(m, rts);
    forall v, s | v in r && s in r[v].subnets
      ensures KeyedAt(r[v].subnets[s], s)
    {
      RouteTablesFrame(m, rts, v, s);
      var a := SubnetOrStub(m[v], s);
      assert SubnetOrStub(r[v], s) == r[v].subnets[s];
      assert r[v].subnets[s].data.id == a.data.id;
      if s in m[v].subnets {
        assert KeyedAt(m[v].subnets[s], s);
      }
    }
  }
}
