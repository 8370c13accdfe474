/**
 * The topology of the older snapshot (cmd/vpc-ls.go): the same nesting,
 * VPC -> Subnet -> {EC2s, NatGateways, TGWs, ENIs, InterfaceEndpoints},
 * with the older records. An instance carries the volumes of its block
 * devices and the interfaces it reports itself, as a list; no record has
 * a name yet.
 *
 * The older Subnet also declares a GatewayEndpoints map, but no pass ever
 * makes it, so it is always nil and the one write into it panics; the
 * model has no such field, and the endpoint pass requires that the write
 * is never reached.
 *
 * As in the current topology, `stub` marks the zero value a
 * read-modify-write stores back for a missing key, whose maps are nil.
 */
module LegacyModel {
  import opened Wrappers

  datatype RouteTable = RouteTable(id: string, defaultRoute: string)

  /** A volume as the block-device loop records it: only id and device name. */
  datatype Volume = Volume(id: string, deviceName: string)

  /** One interface in an instance's own report. */
  datatype InstanceInterface = InstanceInterface(id: string, privateIp: string, mac: string, dns: string)

  /** The EC2 struct. */
  datatype Instance = Instance(
    id: string,
    instanceType: string,
    subnetId: string,
    vpcId: string,
    state: string,
    publicIp: string,
    privateIp: string,
    volumes: map<string, Volume>,
    interfaces: seq<InstanceInterface>)

  datatype NetworkInterface = NetworkInterface(
    id: string,
    privateIp: string,
    mac: string,
    interfaceType: string,
    description: string,
    publicIp: string)

  datatype NatGateway = NatGateway(id: string, privateIp: string, publicIp: string, state: string, natType: string)

  datatype TgwAttachment = TgwAttachment(attachmentId: string, transitGatewayId: string)

  datatype VpcPeer = VpcPeer(id: string, requester: string, accepter: string)

  datatype InterfaceEndpoint = InterfaceEndpoint(id: string, serviceName: string)

  datatype Subnet = Subnet(
    id: string,
    cidrBlock: string,
    availabilityZone: string,
    availabilityZoneId: string,
    public: bool,
    routeTable: Option<RouteTable>,
    ec2s: map<string, Instance>,
    natGateways: map<string, NatGateway>,
    tgws: map<string, TgwAttachment>,
    enis: map<string, NetworkInterface>,
    interfaceEndpoints: map<string, InterfaceEndpoint>,
    stub: bool)

  datatype Vpc = Vpc(
    id: string,
    isDefault: bool,
    cidrBlock: string,
    ipv6CidrBlock: string,
    gateways: seq<string>,
    subnets: map<string, Subnet>,
    peers: map<string, VpcPeer>,
    stub: bool)

  type Vpcs = map<string, Vpc>

  const StubSubnet := Subnet("", "", "", "", false, None, map[], map[], map[], map[], map[], true)

  const StubVpc := Vpc("", false, "", "", [], map[], map[], true)

  predicate VpcWritable(vpcs: Vpcs, vid: string)
  {
    vid in vpcs && !vpcs[vid].stub
  }

  /** `vpcs[vid].Subnets[sid].<collection>[k] = v` does not panic. */
  predicate Writable(vpcs: Vpcs, vid: string, sid: string)
  {
    vid in vpcs && sid in vpcs[vid].subnets && !vpcs[vid].subnets[sid].stub
  }

  predicate SameVpcs(a: Vpcs, b: Vpcs)
  {
    a.Keys == b.Keys && forall v :: v in a ==> a[v].stub == b[v].stub
  }

  /** The same VPC and subnet keys with the same stub flags. */
  predicate SameLayout(a: Vpcs, b: Vpcs)
  {
    SameVpcs(a, b) &&
    forall v :: v in a ==>
      && a[v].subnets.Keys == b[v].subnets.Keys
      && forall s :: s in a[v].subnets ==> a[v].subnets[s].stub == b[v].subnets[s].stub
  }

  lemma SameLayoutWritable(a: Vpcs, b: Vpcs)
    requires SameLayout(a, b)
    ensures forall v, s :: Writable(a, v, s) <==> Writable(b, v, s)
    ensures forall v :: VpcWritable(a, v) <==> VpcWritable(b, v)
  {
  }

  lemma SameLayoutTransitive(a: Vpcs, b: Vpcs, c: Vpcs)
    requires SameLayout(a, b) && SameLayout(b, c)
    ensures SameLayout(a, c)
  {
  }

  /** `vpcs` with the subnet at (vid, sid) replaced; the VPC must be present. */
  function WithSubnet(vpcs: Vpcs, vid: string, sid: string, s: Subnet): (r: Vpcs)
    requires vid in vpcs
    ensures r.Keys == vpcs.Keys
    ensures r[vid].subnets == vpcs[vid].subnets[sid := s]
    ensures r[vid].(subnets := vpcs[vid].subnets) == vpcs[vid]
    ensures forall v :: v in vpcs && v != vid ==> r[v] == vpcs[v]
  {
    vpcs[vid := vpcs[vid].(subnets := vpcs[vid].subnets[sid := s])]
  }

  /** What a replacement at (vid, sid) leaves at (v, s). */
  lemma WithSubnetAt(vpcs: Vpcs, vid: string, sid: string, x: Subnet, v: string, s: string)
    requires vid in vpcs && v in vpcs && s in vpcs[v].subnets
    ensures WithSubnet(vpcs, vid, sid, x)[v].(subnets := vpcs[v].subnets) == vpcs[v]
    ensures WithSubnet(vpcs, vid, sid, x)[v].subnets[s] == if v == vid && s == sid then x else vpcs[v].subnets[s]
  {
  }

  /** Merging maps is associative, so a pass's additions can be collected per subnet. */
  lemma PlusAssoc<V>(a: map<string, V>, b: map<string, V>, c: map<string, V>)
    ensures (a + b) + c == a + (b + c)
  {
  }

  lemma PlusOne<V>(a: map<string, V>, k: string, x: V)
    ensures a + map[k := x] == a[k := x]
  {
  }

  lemma PlusNone<V>(a: map<string, V>)
    ensures a + map[] == a
  {
  }

  /** Replacing a written subnet by one with the same stub flag keeps the layout. */
  lemma WithSubnetLayout(vpcs: Vpcs, vid: string, sid: string, s: Subnet)
    requires vid in vpcs && sid in vpcs[vid].subnets && s.stub == vpcs[vid].subnets[sid].stub
    ensures SameLayout(WithSubnet(vpcs, vid, sid, s), vpcs)
  {
  }
}
