/**
 * The nested topology the mapping passes build: VPC -> Subnet ->
 * {Instance -> {Volumes, Interfaces}, NAT gateways, TGW attachments, ENIs,
 * interface endpoints -> Interfaces, gateway endpoints}, every level keyed
 * by its AWS id, plus the key-ordered ("sorted") form the sort stage emits.
 *
 * Go's maps are reference values; here every map is a Dafny `map` that a
 * pass replaces. The raw SDK pointers the Go structs carry are dropped,
 * except the raw endpoint whose NetworkInterfaceIds a later pass reads.
 *
 * `stub` marks the zero value Go stores back when a read-modify-write
 * reads a key that is missing: its nested maps are nil, so a later write
 * into one of them panics.
 */
module Model {
  import opened Wrappers
  import opened Ec2

  datatype VpcData = VpcData(
    id: string,
    cidrBlock: string,
    ipv6CidrBlock: string,
    name: string,
    isDefault: bool)

  datatype RouteTable = RouteTable(id: string, defaultRoute: string)

  datatype SubnetData = SubnetData(
    routeTable: Option<RouteTable>,
    id: string,
    cidrBlock: string,
    availabilityZone: string,
    availabilityZoneId: string,
    name: string,
    public: bool)

  datatype InstanceData = InstanceData(
    id: string,
    instanceType: string,
    subnetId: string,
    vpcId: string,
    state: string,
    publicIp: string,
    privateIp: string,
    name: string,
    instanceStatus: string,
    systemStatus: string)

  datatype Volume = Volume(
    id: string,
    deviceName: string,
    volumeType: string,
    name: string,
    encrypted: bool,
    kmsKeyId: string,
    size: int)

  datatype IpRange = IpRange(cidrIp: string, description: string)

  datatype Ipv6Range = Ipv6Range(cidrIpv6: string, description: string)

  datatype SecurityGroupRule = SecurityGroupRule(
    ipProtocol: string,
    ipRanges: seq<IpRange>,
    ipv6Ranges: seq<Ipv6Range>,
    fromPort: int,
    toPort: int)

  datatype SecurityGroup = SecurityGroup(
    description: string,
    groupId: string,
    groupName: string,
    tagName: string,
    ipPermissions: seq<SecurityGroupRule>,
    ipPermissionsEgress: seq<SecurityGroupRule>)

  datatype NetworkInterfaceData = NetworkInterfaceData(
    id: string,
    privateIp: string,
    mac: string,
    dns: string,
    interfaceType: string,
    description: string,
    publicIp: string,
    name: string,
    subnetId: string)

  datatype NetworkInterface = NetworkInterface(
    data: NetworkInterfaceData,
    groups: map<string, SecurityGroup>)

  datatype Instance = Instance(
    data: InstanceData,
    volumes: map<string, Volume>,
    interfaces: map<string, NetworkInterface>)

  datatype NatGatewayData = NatGatewayData(
    id: string,
    privateIp: string,
    publicIp: string,
    state: string,
    natType: string,
    name: string)

  datatype NatGateway = NatGateway(
    data: NatGatewayData,
    interfaces: map<string, NetworkInterface>)

  datatype TgwAttachment = TgwAttachment(
    attachmentId: string,
    transitGatewayId: string,
    name: string)

  datatype VpcPeer = VpcPeer(
    id: string,
    requester: string,
    accepter: string,
    name: string)

  datatype InterfaceEndpointData = InterfaceEndpointData(
    raw: RawVpcEndpoint,
    id: string,
    serviceName: string,
    name: string)

  datatype InterfaceEndpoint = InterfaceEndpoint(
    data: InterfaceEndpointData,
    interfaces: map<string, NetworkInterface>)

  datatype GatewayEndpoint = GatewayEndpoint(
    id: string,
    serviceName: string,
    name: string)

  datatype Subnet = Subnet(
    data: SubnetData,
    instances: map<string, Instance>,
    natGateways: map<string, NatGateway>,
    tgws: map<string, TgwAttachment>,
    enis: map<string, NetworkInterface>,
    interfaceEndpoints: map<string, InterfaceEndpoint>,
    gatewayEndpoints: map<string, GatewayEndpoint>,
    stub: bool)

  datatype Vpc = Vpc(
    data: VpcData,
    subnets: map<string, Subnet>,
    peers: map<string, VpcPeer>,
    gateways: seq<string>,
    stub: bool)

  type Vpcs = map<string, Vpc>

  datatype RegionData = RegionData(vpcs: Vpcs)

  // The key-ordered forms the sort stage produces.

  datatype NetworkInterfaceSorted = NetworkInterfaceSorted(
    data: NetworkInterfaceData,
    groups: seq<SecurityGroup>)

  datatype InstanceSorted = InstanceSorted(
    data: InstanceData,
    volumes: seq<Volume>,
    interfaces: seq<NetworkInterfaceSorted>)

  datatype InterfaceEndpointSorted = InterfaceEndpointSorted(
    data: InterfaceEndpointData,
    interfaces: seq<NetworkInterfaceSorted>)

  datatype NatGatewaySorted = NatGatewaySorted(
    data: NatGatewayData,
    interfaces: seq<NetworkInterfaceSorted>)

  datatype SubnetSorted = SubnetSorted(
    data: SubnetData,
    instances: seq<InstanceSorted>,
    natGateways: seq<NatGateway>,
    tgws: seq<TgwAttachment>,
    enis: seq<NetworkInterface>,
    interfaceEndpoints: seq<InterfaceEndpointSorted>,
    gatewayEndpoints: seq<GatewayEndpoint>)

  datatype VpcSorted = VpcSorted(
    data: VpcData,
    gateways: seq<string>,
    subnets: seq<SubnetSorted>,
    peers: seq<VpcPeer>)

  datatype RegionDataSorted = RegionDataSorted(region: string, vpcs: seq<VpcSorted>)

  // Zero values: what a Go map read of a missing key yields.

  const StubSubnet := Subnet(SubnetData(None, "", "", "", "", "", false), map[], map[], map[], map[], map[], map[], true)

  const StubVpc := Vpc(VpcData("", "", "", "", false), map[], map[], [], true)

  /** A VPC whose Subnets and Peers maps exist (they are nil in a stub). */
  predicate VpcWritable(vpcs: Vpcs, vid: string)
  {
    vid in vpcs && !vpcs[vid].stub
  }

  /** `vpcs[vid].Subnets[sid].<collection>[k] = v` does not panic. */
  predicate Writable(vpcs: Vpcs, vid: string, sid: string)
  {
    vid in vpcs && sid in vpcs[vid].subnets && !vpcs[vid].subnets[sid].stub
  }

  /** Two maps with the same VPC keys and the same stub flags. */
  predicate SameVpcs(a: Vpcs, b: Vpcs)
  {
    a.Keys == b.Keys && forall v :: v in a ==> a[v].stub == b[v].stub
  }

  /** As SameVpcs, and also the same subnet keys and subnet stub flags. */
  predicate SameLayout(a: Vpcs, b: Vpcs)
  {
    SameVpcs(a, b) &&
    forall v :: v in a ==>
      && a[v].subnets.Keys == b[v].subnets.Keys
      && forall s :: s in a[v].subnets ==> a[v].subnets[s].stub == b[v].subnets[s].stub
  }

  lemma SameLayoutWritable(a: Vpcs, b: Vpcs)
    requires SameLayout(a, b)
    ensures forall v, s :: Writable(a, v, s) <==> Writable(b, v, s)
    ensures forall v :: VpcWritable(a, v) <==> VpcWritable(b, v)
  {
  }

  lemma SameLayoutWritableAt(a: Vpcs, b: Vpcs, v: string, s: string)
    requires SameLayout(a, b)
    ensures Writable(a, v, s) <==> Writable(b, v, s)
  {
  }

  /** `vpcs` with the subnet at (vid, sid) replaced; the VPC must be present. */
  function WithSubnet(vpcs: Vpcs, vid: string, sid: string, s: Subnet): (r: Vpcs)
    requires vid in vpcs
    ensures r.Keys == vpcs.Keys
    ensures r[vid].subnets == vpcs[vid].subnets[sid := s]
    ensures r[vid].data == vpcs[vid].data && r[vid].peers == vpcs[vid].peers
    ensures r[vid].gateways == vpcs[vid].gateways && r[vid].stub == vpcs[vid].stub
    ensures forall v :: v in vpcs && v != vid ==> r[v] == vpcs[v]
  {
    vpcs[vid := vpcs[vid].(subnets := vpcs[vid].subnets[sid := s])]
  }

  /** Replacing an existing subnet by one with the same stub flag keeps the layout. */
  lemma WithSubnetLayout(vpcs: Vpcs, vid: string, sid: string, s: Subnet)
    requires vid in vpcs && sid in vpcs[vid].subnets && s.stub == vpcs[vid].subnets[sid].stub
    ensures SameLayout(WithSubnet(vpcs, vid, sid, s), vpcs)
  {
  }

  /** Replacing a VPC by one with the same stub flags and subnet keys keeps the layout. */
  lemma WithVpcLayout(vpcs: Vpcs, vid: string, v: Vpc)
    requires vid in vpcs && v.stub == vpcs[vid].stub && v.subnets.Keys == vpcs[vid].subnets.Keys
    requires forall s :: s in v.subnets ==> v.subnets[s].stub == vpcs[vid].subnets[s].stub
    ensures SameLayout(vpcs[vid := v], vpcs)
  {
  }

  lemma SameLayoutTransitive(a: Vpcs, b: Vpcs, c: Vpcs)
    requires SameLayout(a, b) && SameLayout(b, c)
    ensures SameLayout(a, c)
  {
  }

  lemma WithSubnetHas(vpcs: Vpcs, vid: string, sid: string, s: Subnet, v: string, k: string)
    requires vid in vpcs && v in vpcs
    ensures k in WithSubnet(vpcs, vid, sid, s)[v].subnets <==> k in vpcs[v].subnets || (v == vid && k == sid)
  {
  }

  /**
   * `f` applied to every instance, under its key, in every subnet of every
   * VPC: the effect of a Go range over the whole topology that rewrites
   * instances in place and adds no key.
   */
  function EveryInstance(m: Vpcs, f: (string, Instance) -> Instance): (r: Vpcs)
    ensures SameLayout(r, m)
  {
    map v | v in m :: m[v].(subnets := map s | s in m[v].subnets ::
      m[v].subnets[s].(instances := map k | k in m[v].subnets[s].instances :: f(k, m[v].subnets[s].instances[k])))
  }

  lemma EveryInstanceAt(m: Vpcs, f: (string, Instance) -> Instance, v: string, s: string)
    requires v in m && s in m[v].subnets
    ensures EveryInstance(m, f)[v].data == m[v].data && EveryInstance(m, f)[v].peers == m[v].peers
    ensures EveryInstance(m, f)[v].gateways == m[v].gateways
    ensures EveryInstance(m, f)[v].subnets[s] == m[v].subnets[s].(instances := EveryInstance(m, f)[v].subnets[s].instances)
    ensures EveryInstance(m, f)[v].subnets[s].instances.Keys == m[v].subnets[s].instances.Keys
    ensures forall k :: k in m[v].subnets[s].instances ==>
      EveryInstance(m, f)[v].subnets[s].instances[k] == f(k, m[v].subnets[s].instances[k])
  {
  }

  /** Adding `a` over `b` then one more entry is updating `a + b`. */
  lemma PlusUpdate<V>(a: map<string, V>, b: map<string, V>, k: string, x: V)
    ensures a + (b + map[k := x]) == (a + b)[k := x]
  {
  }

  lemma PlusEmpty<V>(a: map<string, V>, b: map<string, V>)
    ensures a + (b + map[]) == a + b
  {
  }

  /** What a replacement at (vid, sid) leaves at (v, s). */
  lemma WithSubnetAt(vpcs: Vpcs, vid: string, sid: string, x: Subnet, v: string, s: string)
    requires vid in vpcs && v in vpcs && s in vpcs[v].subnets
    ensures WithSubnet(vpcs, vid, sid, x)[v].(subnets := vpcs[v].subnets) == vpcs[v]
    ensures WithSubnet(vpcs, vid, sid, x)[v].subnets[s] == if v == vid && s == sid then x else vpcs[v].subnets[s]
  {
  }
}
