/**
 * The raw EC2 and STS records the topology builder reads, as the AWS SDK
 * returns them. Only the fields some pass reads are kept. An absent SDK
 * string pointer is the empty string (the SDK's aws.StringValue turns nil
 * into ""), an absent bool pointer is false, an absent slice is [].
 */
module Ec2 {
  import opened Wrappers

  datatype Tag = Tag(key: string, value: string)

  datatype Ipv6Association = Ipv6Association(ipv6CidrBlock: string, state: string)

  datatype RawVpc = RawVpc(
    vpcId: string,
    isDefault: bool,
    cidrBlock: string,
    ipv6Associations: seq<Ipv6Association>,
    tags: seq<Tag>)

  datatype RawSubnet = RawSubnet(
    vpcId: string,
    subnetId: string,
    cidrBlock: string,
    availabilityZone: string,
    availabilityZoneId: string,
    mapCustomerOwnedIpOnLaunch: bool,
    mapPublicIpOnLaunch: bool,
    tags: seq<Tag>)

  /** An EBS block-device mapping of an instance (read only by the older snapshot). */
  datatype BlockDevice = BlockDevice(deviceName: string, volumeId: string)

  /** An instance's own view of one of its interfaces (read only by the older snapshot). */
  datatype InstanceNic = InstanceNic(
    networkInterfaceId: string,
    privateIpAddress: string,
    macAddress: string,
    privateDnsName: string)

  datatype RawInstance = RawInstance(
    instanceId: string,
    instanceType: string,
    vpcId: string,
    subnetId: string,
    stateName: string,
    publicIpAddress: string,
    privateIpAddress: string,
    tags: seq<Tag>,
    blockDevices: seq<BlockDevice>,
    networkInterfaces: seq<InstanceNic>)

  datatype Reservation = Reservation(instances: seq<RawInstance>)

  datatype RawInstanceStatus = RawInstanceStatus(
    instanceId: string,
    instanceStatus: string,
    systemStatus: string)

  datatype VolumeAttachment = VolumeAttachment(instanceId: string, device: string)

  datatype RawVolume = RawVolume(
    volumeId: string,
    size: int,
    volumeType: string,
    tags: seq<Tag>,
    attachments: seq<VolumeAttachment>)

  datatype NatAddress = NatAddress(privateIp: string, publicIp: string)

  datatype RawNatGateway = RawNatGateway(
    natGatewayId: string,
    vpcId: string,
    subnetId: string,
    state: string,
    connectivityType: string,
    addresses: seq<NatAddress>,
    tags: seq<Tag>)

  datatype Route = Route(
    destinationCidrBlock: string,
    destinationIpv6CidrBlock: string,
    carrierGatewayId: string,
    egressOnlyInternetGatewayId: string,
    gatewayId: string,
    instanceId: string,
    localGatewayId: string,
    natGatewayId: string,
    networkInterfaceId: string,
    transitGatewayId: string,
    vpcPeeringConnectionId: string,
    coreNetworkArn: string)

  datatype RouteTableAssociation = RouteTableAssociation(
    main: bool,
    state: string,
    subnetId: string)

  datatype RawRouteTable = RawRouteTable(
    routeTableId: string,
    vpcId: string,
    routes: seq<Route>,
    associations: seq<RouteTableAssociation>)

  datatype GatewayAttachment = GatewayAttachment(vpcId: string, state: string)

  datatype RawInternetGateway = RawInternetGateway(
    internetGatewayId: string,
    attachments: seq<GatewayAttachment>)

  datatype RawEgressOnlyInternetGateway = RawEgressOnlyInternetGateway(
    egressOnlyInternetGatewayId: string,
    attachments: seq<GatewayAttachment>)

  datatype RawVpnGateway = RawVpnGateway(
    vpnGatewayId: string,
    vpcAttachments: seq<GatewayAttachment>)

  datatype RawTransitGatewayVpcAttachment = RawTransitGatewayVpcAttachment(
    transitGatewayAttachmentId: string,
    transitGatewayId: string,
    vpcId: string,
    vpcOwnerId: string,
    subnetIds: seq<string>,
    tags: seq<Tag>)

  datatype RawVpcPeeringConnection = RawVpcPeeringConnection(
    vpcPeeringConnectionId: string,
    statusCode: string,
    requesterVpcId: string,
    accepterVpcId: string,
    tags: seq<Tag>)

  /**
   * A network interface. `attachment` is None when the SDK record has no
   * Attachment at all, and Some(instance id) otherwise; `publicIp` is the
   * address of its Association ("" when there is none).
   */
  datatype RawNetworkInterface = RawNetworkInterface(
    networkInterfaceId: string,
    interfaceType: string,
    privateIpAddress: string,
    macAddress: string,
    publicIp: string,
    description: string,
    vpcId: string,
    subnetId: string,
    attachment: Option<string>,
    tags: seq<Tag>)

  datatype RawVpcEndpoint = RawVpcEndpoint(
    vpcEndpointId: string,
    vpcEndpointType: string,
    vpcId: string,
    serviceName: string,
    subnetIds: seq<string>,
    routeTableIds: seq<string>,
    networkInterfaceIds: seq<string>,
    tags: seq<Tag>)

  datatype RawSecurityGroup = RawSecurityGroup(groupId: string, groupName: string, description: string)
}
