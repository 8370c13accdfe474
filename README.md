# lsvpc topology builder, in Dafny

lsvpc lists the networking of an AWS account as a tree, per region:
VPCs, then subnets, then the instances, NAT gateways, transit-gateway
attachments, network interfaces and endpoints inside each subnet. Its
core is the **topology builder**. It takes the flat EC2 collections the
fetch layer returns and folds them, pass by pass, into one nested map
keyed by id: VPC -> Subnet -> {Instance -> {Volumes, Interfaces},
NatGateways, TGWs, ENIs, InterfaceEndpoints -> Interfaces,
GatewayEndpoints}.

This project models that core and proves what each pass does. It covers:

- **Mapping passes** (`mappings.go`). Each pass is a method whose loops
  follow the Go loops. Each is proved equal to a specification function
  of its inputs. Lemmas say what the function means: which records reach
  which subnet, which filters apply, what is left unchanged.
- **Pass order** (`main.go`, populateVPC). The error check, fourteen
  passes in their fixed order, and lemmas on why route tables must come
  before endpoints, and endpoints before interfaces.
- **Region helpers** (`main.go`): the getRegionData merge, validateRegion
  and the dispatch precedence of main.
- **Sort stage** (`sorting.go`). Every map becomes the sequence of its
  values in ascending key order. `sort.Strings` is modelled by an insertion
  sort. `SortStringsCanonical` and `SortedUnique` show that any sorted
  permutation equals it, so the choice of algorithm does not matter.
- **Fetch error selection** (`awsfetch/awsfetch.go`): a fail-first choice
  among sixteen error fields, and what GetAll returns.
- **Display helpers** (`display.go`): formatName, indent, the labels
  computed by printRules, the health count, and the HideIP redaction.
- **Two older snapshots**, `sort.go` and `cmd/vpc-ls.go`. They are the
  `Legacy*` modules, over their own older records (`LegacyModel`). Lemmas
  state how each differs from the current code.

Modelling conventions:

- Go maps are Dafny `map<string, T>`. A pass returns the new map.
- A nil string pointer, which `aws.StringValue` reads as "", is "".
- A read-modify-write on a missing key stores Go's zero value, whose maps
  are nil. That value is a record with `stub == true`. This follows the
  value maps of `mappings.go` (see "## Left out").
- A write that would panic (nested map of a missing parent, nil map of a
  stub) is a `requires` of the pass. A raw `*p` dereference of an SDK
  field is read as "", like `aws.StringValue`, so its nil panic is not
  modelled.
- A Go `range` over a map whose body only rewrites entries that already
  exist does not depend on the visiting order. It is modelled as one map
  comprehension.
- Configuration globals (`Config.Truncate`, `Config.HideIP`) are
  parameters, or are applied by separate value functions.

Module layout:

- `wrappers.dfy`: Option.
- `ec2.dfy`: the SDK records, cut down to the fields the passes read.
- `model.dfy` and `legacy_model.dfy`: the topologies.
- `map_*.dfy`: the passes of `mappings.go`.
- `subnet_keys.dfy`: how the passes of `mappings.go` key subnets by id.
- `order.dfy`: the string order and `sort.Strings`.
- `sorting.dfy` and `legacy_sort.dfy`: the sort stages.
- `pipeline.dfy`: `main.go`.
- `awsfetch.dfy` and `display.dfy`.
- `legacy_*.dfy`: the rest of `cmd/vpc-ls.go`.

## Model

| member | source | states |
|---|---|---|
| MapBase.NameTagIsLastName | mappings.go:12-20 | The name tag is the value of the last tag whose key is "Name"; it is "" when no tag has that key. |
| MapBase.GetNameTag | mappings.go:12-20 | The loop that overwrites the name returns that last "Name" value. |
| MapBase.Ipv6CidrIsLastAssociated | mappings.go:27-34 | A VPC's IPv6 CIDR is the block of its last association in state "associated"; it is "" when there is none. |
| MapBase.MapVpcs | mappings.go:22-48 | The mapVpcs loop computes the VPC fold. |
| MapBase.MappedVpcsKeys | mappings.go:22-48 | After mapVpcs the keys are the old keys plus exactly the listed VPC ids. |
| MapBase.MappedVpcsLast | mappings.go:35-46 | A listed id holds a fresh VPC (no subnets, peers or gateways) built from the last record with that id. |
| MapBase.MappedVpcsUnlisted | mappings.go:22-48 | An id that no record names keeps its old entry, or stays absent. |
| MapBase.MappedSubnets | mappings.go:50-73 | The subnet fold keeps the VPC keys. |
| MapBase.MapSubnets | mappings.go:50-73 | The loop computes the subnet fold. It requires each subnet's VPC to be present and not a stub; otherwise Go panics. |
| MapBase.MappedSubnetsHas | mappings.go:50-73 | A VPC gains exactly the subnet ids listed for it. |
| MapBase.MappedSubnetsLast | mappings.go:54-70 | A listed (VPC, subnet) pair holds an empty subnet built from its last record, with no route table. |
| MapBase.MappedSubnetsUnlisted | mappings.go:50-73 | A subnet that no record names keeps its entry. |
| MapBase.MapInstances | mappings.go:75-105 | The loops over reservations and instances compute the instance fold. Each write needs its VPC and subnet present. |
| MapBase.MapReservationInstances | mappings.go:77-103 | The inner loop processes one reservation's instances. |
| MapBase.MapInstance | mappings.go:79-101 | One instance: skipped when terminated or when its VPC, subnet or instance id is empty; otherwise written to its subnet. |
| MapBase.ScannedInstancesOrigin | mappings.go:77-103 | After one reservation, each instance either was present before or comes from a kept record of that reservation. |
| MapBase.ScannedInstancesGrow | mappings.go:77-103 | One reservation never removes an instance. |
| MapBase.ScannedInstancesCover | mappings.go:77-103 | Every kept record of one reservation ends up in its subnet. |
| MapBase.MappedInstancesOrigin | mappings.go:79-101 | An instance present after mapInstances was there before, unchanged, or comes from a record that is not terminated with non-empty VPC, subnet and instance ids. A new instance has no volumes and no interfaces. |
| MapBase.MappedInstancesCover | mappings.go:79-101 | Every kept instance of every reservation is in its subnet afterwards. |
| MapBase.MappedStatuses | mappings.go:107-124 | The status pass keeps the VPC keys. |
| MapBase.MapInstanceStatuses | mappings.go:107-124 | The loop over statuses computes the status fold. |
| MapBase.MappedStatusesFrame | mappings.go:107-124 | Only instances change: VPCs, subnets and instance keys stay, and so does everything else in a subnet. |
| MapBase.MappedStatusesKeep | mappings.go:112-119 | Apart from its two health checks, every instance is unchanged. |
| MapBase.StatusStepAt | mappings.go:109-122 | A status record sets the two checks of the instance with its id, and of no other instance. |
| MapBase.MappedStatusesLast | mappings.go:107-124 | An instance named by some status record carries the checks of the last such record. |
| MapBase.MappedStatusesUnlisted | mappings.go:107-124 | An instance that no status record names keeps its checks. |
| MapBase.MapVolumes | mappings.go:126-152 | The loop over volumes computes the volume fold. |
| MapBase.MapVolume | mappings.go:128-150 | The inner loop processes the attachments of one volume. |
| MapBase.AttachedVolumeHas | mappings.go:128-150 | An instance holds the volume afterwards iff it held it before or one of the volume's attachments names it. |
| MapBase.AttachedVolumeOrigin | mappings.go:128-150 | A volume attached afterwards was there already, or is built from an attachment that names the instance. |
| MapBase.MappedVolumesFrame | mappings.go:126-152 | mapVolumes changes nothing but the volumes of instances. |
| MapBase.MappedVolumesAt | mappings.go:126-152 | Instance k holds volume vk afterwards iff it held it before or an attachment of vk names k. A new or replaced volume is built from such an attachment. |
| MapBase.MapNatGateways | mappings.go:154-169 | The loop computes the NAT gateway fold. It requires each gateway's VPC and subnet to be present. |
| MapBase.MapNatGateway | mappings.go:155-168 | One gateway: written unless its state is "deleted". |
| MapBase.MappedNatGatewaysOrigin | mappings.go:154-169 | A gateway present afterwards was there before, unchanged, or is built from a listed gateway of that VPC and subnet that is not "deleted". |
| MapBase.MappedNatGatewaysGrow | mappings.go:154-169 | mapNatGateways never removes a gateway. |
| MapBase.MappedNatGatewaysCover | mappings.go:154-169 | Every listed gateway that is not "deleted" ends up in its subnet. |
| MapRoutes.FirstNonEmpty | mappings.go:178-207 | The first non-empty string of a list is one of its elements, and every earlier element is empty; it is "" when all are empty. |
| MapRoutes.DefaultRouteIsFirstUsable | mappings.go:171-210 | getDefaultRoute returns the target of the first route whose destination is 0.0.0.0/0 or ::/0 and that has a target; it returns "" when there is no such route. |
| MapRoutes.RouteTargetOrder | mappings.go:178-207 | A route's target is the first non-empty one of: carrier, egress-only IGW, gateway, instance, local gateway, NAT, interface, transit gateway, peering, core network. |
| MapRoutes.RouteTargetTail | mappings.go:193-207 | The take-over order of the last five targets, from the NAT gateway on. |
| MapRoutes.GetDefaultRoute | mappings.go:171-210 | The loop with early returns computes the first usable default route. |
| MapRoutes.MapRouteTables | mappings.go:212-259 | mapRouteTables runs the main pass, then the explicit pass. It requires the VPCs that tables name to be present. |
| MapRoutes.MapMainAssociations | mappings.go:222-238 | The first pass over one table's associations. |
| MapRoutes.MapMainPass | mappings.go:223-238 | The first loop, over every table, leaves the main-pass fold. |
| MapRoutes.MapMainAssociation | mappings.go:225-236 | One main association gives its table, with the table's default route, to every subnet of the table's VPC. An absent VPC is left as it is. |
| MapRoutes.MapExplicitPass | mappings.go:242-258 | The second loop, over every table, leaves the explicit-pass fold. It requires the VPC of each explicit association to be present. |
| MapRoutes.MapExplicitAssociations | mappings.go:240-258 | The second pass over one table's associations. |
| MapRoutes.MapExplicitAssociation | mappings.go:243-257 | One explicit association: its subnet takes the table; an unknown subnet is created as a zero value. |
| MapRoutes.MainPassFrame | mappings.go:222-238 | The first pass changes nothing but the route tables of subnets. |
| MapRoutes.MainPassLast | mappings.go:222-238 | After the first pass, a subnet carries the last main table of its VPC. |
| MapRoutes.MainPassNone | mappings.go:222-238 | A subnet whose VPC has no main table is left unchanged by the first pass. |
| MapRoutes.ExplicitPassFrame | mappings.go:240-258 | The second pass changes nothing but subnets' route tables, and may add subnets. |
| MapRoutes.ExplicitPassKeys | mappings.go:240-258 | The second pass adds exactly the subnets that some table is explicitly associated with. |
| MapRoutes.ExplicitPassLast | mappings.go:240-258 | After the second pass, a subnet carries the last table explicitly associated with it. |
| MapRoutes.ExplicitPassNone | mappings.go:240-258 | A subnet with no explicit association is left unchanged by the second pass. |
| MapRoutes.RouteTablesExplicitWins | mappings.go:222-258 | A subnet named by an "associated", non-main association carries the last such table and its default route, whatever the main tables are and wherever they sit in the input. |
| MapRoutes.RouteTablesMain | mappings.go:222-258 | A subnet with no explicit association carries the last main table of its VPC. |
| MapRoutes.RouteTablesUntouched | mappings.go:222-258 | A subnet that no table names, in a VPC without a main table, is left as it was. |
| MapRoutes.RouteTablesFrame | mappings.go:212-259 | Every VPC keeps everything but its subnets, and only explicitly associated subnets are added. |
| MapGateways.MapInternetGateways | mappings.go:261-271 | The loop appends the ids that the internet-gateway links aim at each VPC. |
| MapGateways.MapEgressOnlyInternetGateways | mappings.go:273-283 | The same for egress-only gateways. |
| MapGateways.MapVpnGateways | mappings.go:285-295 | The same for VPN gateways. |
| MapGateways.AppendAllAt | mappings.go:265-267 | Each VPC ends up as before (the zero VPC when it was absent) with exactly the ids aimed at it appended, in input order. A key is added only for a VPC some append aims at. |
| MapGateways.InternetGatewaysAt | mappings.go:261-271 | Internet-gateway ids are appended for every attachment with a non-empty VPC id. |
| MapGateways.EgressOnlyGatewaysAt | mappings.go:273-283 | An egress-only gateway id is appended only for attachments in state "attached". |
| MapGateways.VpnGatewaysAt | mappings.go:285-295 | A VPN gateway id is appended only for VPC attachments in state "attached". |
| MapLinks.MapTransitGatewayVpcAttachments | mappings.go:297-315 | The loop computes the TGW fold. It requires every subnet a kept attachment lists to be present. |
| MapLinks.MapAttachmentSubnets | mappings.go:302-312 | The inner loop over one attachment's subnet ids. |
| MapLinks.MapAttachmentSubnet | mappings.go:303-310 | One subnet id: a non-empty one gains the attachment. |
| MapLinks.AttachmentSubnetsAt | mappings.go:302-312 | A kept attachment writes itself into each subnet it lists in its VPC, and changes nothing else. |
| MapLinks.MappedTgwsAt | mappings.go:297-315 | Each subnet keeps everything but its TGWs, which gain exactly the attachments that reach it. |
| MapLinks.TgwsForMembers | mappings.go:300-312 | An attachment reaches a subnet exactly when its owner is the caller's account, its VPC is the subnet's VPC, and it lists the subnet. The entry is built from such a record. |
| MapLinks.MapVpcPeeringConnections | mappings.go:317-345 | The loop computes the peering fold. |
| MapLinks.PeerStepAt | mappings.go:318-344 | One connection's step, seen from a VPC: its peers gain the connection exactly when it is written there. |
| MapLinks.MappedPeersAt | mappings.go:317-345 | No VPC is added. A present VPC keeps everything but its peers, which gain exactly the active connections naming it as requester or accepter. |
| MapLinks.PeersForMembers | mappings.go:319-343 | A connection reaches a VPC only when it is "active" and names that VPC, and every such connection does. |
| MapInterfaces.DispositionOf | mappings.go:349-408 | Each interface goes to exactly one place: dropped when of type "nat_gateway"; to endpoints when "vpc_endpoint"; else to the instance named in its attachment; else to its subnet's ENIs. |
| MapInterfaces.MapNetworkInterfaces | mappings.go:347-410 | The loop computes the interface fold. It requires the subnet of every filed interface to be present. |
| MapInterfaces.MapNetworkInterface | mappings.go:348-409 | One interface, filed by its disposition. |
| MapInterfaces.MappedInterfacesFrame | mappings.go:347-410 | Every VPC keeps all but its subnets, every subnet key stays, and every subnet keeps all but its interfaces. |
| MapInterfaces.MappedEnisAt | mappings.go:406-408 | A subnet's ENIs gain exactly the interfaces filed under it. |
| MapInterfaces.MappedInstanceInterfacesAt | mappings.go:389-403 | An instance gains exactly the interfaces attached to its instance id. |
| MapInterfaces.MappedEndpointInterfacesAt | mappings.go:370-387 | An interface endpoint gains exactly the endpoint interfaces its record lists. |
| MapInterfaces.EnisForMembers | mappings.go:406-408 | Each ENI entry comes from a record filed under its subnet, and every such record has one. |
| MapInterfaces.InstanceInterfacesForMembers | mappings.go:389-403 | An instance's interface entry comes from an interface attached to it, and every such interface is there. |
| MapInterfaces.EndpointInterfacesForMembers | mappings.go:370-387 | An endpoint's interface entry comes from a "vpc_endpoint" interface whose id the endpoint lists, and every such interface is there. |
| MapEndpoints.DumpVpcIds | mappings.go:461-467 | The set built in the loop is exactly the VPC keys. |
| MapEndpoints.DumpSubnetIds | mappings.go:469-478 | The set is exactly the subnet keys of all VPCs. |
| MapEndpoints.MapVpcEndpoints | mappings.go:412-459 | The loop computes the endpoint fold and its warnings, over the VPC and subnet ids dumped up front. |
| MapEndpoints.MapEndpoint | mappings.go:418-458 | One endpoint: skipped with a warning when its VPC is unknown; otherwise filed by its type. |
| MapEndpoints.MapInterfaceEndpoint | mappings.go:424-442 | An Interface endpoint goes into its known listed subnets, with a warning for each unknown one. |
| MapEndpoints.MapGatewayEndpoint | mappings.go:444-457 | The nested loop over a Gateway endpoint's route tables and its VPC's subnets. |
| MapEndpoints.InterfaceSubnetsAt | mappings.go:424-442 | An Interface endpoint is added to the known subnets it lists in its VPC, and nothing else changes. |
| MapEndpoints.GatewayRouteTablesFrame | mappings.go:444-457 | The Gateway loop changes nothing outside subnets' gateway endpoints. |
| MapEndpoints.GatewayRouteTablesAt | mappings.go:444-457 | The Gateway loop adds the endpoint to the subnets its tables route. |
| MapEndpoints.EndpointStepAt | mappings.go:418-458 | One endpoint, seen from a subnet. |
| MapEndpoints.MappedEndpointsAt | mappings.go:412-459 | Each subnet keeps everything but its two endpoint maps, which gain exactly the endpoints that reach it. |
| MapEndpoints.InterfaceEndpointsForMembers | mappings.go:424-442 | An Interface entry comes from an endpoint of a known VPC that lists a known subnet; every such endpoint has one, with no interfaces yet. |
| MapEndpoints.GatewayEndpointsForMembers | mappings.go:444-457 | A Gateway entry comes from an endpoint of a known VPC, one of whose tables routes the subnet; every such endpoint has one. |
| MapEndpoints.RoutesToExactly | mappings.go:446-448 | When every subnet is keyed by its own id or has an empty id, a Gateway endpoint's tables route a non-empty id exactly when the subnet stored under it carries that id and uses one of the tables. They route the empty id exactly when some subnet with an empty id uses one of them. |
| MapEndpoints.GatewayEndpointsForExactly | mappings.go:444-457 | Under the same keying, a Gateway endpoint of VPC v reaches a subnet s with a non-empty id exactly when the subnet stored under s carries the id s and its route table is one of the endpoint's. |
| MapEndpoints.GatewayEndpointsForZero | mappings.go:444-457 | Under the same keying, an endpoint is filed under the empty key exactly when some subnet with an empty id uses one of its tables, because the write goes to the key held in the subnet's data. |
| MapEndpoints.InterfaceWarningsMembers | mappings.go:426-431 | An Interface endpoint warns exactly for each listed subnet id that is not known. |
| MapEndpoints.MappedWarningsMembers | mappings.go:412-459 | The pass warns exactly for each endpoint whose VPC is unknown, and for each unknown subnet an Interface endpoint lists. |
| StringOrder.LessIrreflexive | sorting.go:19 | The byte-wise string order that sort.Strings uses is irreflexive. |
| StringOrder.LessTransitive | sorting.go:19 | It is transitive. |
| StringOrder.LessTotal | sorting.go:19 | Any two distinct strings are ordered one way or the other. |
| StringOrder.LessAsymmetric | sorting.go:19 | No two strings are each below the other. |
| StringOrder.Insert | sorting.go:19 | Inserting into a sorted sequence keeps it sorted and adds exactly one element to the multiset. |
| StringOrder.SortStrings | sorting.go:19 | sort.Strings returns a sorted permutation of its input. |
| StringOrder.SortedUnique | sorting.go:19 | Two sorted sequences with the same multiset are equal. |
| StringOrder.SortStringsCanonical | sorting.go:19 | Sorting is idempotent, and the input order does not matter. |
| StringOrder.Ordered | sorting.go:13-19 | The elements of a set, in strictly ascending order: each exactly once. |
| StringOrder.OrderedIsSortedKeys | sorting.go:13-19 | Collecting the keys of a map and sorting them gives exactly Ordered of its keys, whatever order the range visits them in. |
| StringOrder.KeysOf | sorting.go:49-52 | The key-collection loop yields each key of the map exactly once. |
| StringOrder.SortedKeys | sorting.go:49-54 | Key collection followed by sort.Strings gives the keys in strictly ascending order. |
| Sorting.ValuesBy | sorting.go:56-59 | The values of a map in key order: one per key. |
| Sorting.ValuesByIs | sorting.go:56-59 | Any sequence that lists the images of a map's values in ascending key order is ValuesBy. |
| Sorting.ValuesInOrder | sorting.go:77-80 | A loop that appends the values in key order gives the map's values in ascending key order. |
| Sorting.ValuesByCover | sorting.go:48-62 | Key order is strict, so every key has exactly one position, which holds its value. |
| Sorting.ValuesByAt | sorting.go:48-62 | One element per key, in strictly ascending key order, and every key appears. |
| Sorting.SortNetworkInterface | sorting.go:246-263 | sortNetworkInterface copies the data and lists the groups in ascending key order. |
| Sorting.SortInterfaces | sorting.go:209-218 | A map of interfaces, listed in key order, each sorted. |
| Sorting.SortInstance | sorting.go:193-225 | sortInstance copies the data and lists volumes and interfaces in ascending key order. |
| Sorting.SortInterfaceEndpoint | sorting.go:227-244 | sortInterfaceEndpoint copies the data and lists its interfaces in ascending key order. |
| Sorting.SortNatGateway | sorting.go:265-282 | sortNatGateway copies the data and lists its interfaces in ascending key order. sortSubnet never calls it. |
| Sorting.SortInstances | sorting.go:104-115 | A subnet's instances, listed in key order, each sorted. |
| Sorting.SortInterfaceEndpoints | sorting.go:156-167 | A subnet's interface endpoints, listed in key order, each sorted. |
| Sorting.SortSubnet | sorting.go:103-191 | sortSubnet lists each of the six collections as the map's values in ascending key order, and copies the subnet data. |
| Sorting.SortedSubnetCopies | sorting.go:103-191 | For every subnet, the subnet data, route table included, is copied. The NAT gateway list holds each record of the map once, unchanged and with its interfaces still a map, in ascending order of gateway id. |
| Sorting.SortSubnets | sorting.go:70-80 | sortVPC's subnet loop lists the subnets in ascending key order, each in its sorted form. |
| Sorting.SortVpc | sorting.go:64-101 | sortVPC sorts the gateways in place, so the input VPC afterwards holds the returned gateway slice; subnets and peers are listed in key order. |
| Sorting.SortVpcs | sorting.go:48-62 | sortVPCs lists every VPC in key order, sorted; every VPC of the input has its gateways sorted in place. |
| Sorting.SortedVpcsAt | sorting.go:48-62 | One element per VPC key, in strictly ascending key order, each the sorted form of that VPC, and every VPC appears. |
| Sorting.SortedVpcGateways | sorting.go:66-67 | A sorted VPC's gateways are a sorted permutation of its gateway ids, and its data is copied. |
| Sorting.SortTwice | sorting.go:66-67 | Sorting the gateways is idempotent, so sorting a VPC twice gives the same gateways. |
| Sorting.SortRegionData | sorting.go:12-46 | One entry per region, in ascending name order. Each entry carries its key as its region and the sorted VPCs of that region. |
| Pipeline.PopulateVpc | main.go:67-87 | A failed fetch gives an empty map, no passes and a wrapped error. Otherwise the fourteen passes run in order on one map. |
| Pipeline.PopulatedKeys | main.go:72-85 | The result's VPCs are exactly the fetched VPC ids plus the VPCs that some gateway attachment names. |
| Pipeline.LinksKeepSubnets | main.go:79-83 | The gateway, peering and TGW passes leave a VPC's subnet data and Gateway endpoints as they were. |
| Pipeline.EndpointsThenInterfaces | main.go:84-85 | The endpoint pass adds the Gateway endpoints that reach a subnet, and the interface pass keeps them. |
| Pipeline.KeptUntilEndpoints | main.go:78-84 | No pass between mapRouteTables and mapVpcEndpoints changes a subnet's data or its Gateway endpoints. |
| Pipeline.GatewayEndpointsFollowRouteTables | main.go:78-84 | A subnet's final Gateway endpoints are those selected by the route tables of the route-table pass. |
| Pipeline.TablesKeyedById | main.go:72-78 | After mapRouteTables, every subnet is stored under its own id or has an empty id. |
| Pipeline.GatewayEndpointPlacement | main.go:78-84 | Without any keying assumption: a Gateway endpoint lands in a subnet with a non-empty id exactly when that subnet carries its key as its id and the route-table pass gave it one of the endpoint's tables. It lands under the empty key exactly when some subnet with an empty id has one of those tables. |
| SubnetKeys.SubnetsKeyed | mappings.go:50-73 | mapSubnets stores each subnet under its own id, and the keying invariant holds afterwards. |
| SubnetKeys.MappedInstancesIds | mappings.go:75-105 | mapInstances keeps the layout and the id of every subnet. |
| SubnetKeys.StatusesIds | mappings.go:107-124 | mapInstanceStatuses keeps the layout and the id of every subnet. |
| SubnetKeys.VolumesIds | mappings.go:126-152 | mapVolumes keeps the layout and the id of every subnet. |
| SubnetKeys.NatGatewaysIds | mappings.go:154-210 | mapNatGateways keeps the layout and the id of every subnet. |
| SubnetKeys.RouteTablesKeyed | mappings.go:212-258 | mapRouteTables keeps the keying invariant: it sets only route tables, and any subnet it adds is a zero value with an empty id. |
| Pipeline.GatewayEndpointsForUntabled | mappings.go:444-457 | When no subnet has a route table, no Gateway endpoint reaches any subnet. |
| Pipeline.EndpointsBeforeRouteTablesPlaceNone | main.go:73-84 | Run straight after mapSubnets, the endpoint pass would place no Gateway endpoint: this is why it follows mapRouteTables. |
| Pipeline.InterfaceEndpointsForBare | mappings.go:424-442 | Every Interface endpoint the endpoint pass creates starts with no interfaces. |
| Pipeline.InterfacesBeforeEndpointsLoseThem | main.go:84-85 | Run before the endpoint pass, the interface pass attaches nothing to endpoints, and the endpoints added later carry no interfaces: this is why endpoints come first. |
| Pipeline.GetRegionData | main.go:90-105 | A failing region leaves the map unchanged. A successful one sets exactly that region's entry. |
| Pipeline.MergeRegions | main.go:122-136 | The merged map holds exactly the regions whose population succeeded, each with its last successful result. |
| Pipeline.SucceededSnoc | main.go:90-105 | One more outcome adds its region if it succeeded. |
| Pipeline.ValidateRegion | main.go:219-230 | true exactly when the region occurs in the region list. |
| Pipeline.Dispatch | main.go:232-260 | Missing credentials exit first, then an invalid override. Then -all wins over -region, and neither means the default region. |
| AwsFetch.Errors | awsfetch/awsfetch.go:111-161 | The sixteen error fields in the order Error checks them. |
| AwsFetch.FirstFailureIsEarliest | awsfetch/awsfetch.go:111-161 | The scan from position n finds nothing exactly when nothing from n on failed; otherwise it finds the first failure. |
| AwsFetch.ErrorIsFirstFailure | awsfetch/awsfetch.go:111-161 | Error agrees with a front-to-back scan of the sixteen fields. |
| AwsFetch.ErrorIsEarliest | awsfetch/awsfetch.go:111-161 | Error is nil exactly when every field is nil, and otherwise the earliest non-nil one. |
| AwsFetch.IdentityFirst | awsfetch/awsfetch.go:112-114 | An Identity error is reported whatever else failed. |
| AwsFetch.EndpointsLast | awsfetch/awsfetch.go:157-160 | A VPC-endpoint error, the last one checked, is reported when nothing else failed. |
| AwsFetch.GetAll | awsfetch/awsfetch.go:92-108 | GetAll returns the whole collected record together with the first error in priority order, so the other results come back as well. |
| Display.Indent | display.go:20-28 | indent(n) is n+1 spaces for n >= 0, and "" for n < 0. |
| Display.FormatName | display.go:49-63 | "" iff the name is ""; otherwise " [" + shown + "]". shown is the name unless truncation is on and the name has more than 20 runes; then it is the first 16 runes plus "...". |
| Display.TruncatedNameShape | display.go:55-59 | A truncated name is 19 runes long and starts with the first 16 runes of the name. |
| Display.DigitsRoundTrip | display.go:375-380 | The decimal digits of a port are non-empty, have no leading zero, and read back as the port. |
| Display.DecimalRoundTrip | display.go:375-380 | %v of an integer reads back as the integer. |
| Display.DecimalInjective | display.go:375-380 | Distinct ports never print alike. |
| Display.RuleLabelOf | display.go:375-396 | The port range is "from-to", or one number when the two are equal. Protocol "-1" is "all" with an empty range. icmp/icmpv6 with a -1 port has range "all". The direction is "inbound" for ingress, else "outbound". |
| Display.HealthCount | display.go:258-266 | The number of the two status checks that equal "ok": 2 iff both do, 0 iff neither does. |
| Display.HiddenVpc | display.go:92-97 | Under HideIP the IPv4 CIDR is always hidden, the IPv6 CIDR only when present, and nothing else changes. |
| Display.HiddenSubnet | display.go:145-147 | Under HideIP the subnet CIDR is hidden, and nothing else changes. |
| Display.HiddenInterface | display.go:224-232 | Under HideIP, MAC and both addresses are always hidden, DNS only when present, and nothing else changes. |
| Display.HiddenInstance | display.go:269-272 | Under HideIP both instance addresses are hidden, and nothing else changes. |
| Display.HiddenNatGateway | display.go:332-335 | Under HideIP both NAT gateway addresses are hidden, and nothing else changes. |
| Display.HidingForgetsAddresses | display.go:224-232 | Redaction is idempotent. Interfaces that differ only in their addresses print alike. |
| Display.HidingVpcForgetsAddresses | display.go:92-97 | The same for VPCs. |
| LegacySort.SortVpc | sort.go:23-58 | The older sortVPC sorts the gateways in place through the alias, lists the subnets as stored, and lists the peers in key order. |
| LegacySort.SortVpcs | sort.go:7-21 | The older sortVPCs lists every VPC in key order, each in the older listed form. |
| LegacySort.ListedVpcsAt | sort.go:7-21 | One element per key, in strictly ascending key order, and every VPC appears. |
| LegacySort.ListedVpcGateways | sort.go:26-27 | The listed gateways are a sorted permutation, and they are what the input VPC holds afterwards. |
| LegacySort.ListedVpcSubnets | sort.go:30-39 | Subnets are listed one per key, in ascending key order, exactly as stored: their inner collections stay maps. |
| LegacySort.ListedVpcPeers | sort.go:42-57 | Peers are listed in ascending key order, and the VPC data is copied. |
| LegacySort.ListedAgainstSorted | sort.go:23-58 | The same data, gateways and peers as the current sortVPC, and subnets in the same order; the current stage then sorts each subnet, the older stage does not. |
| LegacyBase.MapVpcs | cmd/vpc-ls.go:171-194 | The older mapVpcs loop computes its fold. |
| LegacyBase.MappedVpcsAt | cmd/vpc-ls.go:171-194 | A key is present afterwards iff it was before or some record names it; an unlisted key keeps its entry. |
| LegacyBase.MappedVpcsLast | cmd/vpc-ls.go:171-194 | A listed id holds the VPC built from its last record. |
| LegacyBase.MappedVpcsAgainstCurrent | cmd/vpc-ls.go:171-194 | From an empty map: the same keys as the current mapVpcs, and each older VPC has the current VPC's id, default flag and both CIDRs, but no name. |
| LegacyBase.MapSubnets | cmd/vpc-ls.go:412-431 | The older mapSubnets loop computes its fold. It requires each subnet's VPC to be present. |
| LegacyBase.MappedSubnetsAt | cmd/vpc-ls.go:412-431 | Each VPC gains exactly the subnets listed for it. |
| LegacyBase.SubnetsForHas | cmd/vpc-ls.go:412-431 | A subnet id is listed for a VPC iff some record names it. |
| LegacyBase.SubnetsForLast | cmd/vpc-ls.go:416-428 | A listed subnet holds the subnet built from its last record. |
| LegacyBase.BlockVolumesAt | cmd/vpc-ls.go:447-453 | A volume id is present iff some block device carries it; the entry has the device name of the last such device. |
| LegacyBase.InstanceInterfaces | cmd/vpc-ls.go:436-445 | The instance's own interface list has one entry per reported interface, in order. |
| LegacyBase.MapInstances | cmd/vpc-ls.go:433-471 | The older mapInstances loops compute its fold. |
| LegacyBase.MapReservationInstances | cmd/vpc-ls.go:435-470 | The inner loop over one reservation. |
| LegacyBase.MapInstance | cmd/vpc-ls.go:436-469 | One instance: its interface list and volume map are built, then it is written unless terminated. |
| LegacyBase.ScannedInstancesAt | cmd/vpc-ls.go:435-470 | One reservation adds to each subnet exactly its instances for that subnet, and nothing else changes. |
| LegacyBase.MappedInstancesAt | cmd/vpc-ls.go:433-471 | Each subnet gains exactly the instances all reservations give it, and nothing else changes. |
| LegacyBase.InstancesInMembers | cmd/vpc-ls.go:455-468 | An instance that one reservation gives a subnet comes from one of its non-terminated instances there. |
| LegacyBase.InstancesForMembers | cmd/vpc-ls.go:447-468 | An id is present iff some reservation lists a non-terminated instance of that VPC and subnet with that id. Its entry is built from such an instance, with volumes pre-filled from its block devices. |
| LegacyBase.MapNatGateways | cmd/vpc-ls.go:473-484 | The older mapNatGateways loop computes its fold. |
| LegacyBase.MappedNatGatewaysAt | cmd/vpc-ls.go:473-484 | Each subnet gains exactly the gateways listed for it. |
| LegacyBase.NatGatewaysForMembers | cmd/vpc-ls.go:473-484 | An id is listed iff some gateway of that subnet has it, and its entry is built from such a gateway. |
| LegacyBase.DeletedNatGatewayFiled | cmd/vpc-ls.go:473-484 | A "deleted" gateway is filed by the older pass and never by the current one. |
| LegacyRoutes.Targets | cmd/vpc-ls.go:486-521 | The older target order is the current list without its last entry (the core network). |
| LegacyRoutes.DefaultRouteIsFirstUsable | cmd/vpc-ls.go:486-521 | The older getDefaultRoute returns the target of the first usable route, and "" when there is none. |
| LegacyRoutes.RouteTargetWithoutCore | cmd/vpc-ls.go:491-517 | A route's older target is its current target once its core-network ARN is cleared. |
| LegacyRoutes.RouteTargetOrder | cmd/vpc-ls.go:491-517 | The older target is the first non-empty one of nine, with no core-network fallback. |
| LegacyRoutes.DefaultRouteAgreesWithoutCore | cmd/vpc-ls.go:486-521 | Without core-network routes, the older and the current getDefaultRoute agree. |
| LegacyRoutes.CoreNetworkOnlyIgnored | cmd/vpc-ls.go:486-521 | A default route whose only target is a core network: the current code returns the ARN, the older code passes the route over. |
| LegacyRoutes.GetDefaultRoute | cmd/vpc-ls.go:486-521 | The older loop with early returns computes the first usable default route. |
| LegacyRoutes.MapRouteTables | cmd/vpc-ls.go:523-570 | The older mapRouteTables runs the same two passes. |
| LegacyRoutes.MapMainAssociations | cmd/vpc-ls.go:534-549 | The first pass over one table's associations. |
| LegacyRoutes.MapMainPass | cmd/vpc-ls.go:533-548 | The older first loop, over every table, leaves the main-pass fold. |
| LegacyRoutes.MapMainAssociation | cmd/vpc-ls.go:535-546 | One main association gives its table to every subnet of the table's VPC. An absent VPC is left as it is. |
| LegacyRoutes.MapExplicitPass | cmd/vpc-ls.go:552-568 | The older second loop, over every table, leaves the explicit-pass fold. |
| LegacyRoutes.MapExplicitAssociations | cmd/vpc-ls.go:553-569 | The second pass over one table's associations. |
| LegacyRoutes.MapExplicitAssociation | cmd/vpc-ls.go:554-568 | One explicit association: its subnet takes the table. |
| LegacyRoutes.MainPassFrame | cmd/vpc-ls.go:533-549 | The first pass changes nothing but subnets' route tables. |
| LegacyRoutes.MainPassLast | cmd/vpc-ls.go:533-549 | After the first pass, a subnet carries the last main table of its VPC. |
| LegacyRoutes.MainPassNone | cmd/vpc-ls.go:533-549 | Nothing changes in a VPC that has no main table. |
| LegacyRoutes.ExplicitPassFrame | cmd/vpc-ls.go:551-569 | The second pass changes nothing but subnets' route tables, and may add subnets. |
| LegacyRoutes.ExplicitPassKeys | cmd/vpc-ls.go:551-569 | It adds exactly the subnets that some table is explicitly associated with. |
| LegacyRoutes.ExplicitPassLast | cmd/vpc-ls.go:551-569 | A subnet carries the last table explicitly associated with it. |
| LegacyRoutes.ExplicitPassNone | cmd/vpc-ls.go:551-569 | A subnet with no explicit association is left unchanged. |
| LegacyRoutes.RouteTablesExplicitWins | cmd/vpc-ls.go:533-569 | An explicitly associated subnet carries the last such table, whatever the main tables are and wherever they sit. |
| LegacyRoutes.RouteTablesMain | cmd/vpc-ls.go:533-569 | Any other subnet carries the last main table of its VPC. |
| LegacyRoutes.RouteTablesUntouched | cmd/vpc-ls.go:533-569 | A subnet that no table names, in a VPC with no main table, is left as it was. |
| LegacyRoutes.RouteTablesFrame | cmd/vpc-ls.go:523-570 | Every VPC keeps everything but its subnets, and only explicitly associated subnets are added. |
| LegacyGateways.MapInternetGateways | cmd/vpc-ls.go:572-582 | The older loop appends the internet-gateway ids aimed at each VPC. |
| LegacyGateways.MapEgressOnlyInternetGateways | cmd/vpc-ls.go:584-594 | The same for egress-only gateways. |
| LegacyGateways.MapVpnGateways | cmd/vpc-ls.go:596-606 | The same for VPN gateways. |
| LegacyGateways.AppendAllAt | cmd/vpc-ls.go:576-578 | Each VPC ends up as before (zero when absent) with exactly the ids aimed at it appended, in order. |
| LegacyGateways.GatewaysAgainstCurrent | cmd/vpc-ls.go:572-606 | The older gateway passes append the same ids, in the same order, as the current passes. |
| LegacyGateways.InternetGatewaysAt | cmd/vpc-ls.go:572-582 | Ids of gateways with an attachment naming the VPC are appended. |
| LegacyGateways.EgressOnlyGatewaysAt | cmd/vpc-ls.go:584-594 | One id is appended per attachment in state "attached". |
| LegacyGateways.VpnGatewaysAt | cmd/vpc-ls.go:596-606 | One id is appended per VPC attachment in state "attached". |
| LegacyLinks.MapTransitGatewayVpcAttachments | cmd/vpc-ls.go:608-622 | The older TGW loop computes its fold, with no owner filter. |
| LegacyLinks.MapAttachmentSubnets | cmd/vpc-ls.go:610-620 | The inner loop over one attachment's subnet ids. |
| LegacyLinks.AttachmentSubnetsAt | cmd/vpc-ls.go:610-620 | A subnet gains the attachment exactly when the attachment lists it, and nothing else changes. |
| LegacyLinks.MappedTgwsAt | cmd/vpc-ls.go:608-622 | Each subnet keeps everything but its TGWs, which gain exactly the attachments that reach it. |
| LegacyLinks.TgwsForMembers | cmd/vpc-ls.go:608-622 | An attachment reaches a subnet exactly when its VPC is the subnet's and it lists the subnet, whoever owns it. |
| LegacyLinks.TgwsAgainstCurrent | cmd/vpc-ls.go:608-622 | What the current pass files, the older one files too. They agree when the caller's account owns every attachment. Any extra entry comes from another owner. |
| LegacyLinks.MapVpcPeeringConnections | cmd/vpc-ls.go:624-647 | The older peering loop computes its fold. |
| LegacyLinks.MapVpcPeeringConnection | cmd/vpc-ls.go:625-646 | One connection is written to both sides, when they are named and mapped. |
| LegacyLinks.PeerStepAt | cmd/vpc-ls.go:625-646 | A VPC's peers gain the connection exactly when it names that VPC. |
| LegacyLinks.MappedPeersAt | cmd/vpc-ls.go:624-647 | No VPC is added. A present VPC keeps everything but its peers, which gain exactly the connections naming it, whatever their state. |
| LegacyLinks.PeersForMembers | cmd/vpc-ls.go:624-647 | A connection reaches a VPC exactly when it names that VPC on either side. |
| LegacyLinks.PeersAgainstCurrent | cmd/vpc-ls.go:624-647 | What the current pass files, the older one files too. They agree when every connection is active. Any extra entry is not active. |
| LegacyLinks.MapNetworkInterfaces | cmd/vpc-ls.go:649-675 | The older interface loop computes its fold. It requires every interface to carry an attachment record. |
| LegacyLinks.MappedEnisAt | cmd/vpc-ls.go:649-675 | Each subnet's ENIs gain exactly the interfaces filed for it, and nothing else changes. |
| LegacyLinks.EnisForMembers | cmd/vpc-ls.go:650-674 | An interface is filed under a subnet exactly when it is not instance-attached, not a NAT gateway's, and belongs to that subnet. |
| LegacyLinks.EnisAgainstCurrent | cmd/vpc-ls.go:649-675 | What the current pass files as ENIs, the older one files too. They agree when no interface is a VPC endpoint's. Any extra entry comes from a VPC-endpoint interface. |
| LegacyLinks.UnattachedInterfacePanics | cmd/vpc-ls.go:651 | Any input holding an interface without an attachment record makes the older pass panic. |
| LegacyLinks.UnattachedInterfaceFiled | mappings.go:389-407 | The current pass checks for the record first: an unattached interface that is neither a NAT gateway's nor a VPC endpoint's becomes an ENI of its subnet. |
| LegacyLinks.MapVpcEndpoints | cmd/vpc-ls.go:677-702 | The older endpoint loop computes its fold, on input where it does not panic. |
| LegacyLinks.MapVpcEndpoint | cmd/vpc-ls.go:679-700 | One endpoint: an Interface endpoint is written to each subnet it lists; a Gateway endpoint must write nothing. |
| LegacyLinks.EndpointSubnetsAt | cmd/vpc-ls.go:679-687 | A subnet gains an Interface endpoint exactly when the endpoint lists it. |
| LegacyLinks.EndpointStepAt | cmd/vpc-ls.go:679-700 | One endpoint, seen from a subnet. |
| LegacyLinks.MappedEndpointsAt | cmd/vpc-ls.go:677-702 | A subnet keeps everything but its Interface endpoints, which gain exactly the Interface endpoints that list it. |
| LegacyLinks.InterfaceEndpointsForMembers | cmd/vpc-ls.go:679-687 | An endpoint reaches a subnet exactly when an Interface endpoint of its VPC lists it. |
| LegacyLinks.InterfaceEndpointsAgainstCurrent | cmd/vpc-ls.go:679-687 | What the current pass files, the older one files too. They agree for a VPC and subnet the current pass has discovered. |
| LegacyLinks.GatewayEndpointPanics | cmd/vpc-ls.go:689-699 | A Gateway endpoint with a route table, in a VPC with a subnet that has no route table or uses one of its tables, makes the older pass panic. |
| LegacyLinks.GatewayEndpointExample | cmd/vpc-ls.go:693 | A concrete input of one VPC, one subnet on table "rtb-1" and a Gateway endpoint for "rtb-1" makes the older pass panic. |

## Left out

- SDK fetchers and pagination (`requests.go`, `awsfetch/requests.go`, `cmd/vpc-ls.go:152-410`).
  They are network I/O. Their results are the inputs of the passes.
- Goroutines, the WaitGroup, the mutex and the channels (`main.go:47-65`,
  `main.go:122-136`, `awsfetch/awsfetch.go:73-107`, `sorting.go:21-37`).
  They are concurrency. Fetch results, region merges and region sorts are
  modelled sequentially. The merge writes are mutex-guarded and go to
  distinct regions.
- `getRegions`, `credentialsLoaded` and `stdoutIsPipe`, and the session
  region of `doDefaultRegion`. They touch the OS or the network. Their
  answers are parameters of `Pipeline.ValidateRegion` and
  `Pipeline.Dispatch`.
- `getVolume` and `instantiateVolumes` (`cmd/vpc-ls.go:704-746`). They are
  remote calls.
- Printing, ANSI colours, JSON marshalling and flag parsing
  (`display.go:65-73`, the print functions, `cmd/vpc-ls.go:769-964`,
  `main.go:170-182`).
  - Only the values the printers compute are modelled.
  - HideIP is modelled as value functions on the records, not as in-place
    overwrites of the printed structs.
  - Warnings of mapVpcEndpoints are returned, not printed.
- The older indent (`cmd/vpc-ls.go:748-756`). It is identical to the
  current one and is modelled once, by `Display.Indent`.
- The older populateVPC, region and main functions (`cmd/vpc-ls.go:966-1090`).
  They are outside the modelled core, which is the orchestration of
  `main.go`. They differ from it in these ways:
  - the older populateVPC runs mapNetworkInterfaces before mapVpcEndpoints
    (`cmd/vpc-ls.go:1014-1015`). That is the reversed order for which
    `Pipeline.InterfacesBeforeEndpointsLoseThem` shows that endpoint
    interfaces are lost;
  - it calls instantiateVolumes, an SDK call, between mapInstances and
    mapNatGateways. A failure there returns an empty map and a wrapped
    error (`cmd/vpc-ls.go:1001-1005`);
  - it has no instance-status or volume pass, and its TGW pass takes no
    caller identity (`cmd/vpc-ls.go:998-1013`);
  - the older allRegions prints the merged regions in map order, with no
    sort stage (`cmd/vpc-ls.go:1066-1069`);
  - the older main only calls defaultRegion (`cmd/vpc-ls.go:1086-1089`),
    which panics when populateVPC fails (`cmd/vpc-ls.go:1080-1082`).
- Security groups (the Groups maps) and NatGateway.Interfaces. No shown
  function fills them. They stay empty, and the sort stage only orders
  them.
- The pointer-map revision. The source files come from two revisions.
  `mappings.go`, `sort.go` and `cmd/vpc-ls.go` use value maps, such as
  `map[string]VPC` at `mappings.go:22` and `map[string]Subnet` at
  `mappings.go:44`. `main.go`, `sorting.go` and `dataModel.go` use pointer
  maps: `map[string]*VPC` at `dataModel.go:12`, `main.go:45` and
  `sorting.go:48`, and `*Subnet`, `*Instance` and the rest at
  `dataModel.go:38-39` and `:65-70`. So `main.go` as written cannot call
  `mappings.go` as written. The model, `Pipeline` and `Sorting` included,
  follows the value maps of `mappings.go` throughout. The datatypes of
  `model.dfy` hold values, not pointers. Under the pointer revision, a
  gateway pass reading an unknown VPC id (`mappings.go:265-267`, `:277-279`,
  `:289-291`) would get a nil `*VPC` and dereference it. It would not
  store the stub VPC that `Pipeline.PopulatedKeys` counts.
- Nil pointers are "". A field that is nil in the SDK and read through
  `aws.StringValue` cannot be told apart from an empty string.
- Go panics are preconditions, not behaviour. These are:
  - a write under a missing or stub VPC or subnet in mapSubnets,
    mapInstances, mapNatGateways, the route-table passes,
    mapTransitGatewayVpcAttachments, mapVpcPeeringConnections,
    mapNetworkInterfaces and both mapVpcEndpoints;
  - a NAT gateway with no address record (`NatGatewayAddresses[0]`) in
    both mapNatGateways;
  - a subnet with no route table in the VPC of a Gateway endpoint, whose
    `RouteTable.ID` both mapVpcEndpoints read;
  - the older mapNetworkInterfaces' nil attachment dereference;
  - the older Gateway endpoint branch.
- A raw dereference of an SDK string pointer panics in Go when the field
  is nil. The model reads it as "" and carries on, as for
  `aws.StringValue`. These are `*instance.State.Name` (`mappings.go:79`,
  `cmd/vpc-ls.go:455`) and the `VpcId`, `SubnetId` and resource-id keys
  of `mappings.go:54`, `:137`, `:159`, `:226-256`, `:277-291`, `:398-408`,
  `:432-448` and of `cmd/vpc-ls.go:416`, `:456`, `:475`, `:537-567`,
  `:588-613`, `:665`, `:681-693`.
- A field read through a nil SDK struct pointer panics in Go even inside
  `aws.StringValue`. The model reads the field as "". These reads are
  `peer.Status.Code`, `peer.RequesterVpcInfo.VpcId` and
  `peer.AccepterVpcInfo.VpcId` (`mappings.go:319-335`,
  `cmd/vpc-ls.go:624-636`), `status.InstanceStatus.Status` and
  `status.SystemStatus.Status` (`mappings.go:114-115`),
  `assoc.Ipv6CidrBlockState.State` (`mappings.go:29`, `cmd/vpc-ls.go:178`)
  and `association.AssociationState.State` (`mappings.go:245`,
  `cmd/vpc-ls.go:556`).
- The older mapInstances dereferences `volume.Ebs.VolumeId` without a nil
  check (`cmd/vpc-ls.go:449`), so a block device without an EBS volume
  panics there. The model does not exclude that input: it files such a
  device under the volume id "".
- The older Subnet's GatewayEndpoints field is left out. It is never
  initialised and nothing can be written into it without a panic.
- sort.go's VPCSorted with plain Subnet values no longer matches
  dataModel.go. `LegacySort.VpcListed` is that older shape.
- Names are sequences of `char`, taken as runes. formatName's rune
  conversion of UTF-8 is not modelled.
- LegacyLinks.MapVpcEndpoints: it holds only on input where no Gateway
  endpoint reaches a subnet. That is the only input on which the source
  does not panic.

## Findings

| source | as written | input that shows it | evidently intended | confidence | as-written member | corrected member |
|---|---|---|---|---|---|---|
| cmd/vpc-ls.go:689-699 | The Gateway branch writes into the subnet's GatewayEndpoints map, which no code ever creates, and reads the subnet's RouteTable without a nil check. | VPC "vpc-1" with subnet "subnet-1" on route table "rtb-1", and a Gateway endpoint of "vpc-1" for "rtb-1": the write at line 693 goes into a nil map and panics. | Add the endpoint to every subnet of its VPC whose route table is one of the endpoint's tables, as mappings.go:444-457 does. | not executed | LegacyLinks.GatewayEndpointPanics | Pipeline.GatewayEndpointPlacement |
| cmd/vpc-ls.go:651 | `iface.Attachment.InstanceId` dereferences the attachment record of every interface. | Any interface that is not attached (its Attachment is nil): the pass panics. | An unattached interface that belongs to no NAT gateway or endpoint is filed as an ENI of its subnet, as mappings.go:389 checks `iface.Attachment != nil` first. | not executed | LegacyLinks.UnattachedInterfacePanics | LegacyLinks.UnattachedInterfaceFiled |
