/**
 * awsfetch/awsfetch.go: GetAll starts one fetch per resource kind, receives
 * their outputs in a fixed order, and reports the first failure in that
 * order through AWSRecieve.Error.
 */
module AwsFetch {
  import opened Wrappers
  import opened Ec2

  /** One fetch's output: what it read and the error it hit (None on success). */
  datatype Output<T> = Output(value: T, err: Option<string>)

  /** AWSRecieve; the identity is reduced to its account. */
  datatype Receive = Receive(
    identity: Output<string>,
    vpcs: Output<seq<RawVpc>>,
    subnets: Output<seq<RawSubnet>>,
    instances: Output<seq<Reservation>>,
    instanceStatuses: Output<seq<RawInstanceStatus>>,
    volumes: Output<seq<RawVolume>>,
    natGateways: Output<seq<RawNatGateway>>,
    routeTables: Output<seq<RawRouteTable>>,
    internetGateways: Output<seq<RawInternetGateway>>,
    eoInternetGateways: Output<seq<RawEgressOnlyInternetGateway>>,
    vpnGateways: Output<seq<RawVpnGateway>>,
    transiGateways: Output<seq<RawTransitGatewayVpcAttachment>>,
    peeringConnections: Output<seq<RawVpcPeeringConnection>>,
    networkInterfaces: Output<seq<RawNetworkInterface>>,
    securityGroups: Output<seq<RawSecurityGroup>>,
    vpcEndpoints: Output<seq<RawVpcEndpoint>>)

  /** The sixteen fetch errors, in the order Error checks them. */
  function Errors(a: Receive): (es: seq<Option<string>>)
    ensures |es| == 16
  {
    [a.identity.err, a.vpcs.err, a.subnets.err, a.instances.err, a.instanceStatuses.err, a.volumes.err,
     a.natGateways.err, a.routeTables.err, a.internetGateways.err, a.eoInternetGateways.err, a.vpnGateways.err,
     a.transiGateways.err, a.peeringConnections.err, a.networkInterfaces.err, a.securityGroups.err,
     a.vpcEndpoints.err]
  }

  /** The earliest failure of `es` at position `n` or later, scanning forwards. */
  function FirstFailureFrom(es: seq<Option<string>>, n: nat): Option<string>
    decreases |es| - n
  {
    if n >= |es| then None
    else if es[n].Some? then es[n]
    else FirstFailureFrom(es, n + 1)
  }

  /** The scan finds nothing exactly when nothing from `n` on failed, and otherwise the failure with none between `n` and it. */
  lemma {:induction false} FirstFailureIsEarliest(es: seq<Option<string>>, n: nat)
    decreases |es| - n
    ensures FirstFailureFrom(es, n).None? <==> forall i :: n <= i < |es| ==> es[i].None?
    ensures FirstFailureFrom(es, n).Some? ==>
      exists i :: n <= i < |es| && es[i] == FirstFailureFrom(es, n) && forall j :: n <= j < i ==> es[j].None?
  {
    if n < |es| && es[n].None? {
      FirstFailureIsEarliest(es, n + 1);
      if FirstFailureFrom(es, n + 1).Some? {
        var i :| n + 1 <= i < |es| && es[i] == FirstFailureFrom(es, n + 1) && forall j :: n + 1 <= j < i ==> es[j].None?;
        assert forall j :: n <= j < i ==> es[j].None?;
      }
    }
  }

  /** AWSRecieve.Error: the first fetch error, checked in field order. */
  function Error(a: Receive): Option<string>
  {
    if a.identity.err.Some? then a.identity.err
    else if a.vpcs.err.Some? then a.vpcs.err
    else if a.subnets.err.Some? then a.subnets.err
    else if a.instances.err.Some? then a.instances.err
    else if a.instanceStatuses.err.Some? then a.instanceStatuses.err
    else if a.volumes.err.Some? then a.volumes.err
    else if a.natGateways.err.Some? then a.natGateways.err
    else if a.routeTables.err.Some? then a.routeTables.err
    else if a.internetGateways.err.Some? then a.internetGateways.err
    else if a.eoInternetGateways.err.Some? then a.eoInternetGateways.err
    else if a.vpnGateways.err.Some? then a.vpnGateways.err
    else if a.transiGateways.err.Some? then a.transiGateways.err
    else if a.peeringConnections.err.Some? then a.peeringConnections.err
    else if a.networkInterfaces.err.Some? then a.networkInterfaces.err
    else if a.securityGroups.err.Some? then a.securityGroups.err
    else if a.vpcEndpoints.err.Some? then a.vpcEndpoints.err
    else None
  }

  /** Error agrees with a front-to-back scan of the sixteen errors. */
  lemma ErrorIsFirstFailure(a: Receive)
    ensures Error(a) == FirstFailureFrom(Errors(a), 0)
  {
    var es := Errors(a);
    assert FirstFailureFrom(es, 15) == if es[15].Some? then es[15] else FirstFailureFrom(es, 16);
    assert FirstFailureFrom(es, 14) == if es[14].Some? then es[14] else FirstFailureFrom(es, 15);
    assert FirstFailureFrom(es, 13) == if es[13].Some? then es[13] else FirstFailureFrom(es, 14);
    assert FirstFailureFrom(es, 12) == if es[12].Some? then es[12] else FirstFailureFrom(es, 13);
    assert FirstFailureFrom(es, 11) == if es[11].Some? then es[11] else FirstFailureFrom(es, 12);
    assert FirstFailureFrom(es, 10) == if es[10].Some? then es[10] else FirstFailureFrom(es, 11);
    assert FirstFailureFrom(es, 9) == if es[9].Some? then es[9] else FirstFailureFrom(es, 10);
    assert FirstFailureFrom(es, 8) == if es[8].Some? then es[8] else FirstFailureFrom(es, 9);
    assert FirstFailureFrom(es, 7) == if es[7].Some? then es[7] else FirstFailureFrom(es, 8);
    assert FirstFailureFrom(es, 6) == if es[6].Some? then es[6] else FirstFailureFrom(es, 7);
    assert FirstFailureFrom(es, 5) == if es[5].Some? then es[5] else FirstFailureFrom(es, 6);
    assert FirstFailureFrom(es, 4) == if es[4].Some? then es[4] else FirstFailureFrom(es, 5);
    assert FirstFailureFrom(es, 3) == if es[3].Some? then es[3] else FirstFailureFrom(es, 4);
    assert FirstFailureFrom(es, 2) == if es[2].Some? then es[2] else FirstFailureFrom(es, 3);
    assert FirstFailureFrom(es, 1) == if es[1].Some? then es[1] else FirstFailureFrom(es, 2);
    assert FirstFailureFrom(es, 0) == if es[0].Some? then es[0] else FirstFailureFrom(es, 1);
  }

  /** Error reports nothing exactly when every fetch succeeded, and otherwise the earliest failure. */
  lemma ErrorIsEarliest(a: Receive)
    ensures Error(a).None? <==> forall i :: 0 <= i < 16 ==> Errors(a)[i].None?
    ensures Error(a).Some? ==>
      exists i :: 0 <= i < 16 && Errors(a)[i] == Error(a) && forall j :: 0 <= j < i ==> Errors(a)[j].None?
  {
    ErrorIsFirstFailure(a);
    FirstFailureIsEarliest(Errors(a), 0);
  }

  /** A failed identity fetch is reported whatever else failed. */
  lemma IdentityFirst(a: Receive)
    requires a.identity.err.Some?
    ensures Error(a) == a.identity.err
  {
  }

  /** A failed VPC-endpoint fetch, the last one checked, is reported when nothing else failed. */
  lemma EndpointsLast(a: Receive)
    requires forall i :: 0 <= i < 15 ==> Errors(a)[i].None?
    ensures Error(a) == a.vpcEndpoints.err
  {
    ErrorIsEarliest(a);
  }

  /**
   * GetAll once each fetch has sent its output: the record holds every
   * output as sent, paired with its Error.
   */
  method GetAll(fetched: Receive) returns (r: Receive, err: Option<string>)
    ensures r == fetched
    ensures err.None? <==> forall i :: 0 <= i < 16 ==> Errors(fetched)[i].None?
    ensures err.Some? ==>
      exists i :: 0 <= i < 16 && Errors(fetched)[i] == err && forall j :: 0 <= j < i ==> Errors(fetched)[j].None?
    ensures err == FirstFailureFrom(Errors(fetched), 0)
  {
    r := fetched;
    err := Error(r);
    ErrorIsFirstFailure(r);
    ErrorIsEarliest(r);
  }
}
