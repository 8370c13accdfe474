/**
 * The gateway passes of the older snapshot (cmd/vpc-ls.go): internet,
 * egress-only and VPN gateways are appended to the Gateways list of a VPC
 * under the same rules as the current passes, by read-modify-write of the
 * older VPC value, so which ids each VPC gains is the current
 * `MapGateways.IdsFor` of the same attachment list.
 */
module LegacyGateways {
  import opened Ec2
  import opened LegacyModel
  import MapGateways
  import Model

  /** The VPC a read of `vid` yields: the stored one, or the zero VPC. */
  function VpcOrStub(m: Vpcs, vid: string): Vpc
  {
    if vid in m then m[vid] else StubVpc
  }

  function AppendGateway(m: Vpcs, l: MapGateways.Link): Vpcs
  {
    var vpc := VpcOrStub(m, l.vpcId);
    m[l.vpcId := vpc.(gateways := vpc.gateways + [l.gatewayId])]
  }

  function AppendAll(m: Vpcs, links: seq<MapGateways.Link>): Vpcs
  {
    if |links| == 0 then m
    else AppendGateway(AppendAll(m, links[..|links| - 1]), links[|links| - 1])
  }

  /** One attachment's step of a pass over the older topology: the append it makes, if any. */
  lemma AttachmentStep(kind: MapGateways.GatewayKind, gatewayId: string, atts: seq<GatewayAttachment>, j: int,
                       m: Vpcs, done: seq<MapGateways.Link>)
    requires 0 <= j < |atts|
    ensures !MapGateways.Appends(kind, atts[j]) ==>
      done + MapGateways.AttachmentLinks(kind, gatewayId, atts[..j + 1]) == done + MapGateways.AttachmentLinks(kind, gatewayId, atts[..j])
    ensures MapGateways.Appends(kind, atts[j]) ==>
      AppendAll(m, done + MapGateways.AttachmentLinks(kind, gatewayId, atts[..j + 1])) ==
      AppendGateway(AppendAll(m, done + MapGateways.AttachmentLinks(kind, gatewayId, atts[..j])), MapGateways.Link(atts[j].vpcId, gatewayId))
  {
    assert atts[..j + 1][..j] == atts[..j];
    var l := MapGateways.Link(atts[j].vpcId, gatewayId);
    var all := done + MapGateways.AttachmentLinks(kind, gatewayId, atts[..j]);
    if MapGateways.Appends(kind, atts[j]) {
      assert done + MapGateways.AttachmentLinks(kind, gatewayId, atts[..j + 1]) == all + [l];
      assert (all + [l])[..|all|] == all;
    }
  }

  method MapInternetGateways(vpcs: Vpcs, internetGateways: seq<RawInternetGateway>) returns (r: Vpcs)
    ensures r == AppendAll(vpcs, MapGateways.InternetLinks(internetGateways))
  {
    r := vpcs;
    for i := 0 to |internetGateways|
      invariant r == AppendAll(vpcs, MapGateways.InternetLinks(internetGateways[..i]))
    {
      assert internetGateways[..i + 1][..i] == internetGateways[..i];
      var igw := internetGateways[i];
      ghost var done := MapGateways.InternetLinks(internetGateways[..i]);
      assert igw.attachments[..0] == [] && done + [] == done;
      for j := 0 to |igw.attachments|
        invariant r == AppendAll(vpcs, done + MapGateways.AttachmentLinks(MapGateways.Internet, igw.internetGatewayId, igw.attachments[..j]))
      {
        AttachmentStep(MapGateways.Internet, igw.internetGatewayId, igw.attachments, j, vpcs, done);
        var vpcId := igw.attachments[j].vpcId;
        if vpcId != "" {
          var vpc := VpcOrStub(r, vpcId);
          vpc := vpc.(gateways := vpc.gateways + [igw.internetGatewayId]);
          r := r[vpcId := vpc];
        }
      }
      assert igw.attachments[..|igw.attachments|] == igw.attachments;
    }
    assert internetGateways[..|internetGateways|] == internetGateways;
  }

  method MapEgressOnlyInternetGateways(vpcs: Vpcs, eoigws: seq<RawEgressOnlyInternetGateway>) returns (r: Vpcs)
    ensures r == AppendAll(vpcs, MapGateways.EgressOnlyLinks(eoigws))
  {
    r := vpcs;
    for i := 0 to |eoigws|
      invariant r == AppendAll(vpcs, MapGateways.EgressOnlyLinks(eoigws[..i]))
    {
      assert eoigws[..i + 1][..i] == eoigws[..i];
      var eoigw := eoigws[i];
      ghost var done := MapGateways.EgressOnlyLinks(eoigws[..i]);
      assert eoigw.attachments[..0] == [] && done + [] == done;
      for j := 0 to |eoigw.attachments|
        invariant r == AppendAll(vpcs, done + MapGateways.AttachmentLinks(MapGateways.EgressOnly, eoigw.egressOnlyInternetGatewayId, eoigw.attachments[..j]))
      {
        AttachmentStep(MapGateways.EgressOnly, eoigw.egressOnlyInternetGatewayId, eoigw.attachments, j, vpcs, done);
        var attach := eoigw.attachments[j];
        if attach.state == "attached" {
          var vpc := VpcOrStub(r, attach.vpcId);
          vpc := vpc.(gateways := vpc.gateways + [eoigw.egressOnlyInternetGatewayId]);
          r := r[attach.vpcId := vpc];
        }
      }
      assert eoigw.attachments[..|eoigw.attachments|] == eoigw.attachments;
    }
    assert eoigws[..|eoigws|] == eoigws;
  }

  method MapVpnGateways(vpcs: Vpcs, vpnGateways: seq<RawVpnGateway>) returns (r: Vpcs)
    ensures r == AppendAll(vpcs, MapGateways.VpnLinks(vpnGateways))
  {
    r := vpcs;
    for i := 0 to |vpnGateways|
      invariant r == AppendAll(vpcs, MapGateways.VpnLinks(vpnGateways[..i]))
    {
      assert vpnGateways[..i + 1][..i] == vpnGateways[..i];
      var vpgw := vpnGateways[i];
      ghost var done := MapGateways.VpnLinks(vpnGateways[..i]);
      assert vpgw.vpcAttachments[..0] == [] && done + [] == done;
      for j := 0 to |vpgw.vpcAttachments|
        invariant r == AppendAll(vpcs, done + MapGateways.AttachmentLinks(MapGateways.Vpn, vpgw.vpnGatewayId, vpgw.vpcAttachments[..j]))
      {
        AttachmentStep(MapGateways.Vpn, vpgw.vpnGatewayId, vpgw.vpcAttachments, j, vpcs, done);
        var attach := vpgw.vpcAttachments[j];
        if attach.state == "attached" {
          var vpc := VpcOrStub(r, attach.vpcId);
          vpc := vpc.(gateways := vpc.gateways + [vpgw.vpnGatewayId]);
          r := r[attach.vpcId := vpc];
        }
      }
      assert vpgw.vpcAttachments[..|vpgw.vpcAttachments|] == vpgw.vpcAttachments;
    }
    assert vpnGateways[..|vpnGateways|] == vpnGateways;
  }

  /**
   * The appends act VPC by VPC: a VPC ends up as it was (the zero VPC when
   * absent) with exactly the ids aimed at it appended, in order.
   */
  lemma {:induction false} AppendAllAt(m: Vpcs, links: seq<MapGateways.Link>, v: string)
    ensures v in AppendAll(m, links) <==> v in m || MapGateways.IdsFor(links, v) != []
    ensures VpcOrStub(AppendAll(m, links), v) ==
      VpcOrStub(m, v).(gateways := VpcOrStub(m, v).gateways + MapGateways.IdsFor(links, v))
  {
    if |links| > 0 {
      var p := links[..|links| - 1];
      AppendAllAt(m, p, v);
      var l := links[|links| - 1];
      if l.vpcId == v {
        assert MapGateways.IdsFor(links, v) == MapGateways.IdsFor(p, v) + [l.gatewayId];
      }
    }
  }

  /**
   * The older gateway passes give every VPC the same ids, in the same
   * order, as the current passes given the same gateways: whatever each VPC
   * held before, both append `MapGateways.IdsFor` of the same links.
   */
  lemma GatewaysAgainstCurrent(m: Vpcs, cm: Model.Vpcs, links: seq<MapGateways.Link>, v: string)
    requires v in m && v in cm && m[v].gateways == cm[v].gateways
    ensures v in AppendAll(m, links) && v in MapGateways.AppendAll(cm, links)
    ensures AppendAll(m, links)[v].gateways == MapGateways.AppendAll(cm, links)[v].gateways
    ensures AppendAll(m, links)[v].(gateways := m[v].gateways) == m[v]
  {
    AppendAllAt(m, links, v);
    MapGateways.AppendAllAt(cm, links, v);
  }

  /** mapInternetGateways on the older topology: the ids appended to a VPC are those of gateways with an attachment naming it. */
  lemma InternetGatewaysAt(m: Vpcs, igws: seq<RawInternetGateway>, v: string, x: string)
    ensures VpcOrStub(AppendAll(m, MapGateways.InternetLinks(igws)), v) ==
      VpcOrStub(m, v).(gateways := VpcOrStub(m, v).gateways + MapGateways.IdsFor(MapGateways.InternetLinks(igws), v))
    ensures x in MapGateways.IdsFor(MapGateways.InternetLinks(igws), v) <==>
      exists g, a :: g in igws && a in g.attachments && a.vpcId != "" && a.vpcId == v && x == g.internetGatewayId
  {
    AppendAllAt(m, MapGateways.InternetLinks(igws), v);
    MapGateways.InternetGatewaysAt(map[], igws, v, x);
  }

  /** mapEgressOnlyInternetGateways on the older topology: one id per attachment in state "attached", for the VPC it names. */
  lemma EgressOnlyGatewaysAt(m: Vpcs, gws: seq<RawEgressOnlyInternetGateway>, v: string, x: string)
    ensures VpcOrStub(AppendAll(m, MapGateways.EgressOnlyLinks(gws)), v) ==
      VpcOrStub(m, v).(gateways := VpcOrStub(m, v).gateways + MapGateways.IdsFor(MapGateways.EgressOnlyLinks(gws), v))
    ensures x in MapGateways.IdsFor(MapGateways.EgressOnlyLinks(gws), v) <==>
      exists g, a :: g in gws && a in g.attachments && a.state == "attached" && a.vpcId == v && x == g.egressOnlyInternetGatewayId
  {
    AppendAllAt(m, MapGateways.EgressOnlyLinks(gws), v);
    MapGateways.EgressOnlyGatewaysAt(map[], gws, v, x);
  }

  /** mapVPNGateways on the older topology: one id per VPC attachment in state "attached", for the VPC it names. */
  lemma VpnGatewaysAt(m: Vpcs, gws: seq<RawVpnGateway>, v: string, x: string)
    ensures VpcOrStub(AppendAll(m, MapGateways.VpnLinks(gws)), v) ==
      VpcOrStub(m, v).(gateways := VpcOrStub(m, v).gateways + MapGateways.IdsFor(MapGateways.VpnLinks(gws), v))
    ensures x in MapGateways.IdsFor(MapGateways.VpnLinks(gws), v) <==>
      exists g, a :: g in gws && a in g.vpcAttachments && a.state == "attached" && a.vpcId == v && x == g.vpnGatewayId
  {
    AppendAllAt(m, MapGateways.VpnLinks(gws), v);
    MapGateways.VpnGatewaysAt(map[], gws, v, x);
  }
}
