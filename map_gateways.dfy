/**
 * mapInternetGateways, mapEgressOnlyInternetGateways and mapVPNGateways
 * (mappings.go): each appends gateway ids to the Gateways list of a VPC by
 * read-modify-write of the VPC value, so an unknown VPC id gains a zero VPC
 * holding just that list.
 */
module MapGateways {
  import opened Ec2
  import opened Model

  datatype GatewayKind = Internet | EgressOnly | Vpn

  /**
   * Whether an attachment appends the gateway: internet gateways for any
   * attachment naming a VPC, the other two only for "attached" ones.
   */
  predicate Appends(kind: GatewayKind, a: GatewayAttachment)
  {
    if kind == Internet then a.vpcId != "" else a.state == "attached"
  }

  /** One append: gateway `gatewayId` goes to the end of VPC `vpcId`'s list. */
  datatype Link = Link(vpcId: string, gatewayId: string)

  /** The VPC a read of `vid` yields: the stored one, or the zero VPC. */
  function VpcOrStub(m: Vpcs, vid: string): Vpc
  {
    if vid in m then m[vid] else StubVpc
  }

  function AppendGateway(m: Vpcs, l: Link): Vpcs
  {
    var vpc := VpcOrStub(m, l.vpcId);
    m[l.vpcId := vpc.(gateways := vpc.gateways + [l.gatewayId])]
  }

  function AppendAll(m: Vpcs, links: seq<Link>): Vpcs
  {
    if |links| == 0 then m
    else AppendGateway(AppendAll(m, links[..|links| - 1]), links[|links| - 1])
  }

  /** The appends the attachments of one gateway make, in order. */
  function AttachmentLinks(kind: GatewayKind, gatewayId: string, atts: seq<GatewayAttachment>): seq<Link>
  {
    if |atts| == 0 then []
    else
      var a := atts[|atts| - 1];
      AttachmentLinks(kind, gatewayId, atts[..|atts| - 1]) + (if Appends(kind, a) then [Link(a.vpcId, gatewayId)] else [])
  }

  function InternetLinks(igws: seq<RawInternetGateway>): seq<Link>
  {
    if |igws| == 0 then []
    else
      var g := igws[|igws| - 1];
      InternetLinks(igws[..|igws| - 1]) + AttachmentLinks(Internet, g.internetGatewayId, g.attachments)
  }

  function EgressOnlyLinks(gws: seq<RawEgressOnlyInternetGateway>): seq<Link>
  {
    if |gws| == 0 then []
    else
      var g := gws[|gws| - 1];
      EgressOnlyLinks(gws[..|gws| - 1]) + AttachmentLinks(EgressOnly, g.egressOnlyInternetGatewayId, g.attachments)
  }

  function VpnLinks(gws: seq<RawVpnGateway>): seq<Link>
  {
    if |gws| == 0 then []
    else
      var g := gws[|gws| - 1];
      VpnLinks(gws[..|gws| - 1]) + AttachmentLinks(Vpn, g.vpnGatewayId, g.vpcAttachments)
  }

  /** The gateway ids `links` append to VPC `vid`, in order. */
  function IdsFor(links: seq<Link>, vid: string): seq<string>
  {
    if |links| == 0 then []
    else
      var l := links[|links| - 1];
      IdsFor(links[..|links| - 1], vid) + (if l.vpcId == vid then [l.gatewayId] else [])
  }

  /** One attachment's step of a pass: the append it makes, if any. */
  lemma AttachmentStep(kind: GatewayKind, gatewayId: string, atts: seq<GatewayAttachment>, j: int, m: Vpcs, done: seq<Link>)
    requires 0 <= j < |atts|
    ensures AttachmentLinks(kind, gatewayId, atts[..j + 1]) ==
      AttachmentLinks(kind, gatewayId, atts[..j]) + (if Appends(kind, atts[j]) then [Link(atts[j].vpcId, gatewayId)] else [])
    ensures !Appends(kind, atts[j]) ==>
      done + AttachmentLinks(kind, gatewayId, atts[..j + 1]) == done + AttachmentLinks(kind, gatewayId, atts[..j])
    ensures Appends(kind, atts[j]) ==>
      AppendAll(m, done + AttachmentLinks(kind, gatewayId, atts[..j + 1])) ==
      AppendGateway(AppendAll(m, done + AttachmentLinks(kind, gatewayId, atts[..j])), Link(atts[j].vpcId, gatewayId))
  {
    assert atts[..j + 1][..j] == atts[..j];
    var l := Link(atts[j].vpcId, gatewayId);
    var all := done + AttachmentLinks(kind, gatewayId, atts[..j]);
    if Appends(kind, atts[j]) {
      assert done + AttachmentLinks(kind, gatewayId, atts[..j + 1]) == all + [l];
      assert (all + [l])[..|all|] == all;
    }
  }

  method MapInternetGateways(vpcs: Vpcs, internetGateways: seq<RawInternetGateway>) returns (r: Vpcs)
    ensures r == AppendAll(vpcs, InternetLinks(internetGateways))
  {
    r := vpcs;
    for i := 0 to |internetGateways|
      invariant r == AppendAll(vpcs, InternetLinks(internetGateways[..i]))
    {
      assert internetGateways[..i + 1][..i] == internetGateways[..i];
      var igw := internetGateways[i];
      ghost var done := InternetLinks(internetGateways[..i]);
      assert igw.attachments[..0] == [] && done + [] == done;
      for j := 0 to |igw.attachments|
        invariant r == AppendAll(vpcs, done + AttachmentLinks(Internet, igw.internetGatewayId, igw.attachments[..j]))
      {
        AttachmentStep(Internet, igw.internetGatewayId, igw.attachments, j, vpcs, done);
        var vpcId := igw.attachments[j].vpcId;
        if vpcId != "" {
          var vpc := VpcOrStub(r, vpcId);
          vpc := vpc.(gateways := vpc.gateways + [igw.internetGatewayId]);
          r := r[vpcId := vpc];
        }
      }
      assert igw.attachments[..|igw.attachments|] == igw.attachments;
    }
    assert internetGateways[..|internetGateways|] == internetGateways;
  }

  method MapEgressOnlyInternetGateways(vpcs: Vpcs, eoigws: seq<RawEgressOnlyInternetGateway>) returns (r: Vpcs)
    ensures r == AppendAll(vpcs, EgressOnlyLinks(eoigws))
  {
    r := vpcs;
    for i := 0 to |eoigws|
      invariant r == AppendAll(vpcs, EgressOnlyLinks(eoigws[..i]))
    {
      assert eoigws[..i + 1][..i] == eoigws[..i];
      var eoigw := eoigws[i];
      ghost var done := EgressOnlyLinks(eoigws[..i]);
      assert eoigw.attachments[..0] == [] && done + [] == done;
      for j := 0 to |eoigw.attachments|
        invariant r == AppendAll(vpcs, done + AttachmentLinks(EgressOnly, eoigw.egressOnlyInternetGatewayId, eoigw.attachments[..j]))
      {
        AttachmentStep(EgressOnly, eoigw.egressOnlyInternetGatewayId, eoigw.attachments, j, vpcs, done);
        var attach := eoigw.attachments[j];
        if attach.state == "attached" {
          var vpc := VpcOrStub(r, attach.vpcId);
          vpc := vpc.(gateways := vpc.gateways + [eoigw.egressOnlyInternetGatewayId]);
          r := r[attach.vpcId := vpc];
        }
      }
      assert eoigw.attachments[..|eoigw.attachments|] == eoigw.attachments;
    }
    assert eoigws[..|eoigws|] == eoigws;
  }

  method MapVpnGateways(vpcs: Vpcs, vpnGateways: seq<RawVpnGateway>) returns (r: Vpcs)
    ensures r == AppendAll(vpcs, VpnLinks(vpnGateways))
  {
    r := vpcs;
    for i := 0 to |vpnGateways|
      invariant r == AppendAll(vpcs, VpnLinks(vpnGateways[..i]))
    {
      assert vpnGateways[..i + 1][..i] == vpnGateways[..i];
      var vpgw := vpnGateways[i];
      ghost var done := VpnLinks(vpnGateways[..i]);
      assert vpgw.vpcAttachments[..0] == [] && done + [] == done;
      for j := 0 to |vpgw.vpcAttachments|
        invariant r == AppendAll(vpcs, done + AttachmentLinks(Vpn, vpgw.vpnGatewayId, vpgw.vpcAttachments[..j]))
      {
        AttachmentStep(Vpn, vpgw.vpnGatewayId, vpgw.vpcAttachments, j, vpcs, done);
        var attach := vpgw.vpcAttachments[j];
        if attach.state == "attached" {
          var vpc := VpcOrStub(r, attach.vpcId);
          vpc := vpc.(gateways := vpc.gateways + [vpgw.vpnGatewayId]);
          r := r[attach.vpcId := vpc];
        }
      }
      assert vpgw.vpcAttachments[..|vpgw.vpcAttachments|] == vpgw.vpcAttachments;
    }
    assert vpnGateways[..|vpnGateways|] == vpnGateways;
  }

  /**
   * The appends act VPC by VPC: a VPC ends up as it was (the zero VPC when
   * absent) with exactly the ids aimed at it appended, in order, and a key
   * is added only for a VPC some append aims at.
   */
  lemma {:induction false} AppendAllAt(m: Vpcs, links: seq<Link>, v: string)
    ensures v in AppendAll(m, links) <==> v in m || IdsFor(links, v) != []
    ensures VpcOrStub(AppendAll(m, links), v) ==
      VpcOrStub(m, v).(gateways := VpcOrStub(m, v).gateways + IdsFor(links, v))
  {
    if |links| > 0 {
      var p := links[..|links| - 1];
      AppendAllAt(m, p, v);
      var l := links[|links| - 1];
      if l.vpcId == v {
        assert IdsFor(links, v) == IdsFor(p, v) + [l.gatewayId];
      }
    }
  }

  lemma {:induction false} IdsForMembers(links: seq<Link>, v: string, x: string)
    ensures x in IdsFor(links, v) <==> Link(v, x) in links
  {
    if |links| > 0 {
      var p := links[..|links| - 1];
      IdsForMembers(p, v, x);
      assert forall l :: l in links <==> l in p || l == links[|links| - 1];
    }
  }

  lemma {:induction false} AttachmentLinksMembers(kind: GatewayKind, gatewayId: string, atts: seq<GatewayAttachment>, l: Link)
    ensures l in AttachmentLinks(kind, gatewayId, atts) <==>
      exists a :: a in atts && Appends(kind, a) && l == Link(a.vpcId, gatewayId)
  {
    if |atts| > 0 {
      var p := atts[..|atts| - 1];
      AttachmentLinksMembers(kind, gatewayId, p, l);
      assert forall a :: a in atts <==> a in p || a == atts[|atts| - 1];
    }
  }

  lemma {:induction false} InternetLinksMembers(igws: seq<RawInternetGateway>, l: Link)
    ensures l in InternetLinks(igws) <==>
      exists g, a :: g in igws && a in g.attachments && a.vpcId != "" && l == Link(a.vpcId, g.internetGatewayId)
  {
    if |igws| > 0 {
      var p := igws[..|igws| - 1];
      var g := igws[|igws| - 1];
      InternetLinksMembers(p, l);
      AttachmentLinksMembers(Internet, g.internetGatewayId, g.attachments, l);
      assert forall h :: h in igws <==> h in p || h == g;
    }
  }

  lemma {:induction false} EgressOnlyLinksMembers(gws: seq<RawEgressOnlyInternetGateway>, l: Link)
    ensures l in EgressOnlyLinks(gws) <==>
      exists g, a :: g in gws && a in g.attachments && a.state == "attached" && l == Link(a.vpcId, g.egressOnlyInternetGatewayId)
  {
    if |gws| > 0 {
      var p := gws[..|gws| - 1];
      var g := gws[|gws| - 1];
      EgressOnlyLinksMembers(p, l);
      AttachmentLinksMembers(EgressOnly, g.egressOnlyInternetGatewayId, g.attachments, l);
      assert forall h :: h in gws <==> h in p || h == g;
    }
  }

  lemma {:induction false} VpnLinksMembers(gws: seq<RawVpnGateway>, l: Link)
    ensures l in VpnLinks(gws) <==>
      exists g, a :: g in gws && a in g.vpcAttachments && a.state == "attached" && l == Link(a.vpcId, g.vpnGatewayId)
  {
    if |gws| > 0 {
      var p := gws[..|gws| - 1];
      var g := gws[|gws| - 1];
      VpnLinksMembers(p, l);
      AttachmentLinksMembers(Vpn, g.vpnGatewayId, g.vpcAttachments, l);
      assert forall h :: h in gws <==> h in p || h == g;
    }
  }

  /**
   * mapInternetGateways: each VPC keeps its fields and gains, in input
   * order, the ids of the gateways with an attachment naming it; an
   * attachment with an empty VPC id appends nothing.
   */
  lemma InternetGatewaysAt(m: Vpcs, igws: seq<RawInternetGateway>, v: string, x: string)
    ensures VpcOrStub(AppendAll(m, InternetLinks(igws)), v) ==
      VpcOrStub(m, v).(gateways := VpcOrStub(m, v).gateways + IdsFor(InternetLinks(igws), v))
    ensures x in IdsFor(InternetLinks(igws), v) <==>
      exists g, a :: g in igws && a in g.attachments && a.vpcId != "" && a.vpcId == v && x == g.internetGatewayId
  {
    AppendAllAt(m, InternetLinks(igws), v);
    IdsForMembers(InternetLinks(igws), v, x);
    InternetLinksMembers(igws, Link(v, x));
  }

  /** mapEgressOnlyInternetGateways appends an id for each attachment in state "attached", to the VPC it names. */
  lemma EgressOnlyGatewaysAt(m: Vpcs, gws: seq<RawEgressOnlyInternetGateway>, v: string, x: string)
    ensures VpcOrStub(AppendAll(m, EgressOnlyLinks(gws)), v) ==
      VpcOrStub(m, v).(gateways := VpcOrStub(m, v).gateways + IdsFor(EgressOnlyLinks(gws), v))
    ensures x in IdsFor(EgressOnlyLinks(gws), v) <==>
      exists g, a :: g in gws && a in g.attachments && a.state == "attached" && a.vpcId == v && x == g.egressOnlyInternetGatewayId
  {
    AppendAllAt(m, EgressOnlyLinks(gws), v);
    IdsForMembers(EgressOnlyLinks(gws), v, x);
    EgressOnlyLinksMembers(gws, Link(v, x));
  }

  /** mapVPNGateways appends an id for each VPC attachment in state "attached", to the VPC it names. */
  lemma VpnGatewaysAt(m: Vpcs, gws: seq<RawVpnGateway>, v: string, x: string)
    ensures VpcOrStub(AppendAll(m, VpnLinks(gws)), v) ==
      VpcOrStub(m, v).(gateways := VpcOrStub(m, v).gateways + IdsFor(VpnLinks(gws), v))
    ensures x in IdsFor(VpnLinks(gws), v) <==>
      exists g, a :: g in gws && a in g.vpcAttachments && a.state == "attached" && a.vpcId == v && x == g.vpnGatewayId
  {
    AppendAllAt(m, VpnLinks(gws), v);
    IdsForMembers(VpnLinks(gws), v, x);
    VpnLinksMembers(gws, Link(v, x));
  }
}
