/**
 * The older passes of cmd/vpc-ls.go that link subnets and VPCs to other
 * resources: mapTransitGatewayVpcAttachments and mapVpcPeeringConnections
 * (neither filters by owner or status), mapNetworkInterfaces (files every
 * unattached interface but NAT gateway ones as an ENI) and mapVpcEndpoints
 * (Interface endpoints per listed subnet; the Gateway branch only reads,
 * since its one write panics).
 */
module LegacyLinks {
  import opened Wrappers
  import opened Ec2
  import opened LegacyModel
  import MapLinks
  import MapInterfaces
  import MapEndpoints

  // ----------------------------------------- mapTransitGatewayVpcAttachments

  function NewTgw(t: RawTransitGatewayVpcAttachment): TgwAttachment
  {
    TgwAttachment(t.transitGatewayAttachmentId, t.transitGatewayId)
  }

  /** Whether an attachment, whoever owns it, is written into subnet `sid` of VPC `vid`. */
  predicate Attaches(t: RawTransitGatewayVpcAttachment, vid: string, sid: string)
  {
    t.vpcId == vid && vid != "" && sid != "" && sid in t.subnetIds
  }

  /** Every subnet an attachment with a VPC lists names a writable subnet (else the write panics). */
  predicate TgwsPlaceable(m: Vpcs, ts: seq<RawTransitGatewayVpcAttachment>)
  {
    forall t, sid :: t in ts && sid in t.subnetIds && t.vpcId != "" && sid != "" ==> Writable(m, t.vpcId, sid)
  }

  predicate SubnetIdsWritable(m: Vpcs, t: RawTransitGatewayVpcAttachment, sids: seq<string>)
  {
    forall sid :: sid in sids && sid != "" ==> Writable(m, t.vpcId, sid)
  }

  lemma SubnetIdsPrefix(m: Vpcs, t: RawTransitGatewayVpcAttachment, sids: seq<string>, j: int)
    requires SubnetIdsWritable(m, t, sids) && 0 <= j <= |sids|
    ensures SubnetIdsWritable(m, t, sids[..j])
  {
    assert forall x :: x in sids[..j] ==> x in sids;
  }

  lemma SubnetIdsLayout(a: Vpcs, b: Vpcs, t: RawTransitGatewayVpcAttachment, sids: seq<string>)
    requires SameLayout(a, b) && SubnetIdsWritable(b, t, sids)
    ensures SubnetIdsWritable(a, t, sids)
  {
    SameLayoutWritable(a, b);
  }

  function TgwTo(m: Vpcs, t: RawTransitGatewayVpcAttachment, sid: string): (r: Vpcs)
    requires Writable(m, t.vpcId, sid)
    ensures SameLayout(r, m)
  {
    var sub := m[t.vpcId].subnets[sid];
    WithSubnetLayout(m, t.vpcId, sid, sub.(tgws := sub.tgws[t.transitGatewayAttachmentId := NewTgw(t)]));
    WithSubnet(m, t.vpcId, sid, sub.(tgws := sub.tgws[t.transitGatewayAttachmentId := NewTgw(t)]))
  }

  /** The inner loop over the subnet ids of one attachment with a VPC. */
  function AttachmentSubnets(m: Vpcs, t: RawTransitGatewayVpcAttachment, sids: seq<string>): (r: Vpcs)
    requires SubnetIdsWritable(m, t, sids)
    ensures SameLayout(r, m)
  {
    if |sids| == 0 then m
    else
      var sid := sids[|sids| - 1];
      SubnetIdsPrefix(m, t, sids, |sids| - 1);
      var q := AttachmentSubnets(m, t, sids[..|sids| - 1]);
      if sid != "" then
        assert sid in sids;
        SameLayoutWritable(q, m);
        var r := TgwTo(q, t, sid);
        SameLayoutTransitive(r, q, m);
        r
      else q
  }

  function MappedTgws(m: Vpcs, ts: seq<RawTransitGatewayVpcAttachment>): (r: Vpcs)
    requires TgwsPlaceable(m, ts)
    ensures SameLayout(r, m)
  {
    if |ts| == 0 then m
    else
      var t := ts[|ts| - 1];
      TgwsInit(m, ts);
      var q := MappedTgws(m, ts[..|ts| - 1]);
      if t.vpcId != "" then
        SubnetIdsLayout(q, m, t, t.subnetIds);
        var r := AttachmentSubnets(q, t, t.subnetIds);
        SameLayoutTransitive(r, q, m);
        r
      else q
  }

  lemma TgwsInit(m: Vpcs, ts: seq<RawTransitGatewayVpcAttachment>)
    requires TgwsPlaceable(m, ts) && |ts| > 0
    ensures TgwsPlaceable(m, ts[..|ts| - 1])
    ensures ts[|ts| - 1].vpcId != "" ==> SubnetIdsWritable(m, ts[|ts| - 1], ts[|ts| - 1].subnetIds)
  {
    assert ts[|ts| - 1] in ts;
    forall y | y in ts[..|ts| - 1] ensures y in ts { }
  }

  lemma TgwsNext(m: Vpcs, ts: seq<RawTransitGatewayVpcAttachment>, i: int)
    requires TgwsPlaceable(m, ts) && 0 <= i < |ts|
    ensures TgwsPlaceable(m, ts[..i]) && TgwsPlaceable(m, ts[..i + 1])
    ensures ts[i].vpcId != "" ==> SubnetIdsWritable(MappedTgws(m, ts[..i]), ts[i], ts[i].subnetIds)
    ensures MappedTgws(m, ts[..i + 1]) ==
      if ts[i].vpcId != "" then AttachmentSubnets(MappedTgws(m, ts[..i]), ts[i], ts[i].subnetIds) else MappedTgws(m, ts[..i])
  {
    forall y | y in ts[..i + 1] ensures y in ts { }
    forall y | y in ts[..i] ensures y in ts { }
    assert ts[..i + 1][..i] == ts[..i];
    TgwsInit(m, ts[..i + 1]);
    if ts[i].vpcId != "" {
      SubnetIdsLayout(MappedTgws(m, ts[..i]), m, ts[i], ts[i].subnetIds);
    }
  }

  method MapTransitGatewayVpcAttachments(vpcs: Vpcs, attachments: seq<RawTransitGatewayVpcAttachment>) returns (r: Vpcs)
    requires TgwsPlaceable(vpcs, attachments)
    ensures r == MappedTgws(vpcs, attachments)
  {
    r := vpcs;
    for i := 0 to |attachments|
      invariant TgwsPlaceable(vpcs, attachments[..i]) && r == MappedTgws(vpcs, attachments[..i])
    {
      TgwsNext(vpcs, attachments, i);
      var tgwatt := attachments[i];
      var vpcId := tgwatt.vpcId;
      if vpcId != "" {
        r := MapAttachmentSubnets(r, tgwatt);
      }
    }
    assert attachments[..|attachments|] == attachments;
  }

  /** The inner loop of mapTransitGatewayVpcAttachments. */
  method MapAttachmentSubnets(vpcs: Vpcs, tgwatt: RawTransitGatewayVpcAttachment) returns (r: Vpcs)
    requires SubnetIdsWritable(vpcs, tgwatt, tgwatt.subnetIds)
    ensures r == AttachmentSubnets(vpcs, tgwatt, tgwatt.subnetIds)
  {
    var sids := tgwatt.subnetIds;
    r := vpcs;
    for j := 0 to |sids|
      invariant SubnetIdsWritable(vpcs, tgwatt, sids[..j]) && r == AttachmentSubnets(vpcs, tgwatt, sids[..j])
    {
      AttachmentSubnetsNext(vpcs, tgwatt, sids, j);
      var subnetId := sids[j];
      if subnetId != "" {
        var created := TgwAttachment(tgwatt.transitGatewayAttachmentId, tgwatt.transitGatewayId);
        var sub := r[tgwatt.vpcId].subnets[subnetId];
        r := r[tgwatt.vpcId := r[tgwatt.vpcId].(subnets := r[tgwatt.vpcId].subnets[subnetId :=
               sub.(tgws := sub.tgws[tgwatt.transitGatewayAttachmentId := created])])];
      }
    }
    assert sids[..|sids|] == sids;
  }

  lemma AttachmentSubnetsNext(m: Vpcs, t: RawTransitGatewayVpcAttachment, sids: seq<string>, j: int)
    requires SubnetIdsWritable(m, t, sids) && 0 <= j < |sids|
    ensures SubnetIdsWritable(m, t, sids[..j]) && SubnetIdsWritable(m, t, sids[..j + 1])
    ensures sids[j] != "" ==> Writable(AttachmentSubnets(m, t, sids[..j]), t.vpcId, sids[j])
    ensures AttachmentSubnets(m, t, sids[..j + 1]) ==
      if sids[j] != "" then TgwTo(AttachmentSubnets(m, t, sids[..j]), t, sids[j]) else AttachmentSubnets(m, t, sids[..j])
  {
    SubnetIdsPrefix(m, t, sids, j);
    SubnetIdsPrefix(m, t, sids, j + 1);
    assert sids[..j + 1][..j] == sids[..j];
    assert sids[j] in sids;
    SameLayoutWritable(AttachmentSubnets(m, t, sids[..j]), m);
  }

  /** What an attachment record adds to subnet `s` of VPC `v`. */
  function TgwAdded(t: RawTransitGatewayVpcAttachment, v: string, s: string): map<string, TgwAttachment>
  {
    if Attaches(t, v, s) then map[t.transitGatewayAttachmentId := NewTgw(t)] else map[]
  }

  /** The attachments that reach subnet `s` of `v`, keyed by attachment id; a later record replaces an earlier one. */
  function TgwsFor(ts: seq<RawTransitGatewayVpcAttachment>, v: string, s: string): map<string, TgwAttachment>
  {
    if |ts| == 0 then map[]
    else TgwsFor(ts[..|ts| - 1], v, s) + TgwAdded(ts[|ts| - 1], v, s)
  }

  lemma TgwToAt(m: Vpcs, t: RawTransitGatewayVpcAttachment, sid: string, v: string, s: string)
    requires Writable(m, t.vpcId, sid)
    requires v in m && s in m[v].subnets
    ensures TgwTo(m, t, sid)[v].(subnets := m[v].subnets) == m[v]
    ensures TgwTo(m, t, sid)[v].subnets[s] ==
      if t.vpcId == v && sid == s then m[v].subnets[s].(tgws := m[v].subnets[s].tgws[t.transitGatewayAttachmentId := NewTgw(t)])
      else m[v].subnets[s]
  {
    var sub := m[t.vpcId].subnets[sid];
    WithSubnetAt(m, t.vpcId, sid, sub.(tgws := sub.tgws[t.transitGatewayAttachmentId := NewTgw(t)]), v, s);
  }

  /** Writing the same entry again after a merge that may already hold it. */
  lemma AddAgain<V>(a: map<string, V>, k: string, x: V, c: bool)
    ensures (a + (if c then map[k := x] else map[]))[k := x] == a + map[k := x]
  {
    PlusOne(a, k, x);
    if c {
      PlusOne(a, k, x);
    } else {
      PlusNone(a);
    }
  }

  /**
   * One attachment's subnet loop, seen from subnet `s` of VPC `v`: it gains
   * the attachment exactly when the attachment lists it, and nothing else
   * changes.
   */
  lemma {:induction false} AttachmentSubnetsAt(m: Vpcs, t: RawTransitGatewayVpcAttachment, sids: seq<string>, v: string, s: string)
    requires SubnetIdsWritable(m, t, sids)
    requires v in m && s in m[v].subnets
    ensures AttachmentSubnets(m, t, sids)[v].(subnets := m[v].subnets) == m[v]
    ensures AttachmentSubnets(m, t, sids)[v].subnets[s] ==
      m[v].subnets[s].(tgws := m[v].subnets[s].tgws +
        if t.vpcId == v && s != "" && s in sids then map[t.transitGatewayAttachmentId := NewTgw(t)] else map[])
  {
    var before := m[v].subnets[s].tgws;
    var x := NewTgw(t);
    if |sids| == 0 {
      PlusNone(before);
    } else {
      var p := sids[..|sids| - 1];
      var sid := sids[|sids| - 1];
      SubnetIdsPrefix(m, t, sids, |sids| - 1);
      AttachmentSubnetsAt(m, t, p, v, s);
      var q := AttachmentSubnets(m, t, p);
      assert s in sids <==> s in p || s == sid;
      if sid != "" {
        assert sid in sids;
        SameLayoutWritable(q, m);
        TgwToAt(q, t, sid, v, s);
        if t.vpcId == v && sid == s {
          AddAgain(before, t.transitGatewayAttachmentId, x, t.vpcId == v && s != "" && s in p);
        }
      }
    }
  }

  /**
   * mapTransitGatewayVpcAttachments, per subnet: the subnet keeps all but
   * its TGWs, which gain exactly the attachments that reach it.
   */
  lemma {:induction false} MappedTgwsAt(m: Vpcs, ts: seq<RawTransitGatewayVpcAttachment>, v: string, s: string)
    requires TgwsPlaceable(m, ts)
    requires v in m && s in m[v].subnets
    ensures MappedTgws(m, ts)[v].(subnets := m[v].subnets) == m[v]
    ensures MappedTgws(m, ts)[v].subnets[s] == m[v].subnets[s].(tgws := m[v].subnets[s].tgws + TgwsFor(ts, v, s))
  {
    if |ts| == 0 {
      PlusNone(m[v].subnets[s].tgws);
    } else {
      var p := ts[..|ts| - 1];
      var t := ts[|ts| - 1];
      TgwsInit(m, ts);
      MappedTgwsAt(m, p, v, s);
      var q := MappedTgws(m, p);
      if t.vpcId != "" {
        SubnetIdsLayout(q, m, t, t.subnetIds);
        AttachmentSubnetsAt(q, t, t.subnetIds, v, s);
      } else {
        PlusNone(q[v].subnets[s].tgws);
      }
      PlusAssoc(m[v].subnets[s].tgws, TgwsFor(p, v, s), TgwAdded(t, v, s));
    }
  }

  /**
   * An attachment reaches a subnet exactly when its VPC is the subnet's and
   * it lists the subnet, whoever owns it; the entry is built from such a
   * record.
   */
  lemma {:induction false} TgwsForMembers(ts: seq<RawTransitGatewayVpcAttachment>, v: string, s: string, k: string)
    ensures k in TgwsFor(ts, v, s) ==>
      exists t :: t in ts && Attaches(t, v, s) && t.transitGatewayAttachmentId == k && TgwsFor(ts, v, s)[k] == NewTgw(t)
    ensures (exists t :: t in ts && Attaches(t, v, s) && t.transitGatewayAttachmentId == k) ==> k in TgwsFor(ts, v, s)
  {
    if |ts| > 0 {
      var p := ts[..|ts| - 1];
      TgwsForMembers(p, v, s, k);
      assert forall y :: y in ts <==> y in p || y == ts[|ts| - 1];
    }
  }

  /**
   * Against the current pass, which keeps only attachments owned by the
   * caller's account: every attachment id the current pass files under a
   * subnet the older one files too, the two agree when every attachment is
   * the caller's, and any extra one comes from an attachment of another
   * owner.
   */
  lemma TgwsAgainstCurrent(ts: seq<RawTransitGatewayVpcAttachment>, account: string, v: string, s: string, k: string)
    ensures k in MapLinks.TgwsFor(ts, account, v, s) ==> k in TgwsFor(ts, v, s)
    ensures (forall t :: t in ts ==> t.vpcOwnerId == account) ==>
      (k in MapLinks.TgwsFor(ts, account, v, s) <==> k in TgwsFor(ts, v, s))
    ensures k in TgwsFor(ts, v, s) && k !in MapLinks.TgwsFor(ts, account, v, s) ==>
      exists t :: t in ts && Attaches(t, v, s) && t.transitGatewayAttachmentId == k && t.vpcOwnerId != account
  {
    TgwsForMembers(ts, v, s, k);
    MapLinks.TgwsForMembers(ts, account, v, s, k);
    if k in MapLinks.TgwsFor(ts, account, v, s) {
      var t :| t in ts && MapLinks.AttachesTo(t, account, v, s) && t.transitGatewayAttachmentId == k;
      assert Attaches(t, v, s);
    }
    if k in TgwsFor(ts, v, s) {
      var t :| t in ts && Attaches(t, v, s) && t.transitGatewayAttachmentId == k;
      if t.vpcOwnerId == account {
        assert MapLinks.AttachesTo(t, account, v, s);
      }
    }
  }

  // ------------------------------------------------ mapVpcPeeringConnections

  function NewPeer(c: RawVpcPeeringConnection): VpcPeer
  {
    VpcPeer(c.vpcPeeringConnectionId, c.requesterVpcId, c.accepterVpcId)
  }

  /** Whether a connection, in any state, is written into VPC `vid`: one of its sides, non-empty. */
  predicate PeersWith(c: RawVpcPeeringConnection, vid: string)
  {
    vid != "" && (c.requesterVpcId == vid || c.accepterVpcId == vid)
  }

  /** A side the pass writes to has a Peers map (a zero VPC has none, and the write panics). */
  predicate SideWritable(m: Vpcs, vid: string)
  {
    vid != "" && vid in m ==> !m[vid].stub
  }

  predicate PeersPlaceable(m: Vpcs, cs: seq<RawVpcPeeringConnection>)
  {
    forall c :: c in cs ==> SideWritable(m, c.requesterVpcId) && SideWritable(m, c.accepterVpcId)
  }

  function PeerTo(m: Vpcs, vid: string, c: RawVpcPeeringConnection): (r: Vpcs)
    ensures SameLayout(r, m)
  {
    if vid != "" && vid in m then m[vid := m[vid].(peers := m[vid].peers[c.vpcPeeringConnectionId := NewPeer(c)])]
    else m
  }

  function PeerStep(m: Vpcs, c: RawVpcPeeringConnection): (r: Vpcs)
    ensures SameLayout(r, m)
  {
    var q := PeerTo(m, c.requesterVpcId, c);
    var r := PeerTo(q, c.accepterVpcId, c);
    SameLayoutTransitive(r, q, m);
    r
  }

  function MappedPeers(m: Vpcs, cs: seq<RawVpcPeeringConnection>): (r: Vpcs)
    ensures SameLayout(r, m)
  {
    if |cs| == 0 then m
    else
      var q := MappedPeers(m, cs[..|cs| - 1]);
      var r := PeerStep(q, cs[|cs| - 1]);
      SameLayoutTransitive(r, q, m);
      r
  }

  lemma MappedPeersNext(m: Vpcs, cs: seq<RawVpcPeeringConnection>, i: int)
    requires 0 <= i < |cs|
    ensures MappedPeers(m, cs[..i + 1]) == PeerStep(MappedPeers(m, cs[..i]), cs[i])
  {
    assert cs[..i + 1][..i] == cs[..i];
  }

  method MapVpcPeeringConnections(vpcs: Vpcs, connections: seq<RawVpcPeeringConnection>) returns (r: Vpcs)
    requires PeersPlaceable(vpcs, connections)
    ensures r == MappedPeers(vpcs, connections)
  {
    r := vpcs;
    for i := 0 to |connections|
      invariant r == MappedPeers(vpcs, connections[..i])
    {
      MappedPeersNext(vpcs, connections, i);
      r := MapVpcPeeringConnection(r, connections[i]);
    }
    assert connections[..|connections|] == connections;
  }

  /** The body of the connection loop, for one connection: both sides, when named and mapped. */
  method MapVpcPeeringConnection(vpcs: Vpcs, peer: RawVpcPeeringConnection) returns (r: Vpcs)
    ensures r == PeerStep(vpcs, peer)
  {
    r := vpcs;
    var created := VpcPeer(peer.vpcPeeringConnectionId, peer.requesterVpcId, peer.accepterVpcId);
    var requester := peer.requesterVpcId;
    if requester != "" {
      if requester in r {
        r := r[requester := r[requester].(peers := r[requester].peers[peer.vpcPeeringConnectionId := created])];
      }
    }
    assert r == PeerTo(vpcs, requester, peer);
    var accepter := peer.accepterVpcId;
    if accepter != "" {
      if accepter in r {
        r := r[accepter := r[accepter].(peers := r[accepter].peers[peer.vpcPeeringConnectionId := created])];
      }
    }
  }

  /** What a connection adds to the peers of VPC `v`. */
  function PeerAdded(c: RawVpcPeeringConnection, v: string): map<string, VpcPeer>
  {
    if PeersWith(c, v) then map[c.vpcPeeringConnectionId := NewPeer(c)] else map[]
  }

  /** The connections that reach VPC `v`, keyed by connection id; a later record replaces an earlier one. */
  function PeersFor(cs: seq<RawVpcPeeringConnection>, v: string): map<string, VpcPeer>
  {
    if |cs| == 0 then map[]
    else PeersFor(cs[..|cs| - 1], v) + PeerAdded(cs[|cs| - 1], v)
  }

  /** One connection's step, seen from VPC `v`: its peers gain the connection exactly when it names `v`. */
  lemma PeerStepAt(q: Vpcs, c: RawVpcPeeringConnection, v: string)
    requires v in q
    ensures PeerStep(q, c)[v] == q[v].(peers := q[v].peers + PeerAdded(c, v))
  {
    if PeersWith(c, v) {
      PlusOne(q[v].peers, c.vpcPeeringConnectionId, NewPeer(c));
    } else {
      PlusNone(q[v].peers);
    }
  }

  /**
   * mapVpcPeeringConnections, per VPC: no VPC is added, and a present VPC
   * keeps everything but its peers, which gain exactly the connections
   * naming it as requester or accepter, whatever their state.
   */
  lemma {:induction false} MappedPeersAt(m: Vpcs, cs: seq<RawVpcPeeringConnection>, v: string)
    ensures MappedPeers(m, cs).Keys == m.Keys
    ensures v in m ==> MappedPeers(m, cs)[v] == m[v].(peers := m[v].peers + PeersFor(cs, v))
  {
    if v in m {
      if |cs| == 0 {
        PlusNone(m[v].peers);
      } else {
        var p := cs[..|cs| - 1];
        MappedPeersAt(m, p, v);
        PeerStepAt(MappedPeers(m, p), cs[|cs| - 1], v);
        PlusAssoc(m[v].peers, PeersFor(p, v), PeerAdded(cs[|cs| - 1], v));
      }
    }
  }

  /** A connection reaches a VPC exactly when it names that VPC on either side; the entry is built from such a connection. */
  lemma {:induction false} PeersForMembers(cs: seq<RawVpcPeeringConnection>, v: string, k: string)
    ensures k in PeersFor(cs, v) ==>
      exists c :: c in cs && PeersWith(c, v) && c.vpcPeeringConnectionId == k && PeersFor(cs, v)[k] == NewPeer(c)
    ensures (exists c :: c in cs && PeersWith(c, v) && c.vpcPeeringConnectionId == k) ==> k in PeersFor(cs, v)
  {
    if |cs| > 0 {
      var p := cs[..|cs| - 1];
      PeersForMembers(p, v, k);
      assert forall y :: y in cs <==> y in p || y == cs[|cs| - 1];
    }
  }

  /**
   * Against the current pass, which keeps only active connections: every
   * connection id it files under a VPC the older one files too, the two
   * agree when every connection is active, and any extra one comes from a
   * connection in another state.
   */
  lemma PeersAgainstCurrent(cs: seq<RawVpcPeeringConnection>, v: string, k: string)
    ensures k in MapLinks.PeersFor(cs, v) ==> k in PeersFor(cs, v)
    ensures (forall c :: c in cs ==> MapLinks.Active(c)) ==> (k in MapLinks.PeersFor(cs, v) <==> k in PeersFor(cs, v))
    ensures k in PeersFor(cs, v) && k !in MapLinks.PeersFor(cs, v) ==>
      exists c :: c in cs && PeersWith(c, v) && c.vpcPeeringConnectionId == k && !MapLinks.Active(c)
  {
    PeersForMembers(cs, v, k);
    MapLinks.PeersForMembers(cs, v, k);
    if k in MapLinks.PeersFor(cs, v) {
      var c :| c in cs && MapLinks.PeersWith(c, v) && c.vpcPeeringConnectionId == k;
      assert PeersWith(c, v);
    }
    if k in PeersFor(cs, v) {
      var c :| c in cs && PeersWith(c, v) && c.vpcPeeringConnectionId == k;
      if MapLinks.Active(c) {
        assert MapLinks.PeersWith(c, v);
      }
    }
  }

  // ------------------------------------------------------ mapNetworkInterfaces

  /** An interface the pass files as an ENI: not attached to an instance, and not a NAT gateway's. */
  predicate FilesEni(x: RawNetworkInterface)
  {
    x.attachment.Some? && x.attachment.value == "" && x.interfaceType != "nat_gateway"
  }

  /**
   * Every interface carries an attachment record (the pass reads its
   * instance id first, and a missing one panics), and every interface it
   * files names a writable subnet.
   */
  predicate InterfacesPlaceable(m: Vpcs, xs: seq<RawNetworkInterface>)
  {
    forall x :: x in xs ==> x.attachment.Some? && (FilesEni(x) ==> Writable(m, x.vpcId, x.subnetId))
  }

  function NewEni(x: RawNetworkInterface): NetworkInterface
  {
    NetworkInterface(x.networkInterfaceId, x.privateIpAddress, x.macAddress, x.interfaceType, x.description, x.publicIp)
  }

  function EniStep(m: Vpcs, x: RawNetworkInterface): (r: Vpcs)
    requires FilesEni(x) ==> Writable(m, x.vpcId, x.subnetId)
    ensures SameLayout(r, m)
  {
    if FilesEni(x) then
      var sub := m[x.vpcId].subnets[x.subnetId];
      WithSubnetLayout(m, x.vpcId, x.subnetId, sub.(enis := sub.enis[x.networkInterfaceId := NewEni(x)]));
      WithSubnet(m, x.vpcId, x.subnetId, sub.(enis := sub.enis[x.networkInterfaceId := NewEni(x)]))
    else m
  }

  function MappedEnis(m: Vpcs, xs: seq<RawNetworkInterface>): (r: Vpcs)
    requires InterfacesPlaceable(m, xs)
    ensures SameLayout(r, m)
  {
    if |xs| == 0 then m
    else
      EnisInit(m, xs);
      var q := MappedEnis(m, xs[..|xs| - 1]);
      SameLayoutWritable(q, m);
      var r := EniStep(q, xs[|xs| - 1]);
      SameLayoutTransitive(r, q, m);
      r
  }

  lemma EnisInit(m: Vpcs, xs: seq<RawNetworkInterface>)
    requires InterfacesPlaceable(m, xs) && |xs| > 0
    ensures InterfacesPlaceable(m, xs[..|xs| - 1])
    ensures xs[|xs| - 1].attachment.Some?
    ensures FilesEni(xs[|xs| - 1]) ==> Writable(m, xs[|xs| - 1].vpcId, xs[|xs| - 1].subnetId)
  {
    assert xs[|xs| - 1] in xs;
    forall y | y in xs[..|xs| - 1] ensures y in xs { }
  }

  lemma EnisNext(m: Vpcs, xs: seq<RawNetworkInterface>, i: int)
    requires InterfacesPlaceable(m, xs) && 0 <= i < |xs|
    ensures InterfacesPlaceable(m, xs[..i]) && InterfacesPlaceable(m, xs[..i + 1])
    ensures xs[i].attachment.Some?
    ensures FilesEni(xs[i]) ==> Writable(MappedEnis(m, xs[..i]), xs[i].vpcId, xs[i].subnetId)
    ensures MappedEnis(m, xs[..i + 1]) == EniStep(MappedEnis(m, xs[..i]), xs[i])
  {
    assert xs[i] in xs;
    forall y | y in xs[..i + 1] ensures y in xs { }
    forall y | y in xs[..i] ensures y in xs { }
    assert xs[..i + 1][..i] == xs[..i];
    SameLayoutWritable(MappedEnis(m, xs[..i]), m);
  }

  method MapNetworkInterfaces(vpcs: Vpcs, networkInterfaces: seq<RawNetworkInterface>) returns (r: Vpcs)
    requires InterfacesPlaceable(vpcs, networkInterfaces)
    ensures r == MappedEnis(vpcs, networkInterfaces)
  {
    r := vpcs;
    for i := 0 to |networkInterfaces|
      invariant InterfacesPlaceable(vpcs, networkInterfaces[..i]) && r == MappedEnis(vpcs, networkInterfaces[..i])
    {
      EnisNext(vpcs, networkInterfaces, i);
      var iface := networkInterfaces[i];
      if iface.attachment.value != "" {
        continue;
      }
      if iface.interfaceType == "nat_gateway" {
        continue;
      }
      var created := NetworkInterface(iface.networkInterfaceId, iface.privateIpAddress, iface.macAddress,
                                      iface.interfaceType, iface.description, iface.publicIp);
      var sub := r[iface.vpcId].subnets[iface.subnetId];
      r := r[iface.vpcId := r[iface.vpcId].(subnets := r[iface.vpcId].subnets[iface.subnetId :=
             sub.(enis := sub.enis[iface.networkInterfaceId := created])])];
    }
    assert networkInterfaces[..|networkInterfaces|] == networkInterfaces;
  }

  /** What an interface record adds to the ENIs of subnet `s` of VPC `v`. */
  function EniAdded(x: RawNetworkInterface, v: string, s: string): map<string, NetworkInterface>
  {
    if FilesEni(x) && x.vpcId == v && x.subnetId == s then map[x.networkInterfaceId := NewEni(x)] else map[]
  }

  /** The interfaces filed under subnet `s` of `v`, by interface id; a later record replaces an earlier one. */
  function EnisFor(xs: seq<RawNetworkInterface>, v: string, s: string): map<string, NetworkInterface>
  {
    if |xs| == 0 then map[]
    else EnisFor(xs[..|xs| - 1], v, s) + EniAdded(xs[|xs| - 1], v, s)
  }

  lemma EniStepAt(m: Vpcs, x: RawNetworkInterface, v: string, s: string)
    requires FilesEni(x) ==> Writable(m, x.vpcId, x.subnetId)
    requires v in m && s in m[v].subnets
    ensures EniStep(m, x)[v].(subnets := m[v].subnets) == m[v]
    ensures EniStep(m, x)[v].subnets[s] == m[v].subnets[s].(enis := m[v].subnets[s].enis + EniAdded(x, v, s))
  {
    var enis := m[v].subnets[s].enis;
    if FilesEni(x) {
      var sub := m[x.vpcId].subnets[x.subnetId];
      WithSubnetAt(m, x.vpcId, x.subnetId, sub.(enis := sub.enis[x.networkInterfaceId := NewEni(x)]), v, s);
    }
    if FilesEni(x) && x.vpcId == v && x.subnetId == s {
      PlusOne(enis, x.networkInterfaceId, NewEni(x));
      assert enis + EniAdded(x, v, s) == enis[x.networkInterfaceId := NewEni(x)];
    } else {
      PlusNone(enis);
      assert enis + EniAdded(x, v, s) == enis;
    }
  }

  /** mapNetworkInterfaces adds to each subnet's ENIs exactly the interfaces filed for it, and changes nothing else. */
  lemma {:induction false} MappedEnisAt(m: Vpcs, xs: seq<RawNetworkInterface>, v: string, s: string)
    requires InterfacesPlaceable(m, xs) && v in m && s in m[v].subnets
    ensures MappedEnis(m, xs)[v].(subnets := m[v].subnets) == m[v]
    ensures MappedEnis(m, xs)[v].subnets[s] == m[v].subnets[s].(enis := m[v].subnets[s].enis + EnisFor(xs, v, s))
  {
    if |xs| == 0 {
      PlusNone(m[v].subnets[s].enis);
    } else {
      EnisInit(m, xs);
      var p := xs[..|xs| - 1];
      var q := MappedEnis(m, p);
      MappedEnisAt(m, p, v, s);
      SameLayoutWritable(q, m);
      EniStepAt(q, xs[|xs| - 1], v, s);
      PlusAssoc(m[v].subnets[s].enis, EnisFor(p, v, s), EniAdded(xs[|xs| - 1], v, s));
    }
  }

  /**
   * An interface id is filed under a subnet exactly when some unattached,
   * non-NAT interface of that subnet has it, and its entry is built from
   * such an interface.
   */
  lemma {:induction false} EnisForMembers(xs: seq<RawNetworkInterface>, v: string, s: string, k: string)
    ensures k in EnisFor(xs, v, s) <==>
      exists x :: x in xs && FilesEni(x) && x.vpcId == v && x.subnetId == s && x.networkInterfaceId == k
    ensures k in EnisFor(xs, v, s) ==>
      exists x :: x in xs && FilesEni(x) && x.vpcId == v && x.subnetId == s && x.networkInterfaceId == k &&
        EnisFor(xs, v, s)[k] == NewEni(x)
  {
    if |xs| > 0 {
      var p := xs[..|xs| - 1];
      EnisForMembers(p, v, s, k);
      assert forall y :: y in xs <==> y in p || y == xs[|xs| - 1];
    }
  }

  /**
   * Against the current pass, which sends VPC-endpoint interfaces to their
   * endpoints: with every interface carrying an attachment record, every
   * interface id the current pass files as an ENI of a subnet the older one
   * files too, the two agree when no interface belongs to a VPC endpoint,
   * and any extra one is a VPC endpoint's.
   */
  lemma EnisAgainstCurrent(xs: seq<RawNetworkInterface>, v: string, s: string, k: string)
    requires forall x :: x in xs ==> x.attachment.Some?
    ensures k in MapInterfaces.EnisFor(xs, v, s) ==> k in EnisFor(xs, v, s)
    ensures (forall x :: x in xs ==> x.interfaceType != "vpc_endpoint") ==>
      (k in MapInterfaces.EnisFor(xs, v, s) <==> k in EnisFor(xs, v, s))
    ensures k in EnisFor(xs, v, s) && k !in MapInterfaces.EnisFor(xs, v, s) ==>
      exists x :: x in xs && x.interfaceType == "vpc_endpoint" && x.vpcId == v && x.subnetId == s && x.networkInterfaceId == k
  {
    EnisForMembers(xs, v, s, k);
    MapInterfaces.EnisForMembers(xs, v, s, k);
    if k in MapInterfaces.EnisFor(xs, v, s) {
      var x :| x in xs && MapInterfaces.DispositionOf(x) == MapInterfaces.ToSubnet && x.vpcId == v && x.subnetId == s &&
        x.networkInterfaceId == k;
      assert FilesEni(x);
    }
    if k in EnisFor(xs, v, s) {
      var x :| x in xs && FilesEni(x) && x.vpcId == v && x.subnetId == s && x.networkInterfaceId == k;
      if x.interfaceType != "vpc_endpoint" {
        assert MapInterfaces.DispositionOf(x) == MapInterfaces.ToSubnet;
      }
    }
  }

  /**
   * The older pass reads the instance id of an interface's attachment
   * record without checking that there is one, so any list holding an
   * unattached interface (no attachment record) panics.
   */
  lemma UnattachedInterfacePanics(m: Vpcs, xs: seq<RawNetworkInterface>, x: RawNetworkInterface)
    requires x in xs && x.attachment.None?
    ensures !InterfacesPlaceable(m, xs)
  {
    assert !(x.attachment.Some? && (FilesEni(x) ==> Writable(m, x.vpcId, x.subnetId)));
  }

  /**
   * The current pass checks for the attachment record first: an
   * unattached interface that is neither a NAT gateway's nor a VPC
   * endpoint's is filed as an ENI of its subnet.
   */
  lemma UnattachedInterfaceFiled(xs: seq<RawNetworkInterface>, x: RawNetworkInterface)
    requires x in xs && x.attachment.None?
    requires x.interfaceType != "nat_gateway" && x.interfaceType != "vpc_endpoint"
    ensures x.networkInterfaceId in MapInterfaces.EnisFor(xs, x.vpcId, x.subnetId)
  {
    MapInterfaces.EnisForMembers(xs, x.vpcId, x.subnetId, x.networkInterfaceId);
    assert MapInterfaces.DispositionOf(x) == MapInterfaces.ToSubnet;
  }

  // ----------------------------------------------------------- mapVpcEndpoints

  function NewInterfaceEndpoint(e: RawVpcEndpoint): InterfaceEndpoint
  {
    InterfaceEndpoint(e.vpcEndpointId, e.serviceName)
  }

  /** Every subnet an Interface endpoint lists names a writable subnet of its VPC (the pass checks nothing). */
  predicate EndpointSubnetsWritable(m: Vpcs, e: RawVpcEndpoint, sids: seq<string>)
  {
    forall sid :: sid in sids ==> Writable(m, e.vpcId, sid)
  }

  /**
   * A Gateway endpoint's loop over the subnets of its VPC survives: each of
   * them has a route table (else reading its id panics) and none of them
   * uses one of the endpoint's tables (else the write into the never-made
   * GatewayEndpoints map panics).
   */
  predicate GatewaySafe(m: Vpcs, e: RawVpcEndpoint)
  {
    e.vpcId in m ==>
      forall rtb, k :: rtb in e.routeTableIds && k in m[e.vpcId].subnets ==>
        m[e.vpcId].subnets[k].routeTable.Some? && m[e.vpcId].subnets[k].routeTable.value.id != rtb
  }

  predicate EndpointPlaceable(m: Vpcs, e: RawVpcEndpoint)
  {
    && (MapEndpoints.IsInterface(e) ==> EndpointSubnetsWritable(m, e, e.subnetIds))
    && (MapEndpoints.IsGateway(e) ==> GatewaySafe(m, e))
  }

  predicate EndpointsPlaceable(m: Vpcs, es: seq<RawVpcEndpoint>)
  {
    forall e :: e in es ==> EndpointPlaceable(m, e)
  }

  /** The same layout and the same route table in every subnet. */
  predicate SameTables(a: Vpcs, b: Vpcs)
  {
    SameLayout(a, b) &&
    forall v, s :: v in a && s in a[v].subnets ==> a[v].subnets[s].routeTable == b[v].subnets[s].routeTable
  }

  lemma SameTablesTransitive(a: Vpcs, b: Vpcs, c: Vpcs)
    requires SameTables(a, b) && SameTables(b, c)
    ensures SameTables(a, c)
  {
    SameLayoutTransitive(a, b, c);
  }

  /** Nothing an endpoint needs of the map changes while only endpoints are written. */
  lemma SameTablesPlaceable(a: Vpcs, b: Vpcs, e: RawVpcEndpoint)
    requires SameTables(a, b) && EndpointPlaceable(b, e)
    ensures EndpointPlaceable(a, e)
  {
    SameLayoutWritable(a, b);
  }

  function EndpointTo(m: Vpcs, e: RawVpcEndpoint, sid: string): (r: Vpcs)
    requires Writable(m, e.vpcId, sid)
    ensures SameTables(r, m)
  {
    var sub := m[e.vpcId].subnets[sid];
    var x := sub.(interfaceEndpoints := sub.interfaceEndpoints[e.vpcEndpointId := NewInterfaceEndpoint(e)]);
    WithSubnetLayout(m, e.vpcId, sid, x);
    var r := WithSubnet(m, e.vpcId, sid, x);
    assert forall v, s :: v in r && s in r[v].subnets ==> r[v].subnets[s].routeTable == m[v].subnets[s].routeTable by {
      forall v, s | v in r && s in r[v].subnets
        ensures r[v].subnets[s].routeTable == m[v].subnets[s].routeTable
      {
        WithSubnetAt(m, e.vpcId, sid, x, v, s);
      }
    }
    r
  }

  /** The subnet loop of one Interface endpoint. */
  function EndpointSubnets(m: Vpcs, e: RawVpcEndpoint, sids: seq<string>): (r: Vpcs)
    requires EndpointSubnetsWritable(m, e, sids)
    ensures SameTables(r, m)
  {
    if |sids| == 0 then m
    else
      EndpointSubnetsPrefix(m, e, sids, |sids| - 1);
      var q := EndpointSubnets(m, e, sids[..|sids| - 1]);
      assert sids[|sids| - 1] in sids;
      SameLayoutWritable(q, m);
      var r := EndpointTo(q, e, sids[|sids| - 1]);
      SameTablesTransitive(r, q, m);
      r
  }

  lemma EndpointSubnetsPrefix(m: Vpcs, e: RawVpcEndpoint, sids: seq<string>, j: int)
    requires EndpointSubnetsWritable(m, e, sids) && 0 <= j <= |sids|
    ensures EndpointSubnetsWritable(m, e, sids[..j])
  {
    assert forall x :: x in sids[..j] ==> x in sids;
  }

  /** One endpoint: an Interface endpoint is written per subnet; a Gateway endpoint, which survives, writes nothing. */
  function EndpointStep(m: Vpcs, e: RawVpcEndpoint): (r: Vpcs)
    requires EndpointPlaceable(m, e)
    ensures SameTables(r, m)
  {
    if MapEndpoints.IsInterface(e) then EndpointSubnets(m, e, e.subnetIds) else m
  }

  function MappedEndpoints(m: Vpcs, es: seq<RawVpcEndpoint>): (r: Vpcs)
    requires EndpointsPlaceable(m, es)
    ensures SameTables(r, m)
  {
    if |es| == 0 then m
    else
      EndpointsInit(m, es);
      var q := MappedEndpoints(m, es[..|es| - 1]);
      SameTablesPlaceable(q, m, es[|es| - 1]);
      var r := EndpointStep(q, es[|es| - 1]);
      SameTablesTransitive(r, q, m);
      r
  }

  lemma EndpointsInit(m: Vpcs, es: seq<RawVpcEndpoint>)
    requires EndpointsPlaceable(m, es) && |es| > 0
    ensures EndpointsPlaceable(m, es[..|es| - 1]) && EndpointPlaceable(m, es[|es| - 1])
  {
    assert es[|es| - 1] in es;
    forall y | y in es[..|es| - 1] ensures y in es { }
  }

  lemma EndpointsNext(m: Vpcs, es: seq<RawVpcEndpoint>, i: int)
    requires EndpointsPlaceable(m, es) && 0 <= i < |es|
    ensures EndpointsPlaceable(m, es[..i]) && EndpointsPlaceable(m, es[..i + 1])
    ensures EndpointPlaceable(MappedEndpoints(m, es[..i]), es[i])
    ensures MappedEndpoints(m, es[..i + 1]) == EndpointStep(MappedEndpoints(m, es[..i]), es[i])
  {
    forall y | y in es[..i + 1] ensures y in es { }
    forall y | y in es[..i] ensures y in es { }
    assert es[..i + 1][..i] == es[..i];
    EndpointsInit(m, es[..i + 1]);
    SameTablesPlaceable(MappedEndpoints(m, es[..i]), m, es[i]);
  }

  method MapVpcEndpoints(vpcs: Vpcs, vpcEndpoints: seq<RawVpcEndpoint>) returns (r: Vpcs)
    requires EndpointsPlaceable(vpcs, vpcEndpoints)
    ensures r == MappedEndpoints(vpcs, vpcEndpoints)
  {
    r := vpcs;
    for i := 0 to |vpcEndpoints|
      invariant EndpointsPlaceable(vpcs, vpcEndpoints[..i]) && r == MappedEndpoints(vpcs, vpcEndpoints[..i])
    {
      EndpointsNext(vpcs, vpcEndpoints, i);
      r := MapVpcEndpoint(r, vpcEndpoints[i]);
    }
    assert vpcEndpoints[..|vpcEndpoints|] == vpcEndpoints;
  }

  /** The body of the endpoint loop, for one endpoint. */
  method MapVpcEndpoint(vpcs: Vpcs, endpoint: RawVpcEndpoint) returns (r: Vpcs)
    requires EndpointPlaceable(vpcs, endpoint)
    ensures r == EndpointStep(vpcs, endpoint)
  {
    r := vpcs;
    if endpoint.vpcEndpointType == "Interface" {
      var sids := endpoint.subnetIds;
      for j := 0 to |sids|
        invariant EndpointSubnetsWritable(vpcs, endpoint, sids[..j]) && r == EndpointSubnets(vpcs, endpoint, sids[..j])
      {
        EndpointSubnetsNext(vpcs, endpoint, sids, j);
        var created := InterfaceEndpoint(endpoint.vpcEndpointId, endpoint.serviceName);
        var sub := r[endpoint.vpcId].subnets[sids[j]];
        r := r[endpoint.vpcId := r[endpoint.vpcId].(subnets := r[endpoint.vpcId].subnets[sids[j] :=
               sub.(interfaceEndpoints := sub.interfaceEndpoints[endpoint.vpcEndpointId := created])])];
      }
      assert sids[..|sids|] == sids;
    }
    if endpoint.vpcEndpointType == "Gateway" {
      var rtbs := endpoint.routeTableIds;
      var subnets := if endpoint.vpcId in r then r[endpoint.vpcId].subnets else map[];
      for j := 0 to |rtbs| {
        var rtb := rtbs[j];
        assert rtb in rtbs;
        var keys := subnets.Keys;
        while keys != {}
          invariant keys <= subnets.Keys
          decreases keys
        {
          var k :| k in keys;
          var subnet := subnets[k];
          if subnet.routeTable.None? {
            // reading the id of a missing route table
            assert false;
          } else if subnet.routeTable.value.id == rtb {
            // writing into the subnet's GatewayEndpoints, a nil map
            assert false;
          }
          keys := keys - {k};
        }
      }
    }
  }

  lemma EndpointSubnetsNext(m: Vpcs, e: RawVpcEndpoint, sids: seq<string>, j: int)
    requires EndpointSubnetsWritable(m, e, sids) && 0 <= j < |sids|
    ensures EndpointSubnetsWritable(m, e, sids[..j]) && EndpointSubnetsWritable(m, e, sids[..j + 1])
    ensures Writable(EndpointSubnets(m, e, sids[..j]), e.vpcId, sids[j])
    ensures EndpointSubnets(m, e, sids[..j + 1]) == EndpointTo(EndpointSubnets(m, e, sids[..j]), e, sids[j])
  {
    EndpointSubnetsPrefix(m, e, sids, j);
    EndpointSubnetsPrefix(m, e, sids, j + 1);
    assert sids[..j + 1][..j] == sids[..j];
    assert sids[j] in sids;
    SameLayoutWritable(EndpointSubnets(m, e, sids[..j]), m);
  }

  /** What an endpoint record adds to the Interface endpoints of subnet `s` of VPC `v`. */
  function EndpointAdded(e: RawVpcEndpoint, v: string, s: string): map<string, InterfaceEndpoint>
  {
    if MapEndpoints.IsInterface(e) && e.vpcId == v && s in e.subnetIds then map[e.vpcEndpointId := NewInterfaceEndpoint(e)]
    else map[]
  }

  /** The Interface endpoints that reach subnet `s` of `v`, by endpoint id; a later record replaces an earlier one. */
  function InterfaceEndpointsFor(es: seq<RawVpcEndpoint>, v: string, s: string): map<string, InterfaceEndpoint>
  {
    if |es| == 0 then map[]
    else InterfaceEndpointsFor(es[..|es| - 1], v, s) + EndpointAdded(es[|es| - 1], v, s)
  }

  lemma EndpointToAt(m: Vpcs, e: RawVpcEndpoint, sid: string, v: string, s: string)
    requires Writable(m, e.vpcId, sid)
    requires v in m && s in m[v].subnets
    ensures EndpointTo(m, e, sid)[v].(subnets := m[v].subnets) == m[v]
    ensures EndpointTo(m, e, sid)[v].subnets[s] ==
      if e.vpcId == v && sid == s
      then m[v].subnets[s].(interfaceEndpoints := m[v].subnets[s].interfaceEndpoints[e.vpcEndpointId := NewInterfaceEndpoint(e)])
      else m[v].subnets[s]
  {
    var sub := m[e.vpcId].subnets[sid];
    WithSubnetAt(m, e.vpcId, sid, sub.(interfaceEndpoints := sub.interfaceEndpoints[e.vpcEndpointId := NewInterfaceEndpoint(e)]), v, s);
  }

  /** One Interface endpoint's subnet loop, seen from subnet `s` of VPC `v`. */
  lemma {:induction false} EndpointSubnetsAt(m: Vpcs, e: RawVpcEndpoint, sids: seq<string>, v: string, s: string)
    requires EndpointSubnetsWritable(m, e, sids)
    requires v in m && s in m[v].subnets
    ensures EndpointSubnets(m, e, sids)[v].(subnets := m[v].subnets) == m[v]
    ensures EndpointSubnets(m, e, sids)[v].subnets[s] ==
      m[v].subnets[s].(interfaceEndpoints := m[v].subnets[s].interfaceEndpoints +
        if e.vpcId == v && s in sids then map[e.vpcEndpointId := NewInterfaceEndpoint(e)] else map[])
  {
    var before := m[v].subnets[s].interfaceEndpoints;
    if |sids| == 0 {
      PlusNone(before);
    } else {
      var p := sids[..|sids| - 1];
      var sid := sids[|sids| - 1];
      EndpointSubnetsPrefix(m, e, sids, |sids| - 1);
      EndpointSubnetsAt(m, e, p, v, s);
      var q := EndpointSubnets(m, e, p);
      assert s in sids <==> s in p || s == sid;
      assert sid in sids;
      SameLayoutWritable(q, m);
      EndpointToAt(q, e, sid, v, s);
      if e.vpcId == v && sid == s {
        AddAgain(before, e.vpcEndpointId, NewInterfaceEndpoint(e), e.vpcId == v && s in p);
      }
    }
  }

  /** One endpoint's step, seen from subnet `s` of VPC `v`. */
  lemma EndpointStepAt(m: Vpcs, e: RawVpcEndpoint, v: string, s: string)
    requires EndpointPlaceable(m, e)
    requires v in m && s in m[v].subnets
    ensures EndpointStep(m, e)[v].(subnets := m[v].subnets) == m[v]
    ensures EndpointStep(m, e)[v].subnets[s] ==
      m[v].subnets[s].(interfaceEndpoints := m[v].subnets[s].interfaceEndpoints + EndpointAdded(e, v, s))
  {
    if MapEndpoints.IsInterface(e) {
      EndpointSubnetsAt(m, e, e.subnetIds, v, s);
    } else {
      PlusNone(m[v].subnets[s].interfaceEndpoints);
    }
  }

  /**
   * mapVpcEndpoints, per subnet, on input it survives: the subnet keeps all
   * but its Interface endpoints, including its route table and its ENIs,
   * and those gain exactly the Interface endpoints that list it.
   */
  lemma {:induction false} MappedEndpointsAt(m: Vpcs, es: seq<RawVpcEndpoint>, v: string, s: string)
    requires EndpointsPlaceable(m, es) && v in m && s in m[v].subnets
    ensures MappedEndpoints(m, es)[v].(subnets := m[v].subnets) == m[v]
    ensures MappedEndpoints(m, es)[v].subnets[s] ==
      m[v].subnets[s].(interfaceEndpoints := m[v].subnets[s].interfaceEndpoints + InterfaceEndpointsFor(es, v, s))
  {
    if |es| == 0 {
      PlusNone(m[v].subnets[s].interfaceEndpoints);
    } else {
      EndpointsInit(m, es);
      var p := es[..|es| - 1];
      var q := MappedEndpoints(m, p);
      MappedEndpointsAt(m, p, v, s);
      SameTablesPlaceable(q, m, es[|es| - 1]);
      EndpointStepAt(q, es[|es| - 1], v, s);
      PlusAssoc(m[v].subnets[s].interfaceEndpoints, InterfaceEndpointsFor(p, v, s), EndpointAdded(es[|es| - 1], v, s));
    }
  }

  /** An endpoint id reaches a subnet exactly when an Interface endpoint of its VPC lists it; the entry is built from such an endpoint. */
  lemma {:induction false} InterfaceEndpointsForMembers(es: seq<RawVpcEndpoint>, v: string, s: string, k: string)
    ensures k in InterfaceEndpointsFor(es, v, s) <==>
      exists e :: e in es && MapEndpoints.IsInterface(e) && e.vpcId == v && s in e.subnetIds && e.vpcEndpointId == k
    ensures k in InterfaceEndpointsFor(es, v, s) ==>
      exists e :: e in es && MapEndpoints.IsInterface(e) && e.vpcId == v && s in e.subnetIds && e.vpcEndpointId == k &&
        InterfaceEndpointsFor(es, v, s)[k] == NewInterfaceEndpoint(e)
  {
    if |es| > 0 {
      var p := es[..|es| - 1];
      InterfaceEndpointsForMembers(p, v, s, k);
      assert forall y :: y in es <==> y in p || y == es[|es| - 1];
    }
  }

  /**
   * Against the current pass, which files an Interface endpoint only under
   * VPCs and subnets it has discovered: what the current pass files the
   * older one files too, and the two agree for a discovered VPC and subnet.
   */
  lemma InterfaceEndpointsAgainstCurrent(es: seq<RawVpcEndpoint>, vpcIds: set<string>, subnetIds: set<string>,
                                         v: string, s: string, k: string)
    ensures k in MapEndpoints.InterfaceEndpointsFor(es, vpcIds, subnetIds, v, s) ==> k in InterfaceEndpointsFor(es, v, s)
    ensures v in vpcIds && s in subnetIds ==>
      (k in MapEndpoints.InterfaceEndpointsFor(es, vpcIds, subnetIds, v, s) <==> k in InterfaceEndpointsFor(es, v, s))
  {
    InterfaceEndpointsForMembers(es, v, s, k);
    MapEndpoints.InterfaceEndpointsForMembers(es, vpcIds, subnetIds, v, s, k);
    if k in MapEndpoints.InterfaceEndpointsFor(es, vpcIds, subnetIds, v, s) {
      var e :| e in es && MapEndpoints.InterfaceReaches(e, vpcIds, subnetIds, v, s) && e.vpcEndpointId == k;
      assert MapEndpoints.IsInterface(e) && e.vpcId == v && s in e.subnetIds;
    }
    if k in InterfaceEndpointsFor(es, v, s) && v in vpcIds && s in subnetIds {
      var e :| e in es && MapEndpoints.IsInterface(e) && e.vpcId == v && s in e.subnetIds && e.vpcEndpointId == k;
      assert MapEndpoints.InterfaceReaches(e, vpcIds, subnetIds, v, s);
    }
  }

  /**
   * The older Gateway branch cannot file anything: a Gateway endpoint with
   * a route table, in a VPC holding a subnet that has no route table or
   * uses one of the endpoint's tables, makes the pass panic.
   */
  lemma GatewayEndpointPanics(m: Vpcs, es: seq<RawVpcEndpoint>, e: RawVpcEndpoint, k: string)
    requires e in es && MapEndpoints.IsGateway(e) && |e.routeTableIds| > 0
    requires e.vpcId in m && k in m[e.vpcId].subnets
    requires m[e.vpcId].subnets[k].routeTable.None? || m[e.vpcId].subnets[k].routeTable.value.id in e.routeTableIds
    ensures !EndpointsPlaceable(m, es)
  {
    var sub := m[e.vpcId].subnets[k];
    var rtb := if sub.routeTable.None? then e.routeTableIds[0] else sub.routeTable.value.id;
    assert rtb in e.routeTableIds;
    assert !GatewaySafe(m, e);
  }

  /** The smallest such input: one VPC, one subnet on table "rtb-1", one Gateway endpoint for that table. */
  lemma GatewayEndpointExample()
    ensures var sub := StubSubnet.(id := "subnet-1", routeTable := Some(RouteTable("rtb-1", "local")), stub := false);
      var m := map["vpc-1" := StubVpc.(id := "vpc-1", subnets := map["subnet-1" := sub], stub := false)];
      var e := RawVpcEndpoint("vpce-1", "Gateway", "vpc-1", "com.amazonaws.us-east-1.s3", [], ["rtb-1"], [], []);
      !EndpointsPlaceable(m, [e])
  {
    var sub := StubSubnet.(id := "subnet-1", routeTable := Some(RouteTable("rtb-1", "local")), stub := false);
    var m := map["vpc-1" := StubVpc.(id := "vpc-1", subnets := map["subnet-1" := sub], stub := false)];
    var e := RawVpcEndpoint("vpce-1", "Gateway", "vpc-1", "com.amazonaws.us-east-1.s3", [], ["rtb-1"], [], []);
    GatewayEndpointPanics(m, [e], e, "subnet-1");
  }
}
