/**
 * mapTransitGatewayVpcAttachments and mapVpcPeeringConnections
 * (mappings.go): the links of a VPC to transit gateways (per subnet) and to
 * other VPCs.
 */
module MapLinks {
  import opened Ec2
  import opened Model
  import opened MapBase

  // ----------------------------------------- mapTransitGatewayVpcAttachments

  /** Only attachments owned by the caller's account and naming a VPC are mapped. */
  predicate KeepsAttachment(t: RawTransitGatewayVpcAttachment, account: string)
  {
    t.vpcOwnerId == account && t.vpcId != ""
  }

  function NewTgw(t: RawTransitGatewayVpcAttachment): TgwAttachment
  {
    TgwAttachment(t.transitGatewayAttachmentId, t.transitGatewayId, NameTag(t.tags))
  }

  /** Whether a kept attachment is written into subnet `sid` of VPC `vid`. */
  predicate AttachesTo(t: RawTransitGatewayVpcAttachment, account: string, vid: string, sid: string)
  {
    KeepsAttachment(t, account) && t.vpcId == vid && sid != "" && sid in t.subnetIds
  }

  /** Every subnet a kept attachment lists names a writable subnet of its VPC (else the write panics). */
  predicate TgwsPlaceable(m: Vpcs, ts: seq<RawTransitGatewayVpcAttachment>, account: string)
  {
    forall t, sid :: t in ts && sid in t.subnetIds && AttachesTo(t, account, t.vpcId, sid) ==> Writable(m, t.vpcId, sid)
  }

  function TgwTo(m: Vpcs, t: RawTransitGatewayVpcAttachment, sid: string): (r: Vpcs)
    requires Writable(m, t.vpcId, sid)
    ensures SameLayout(r, m)
  {
    var sub := m[t.vpcId].subnets[sid];
    WithSubnet(m, t.vpcId, sid, sub.(tgws := sub.tgws[t.transitGatewayAttachmentId := NewTgw(t)]))
  }

  /** The inner loop over the subnet ids of one kept attachment. */
  function AttachmentSubnets(m: Vpcs, t: RawTransitGatewayVpcAttachment, sids: seq<string>): (r: Vpcs)
    requires SubnetIdsWritable(m, t, sids)
    ensures SameLayout(r, m)
  {
    if |sids| == 0 then m
    else
      var sid := sids[|sids| - 1];
      SubnetIdsPrefix(m, t, sids, |sids| - 1);
      var q := AttachmentSubnets(m, t, sids[..|sids| - 1]);
      if sid != "" then
        assert sid in sids;
        SameLayoutWritableAt(q, m, t.vpcId, sid);
        TgwTo(q, t, sid)
      else q
  }

  predicate SubnetIdsWritable(m: Vpcs, t: RawTransitGatewayVpcAttachment, sids: seq<string>)
  {
    forall sid :: sid in sids && sid != "" ==> Writable(m, t.vpcId, sid)
  }

  lemma SubnetIdsPrefix(m: Vpcs, t: RawTransitGatewayVpcAttachment, sids: seq<string>, j: int)
    requires SubnetIdsWritable(m, t, sids) && 0 <= j <= |sids|
    ensures SubnetIdsWritable(m, t, sids[..j])
  {
    assert forall x :: x in sids[..j] ==> x in sids;
  }

  function MappedTgws(m: Vpcs, ts: seq<RawTransitGatewayVpcAttachment>, account: string): (r: Vpcs)
    requires TgwsPlaceable(m, ts, account)
    ensures SameLayout(r, m)
  {
    if |ts| == 0 then m
    else
      var t := ts[|ts| - 1];
      TgwsPlaceablePrefix(m, ts, account);
      var q := MappedTgws(m, ts[..|ts| - 1], account);
      if KeepsAttachment(t, account) then
        TgwsPlaceableLast(m, q, ts, account, t);
        AttachmentSubnets(q, t, t.subnetIds)
      else q
  }

  lemma TgwsPlaceablePrefix(m: Vpcs, ts: seq<RawTransitGatewayVpcAttachment>, account: string)
    requires |ts| > 0 && TgwsPlaceable(m, ts, account)
    ensures TgwsPlaceable(m, ts[..|ts| - 1], account)
  {
    forall y | y in ts[..|ts| - 1] ensures y in ts { }
  }

  /** The last attachment's subnets are writable in any map with the layout of `m`. */
  lemma TgwsPlaceableLast(m: Vpcs, q: Vpcs, ts: seq<RawTransitGatewayVpcAttachment>, account: string,
                          t: RawTransitGatewayVpcAttachment)
    requires |ts| > 0 && TgwsPlaceable(m, ts, account) && SameLayout(q, m)
    requires t == ts[|ts| - 1] && KeepsAttachment(t, account)
    ensures SubnetIdsWritable(q, t, t.subnetIds)
  {
    assert t in ts;
    SameLayoutWritable(q, m);
  }

  method MapTransitGatewayVpcAttachments(vpcs: Vpcs, attachments: seq<RawTransitGatewayVpcAttachment>, account: string)
    returns (r: Vpcs)
    requires TgwsPlaceable(vpcs, attachments, account)
    ensures r == MappedTgws(vpcs, attachments, account)
  {
    r := vpcs;
    for i := 0 to |attachments|
      invariant SameLayout(r, vpcs)
      invariant TgwsPlaceable(vpcs, attachments[..i], account) && r == MappedTgws(vpcs, attachments[..i], account)
    {
      var done := attachments[..i + 1];
      assert done[..i] == attachments[..i];
      TgwsPlaceableUpTo(vpcs, attachments, account, i + 1);
      var tgwatt := attachments[i];
      if tgwatt.vpcOwnerId == account {
        var vpcId := tgwatt.vpcId;
        if vpcId != "" {
          TgwsPlaceableLast(vpcs, r, done, account, tgwatt);
          r := MapAttachmentSubnets(r, tgwatt);
        }
      }
    }
    assert attachments[..|attachments|] == attachments;
  }

  lemma TgwsPlaceableUpTo(m: Vpcs, ts: seq<RawTransitGatewayVpcAttachment>, account: string, n: int)
    requires TgwsPlaceable(m, ts, account) && 0 <= n <= |ts|
    ensures TgwsPlaceable(m, ts[..n], account)
  {
    forall y | y in ts[..n] ensures y in ts { }
  }

  /** The inner loop of mapTransitGatewayVpcAttachments. */
  method MapAttachmentSubnets(vpcs: Vpcs, tgwatt: RawTransitGatewayVpcAttachment) returns (r: Vpcs)
    requires SubnetIdsWritable(vpcs, tgwatt, tgwatt.subnetIds)
    ensures r == AttachmentSubnets(vpcs, tgwatt, tgwatt.subnetIds)
  {
    var sids := tgwatt.subnetIds;
    r := vpcs;
    for j := 0 to |sids|
      invariant SubnetIdsWritable(vpcs, tgwatt, sids[..j]) && r == AttachmentSubnets(vpcs, tgwatt, sids[..j])
    {
      AttachmentSubnetsNext(vpcs, tgwatt, sids, j);
      r := MapAttachmentSubnet(r, tgwatt, sids[j]);
    }
    assert sids[..|sids|] == sids;
  }

  /** The walk over one attachment's subnet ids after `j` of them, and after one more. */
  lemma AttachmentSubnetsNext(m: Vpcs, t: RawTransitGatewayVpcAttachment, sids: seq<string>, j: int)
    requires SubnetIdsWritable(m, t, sids) && 0 <= j < |sids|
    ensures SubnetIdsWritable(m, t, sids[..j]) && SubnetIdsWritable(m, t, sids[..j + 1])
    ensures sids[j] != "" ==> Writable(AttachmentSubnets(m, t, sids[..j]), t.vpcId, sids[j])
    ensures AttachmentSubnets(m, t, sids[..j + 1]) ==
      if sids[j] != "" then TgwTo(AttachmentSubnets(m, t, sids[..j]), t, sids[j]) else AttachmentSubnets(m, t, sids[..j])
  {
    SubnetIdsPrefix(m, t, sids, j);
    SubnetIdsPrefix(m, t, sids, j + 1);
    assert sids[..j + 1][..j] == sids[..j];
    if sids[j] != "" {
      assert sids[j] in sids;
      SameLayoutWritableAt(AttachmentSubnets(m, t, sids[..j]), m, t.vpcId, sids[j]);
    }
  }

  /** The body of the subnet-id loop, for one id. */
  method MapAttachmentSubnet(vpcs: Vpcs, tgwatt: RawTransitGatewayVpcAttachment, subnetId: string) returns (r: Vpcs)
    requires subnetId != "" ==> Writable(vpcs, tgwatt.vpcId, subnetId)
    ensures r == if subnetId != "" then TgwTo(vpcs, tgwatt, subnetId) else vpcs
  {
    r := vpcs;
    if subnetId != "" {
      var name := GetNameTag(tgwatt.tags);
      var sub := r[tgwatt.vpcId].subnets[subnetId];
      var created := TgwAttachment(tgwatt.transitGatewayAttachmentId, tgwatt.transitGatewayId, name);
      r := r[tgwatt.vpcId := r[tgwatt.vpcId].(subnets := r[tgwatt.vpcId].subnets[subnetId :=
             sub.(tgws := sub.tgws[tgwatt.transitGatewayAttachmentId := created])])];
    }
  }

  /** The attachments that reach subnet `sid` of `vid`, keyed by attachment id; a later record replaces an earlier one. */
  function TgwsFor(ts: seq<RawTransitGatewayVpcAttachment>, account: string, vid: string, sid: string): map<string, TgwAttachment>
  {
    if |ts| == 0 then map[]
    else
      var t := ts[|ts| - 1];
      TgwsFor(ts[..|ts| - 1], account, vid, sid) +
        (if AttachesTo(t, account, vid, sid) then map[t.transitGatewayAttachmentId := NewTgw(t)] else map[])
  }

  lemma TgwToAt(m: Vpcs, t: RawTransitGatewayVpcAttachment, sid: string, v: string, s: string)
    requires Writable(m, t.vpcId, sid)
    requires v in m && s in m[v].subnets
    ensures TgwTo(m, t, sid)[v].(subnets := m[v].subnets) == m[v]
    ensures TgwTo(m, t, sid)[v].subnets[s] == m[v].subnets[s].(tgws := TgwTo(m, t, sid)[v].subnets[s].tgws)
    ensures TgwTo(m, t, sid)[v].subnets[s].tgws ==
      if t.vpcId == v && sid == s then m[v].subnets[s].tgws[t.transitGatewayAttachmentId := NewTgw(t)]
      else m[v].subnets[s].tgws
  {
    var sub := m[t.vpcId].subnets[sid];
    WithSubnetAt(m, t.vpcId, sid, sub.(tgws := sub.tgws[t.transitGatewayAttachmentId := NewTgw(t)]), v, s);
  }

  /** One kept attachment writes itself into each listed subnet of its VPC, and changes nothing else. */
  lemma {:induction false} AttachmentSubnetsAt(m: Vpcs, t: RawTransitGatewayVpcAttachment, sids: seq<string>, v: string, s: string)
    requires SubnetIdsWritable(m, t, sids)
    requires v in m && s in m[v].subnets
    ensures AttachmentSubnets(m, t, sids)[v].(subnets := m[v].subnets) == m[v]
    ensures AttachmentSubnets(m, t, sids)[v].subnets[s] ==
      m[v].subnets[s].(tgws := AttachmentSubnets(m, t, sids)[v].subnets[s].tgws)
  {
    if |sids| > 0 {
      var p := sids[..|sids| - 1];
      var sid := sids[|sids| - 1];
      SubnetIdsPrefix(m, t, sids, |sids| - 1);
      AttachmentSubnetsAt(m, t, p, v, s);
      var q := AttachmentSubnets(m, t, p);
      if sid != "" {
        assert sid in sids;
        SameLayoutWritableAt(q, m, t.vpcId, sid);
        TgwToAt(q, t, sid, v, s);
      }
    }
  }

  /** The last subnet id of one attachment, seen from subnet `s` of VPC `v`. */
  lemma AttachmentSubnetsLastAt(m: Vpcs, t: RawTransitGatewayVpcAttachment, sids: seq<string>, v: string, s: string)
    requires SubnetIdsWritable(m, t, sids) && |sids| > 0
    requires v in m && s in m[v].subnets
    ensures SubnetIdsWritable(m, t, sids[..|sids| - 1])
    ensures var q := AttachmentSubnets(m, t, sids[..|sids| - 1]);
      v in q && s in q[v].subnets &&
      AttachmentSubnets(m, t, sids)[v].subnets[s].tgws ==
        if t.vpcId == v && sids[|sids| - 1] == s && s != ""
        then q[v].subnets[s].tgws[t.transitGatewayAttachmentId := NewTgw(t)]
        else q[v].subnets[s].tgws
  {
    var p := sids[..|sids| - 1];
    var sid := sids[|sids| - 1];
    SubnetIdsPrefix(m, t, sids, |sids| - 1);
    var q := AttachmentSubnets(m, t, p);
    if sid != "" {
      assert sid in sids;
      SameLayoutWritableAt(q, m, t.vpcId, sid);
      TgwToAt(q, t, sid, v, s);
    }
  }

  /** One kept attachment writes itself into each listed subnet of its VPC. */
  lemma {:induction false} AttachmentSubnetsTgws(m: Vpcs, t: RawTransitGatewayVpcAttachment, sids: seq<string>, v: string, s: string)
    requires SubnetIdsWritable(m, t, sids)
    requires v in m && s in m[v].subnets
    ensures AttachmentSubnets(m, t, sids)[v].subnets[s].tgws ==
      if t.vpcId == v && s != "" && s in sids then m[v].subnets[s].tgws[t.transitGatewayAttachmentId := NewTgw(t)]
      else m[v].subnets[s].tgws
  {
    if |sids| > 0 {
      var p := sids[..|sids| - 1];
      assert s in sids <==> s in p || s == sids[|sids| - 1];
      AttachmentSubnetsLastAt(m, t, sids, v, s);
      AttachmentSubnetsTgws(m, t, p, v, s);
    }
  }

  /**
   * mapTransitGatewayVpcAttachments, per subnet: the subnet keeps all but
   * its TGWs, which gain exactly the attachments that reach it.
   */
  lemma {:induction false} MappedTgwsAt(m: Vpcs, ts: seq<RawTransitGatewayVpcAttachment>, account: string, v: string, s: string)
    requires TgwsPlaceable(m, ts, account)
    requires v in m && s in m[v].subnets
    ensures MappedTgws(m, ts, account)[v].(subnets := m[v].subnets) == m[v]
    ensures MappedTgws(m, ts, account)[v].subnets[s] ==
      m[v].subnets[s].(tgws := MappedTgws(m, ts, account)[v].subnets[s].tgws)
    ensures MappedTgws(m, ts, account)[v].subnets[s].tgws == m[v].subnets[s].tgws + TgwsFor(ts, account, v, s)
  {
    if |ts| > 0 {
      var p := ts[..|ts| - 1];
      var t := ts[|ts| - 1];
      TgwsPlaceablePrefix(m, ts, account);
      MappedTgwsAt(m, p, account, v, s);
      var q := MappedTgws(m, p, account);
      var before := m[v].subnets[s].tgws;
      if KeepsAttachment(t, account) {
        TgwsPlaceableLast(m, q, ts, account, t);
        AttachmentSubnetsAt(q, t, t.subnetIds, v, s);
        AttachmentSubnetsTgws(q, t, t.subnetIds, v, s);
      }
      if AttachesTo(t, account, v, s) {
        PlusUpdate(before, TgwsFor(p, account, v, s), t.transitGatewayAttachmentId, NewTgw(t));
      } else {
        PlusEmpty(before, TgwsFor(p, account, v, s));
      }
    }
  }

  /**
   * An attachment reaches a subnet only when its owner is the caller's
   * account, its VPC is the subnet's and it lists the subnet; the entry
   * under an attachment id is built from such a record; and every such
   * record has its entry.
   */
  lemma {:induction false} TgwsForMembers(ts: seq<RawTransitGatewayVpcAttachment>, account: string, v: string, s: string, k: string)
    ensures k in TgwsFor(ts, account, v, s) ==>
      exists t :: t in ts && AttachesTo(t, account, v, s) && t.transitGatewayAttachmentId == k &&
        TgwsFor(ts, account, v, s)[k] == NewTgw(t)
    ensures (exists t :: t in ts && AttachesTo(t, account, v, s) && t.transitGatewayAttachmentId == k) ==>
      k in TgwsFor(ts, account, v, s)
  {
    if |ts| > 0 {
      var p := ts[..|ts| - 1];
      var t := ts[|ts| - 1];
      TgwsForMembers(p, account, v, s, k);
      assert forall y :: y in ts <==> y in p || y == t;
    }
  }

  // ------------------------------------------------ mapVpcPeeringConnections

  predicate Active(c: RawVpcPeeringConnection)
  {
    c.statusCode == "active"
  }

  function NewPeer(c: RawVpcPeeringConnection): VpcPeer
  {
    VpcPeer(c.vpcPeeringConnectionId, c.requesterVpcId, c.accepterVpcId, NameTag(c.tags))
  }

  /** Whether an active connection is written into VPC `vid`: one of its sides, non-empty and already mapped. */
  predicate PeersWith(c: RawVpcPeeringConnection, vid: string)
  {
    Active(c) && vid != "" && (c.requesterVpcId == vid || c.accepterVpcId == vid)
  }

  /** A side the pass writes to has a Peers map (a zero VPC has none, and the write panics). */
  predicate SideWritable(m: Vpcs, vid: string)
  {
    vid != "" && vid in m ==> !m[vid].stub
  }

  predicate PeersPlaceable(m: Vpcs, cs: seq<RawVpcPeeringConnection>)
  {
    forall c :: c in cs && Active(c) ==> SideWritable(m, c.requesterVpcId) && SideWritable(m, c.accepterVpcId)
  }

  function PeerTo(m: Vpcs, vid: string, c: RawVpcPeeringConnection): (r: Vpcs)
    ensures SameLayout(r, m)
  {
    if vid != "" && vid in m then m[vid := m[vid].(peers := m[vid].peers[c.vpcPeeringConnectionId := NewPeer(c)])]
    else m
  }

  lemma PeerToAt(m: Vpcs, vid: string, c: RawVpcPeeringConnection, v: string)
    requires v in m
    ensures PeerTo(m, vid, c)[v] ==
      if vid == v && v != "" then m[v].(peers := m[v].peers[c.vpcPeeringConnectionId := NewPeer(c)]) else m[v]
  {
  }

  function MappedPeers(m: Vpcs, cs: seq<RawVpcPeeringConnection>): (r: Vpcs)
    ensures SameLayout(r, m)
  {
    if |cs| == 0 then m
    else
      var c := cs[|cs| - 1];
      var q := MappedPeers(m, cs[..|cs| - 1]);
      if Active(c) then PeerTo(PeerTo(q, c.requesterVpcId, c), c.accepterVpcId, c) else q
  }

  method MapVpcPeeringConnections(vpcs: Vpcs, connections: seq<RawVpcPeeringConnection>) returns (r: Vpcs)
    requires PeersPlaceable(vpcs, connections)
    ensures r == MappedPeers(vpcs, connections)
  {
    r := vpcs;
    for i := 0 to |connections|
      invariant r == MappedPeers(vpcs, connections[..i])
    {
      assert connections[..i + 1][..i] == connections[..i];
      var peer := connections[i];
      if peer.statusCode != "active" {
        continue;
      }
      var name := GetNameTag(peer.tags);
      var created := VpcPeer(peer.vpcPeeringConnectionId, peer.requesterVpcId, peer.accepterVpcId, name);
      var requester := peer.requesterVpcId;
      if requester != "" {
        if requester in r {
          r := r[requester := r[requester].(peers := r[requester].peers[peer.vpcPeeringConnectionId := created])];
        }
      }
      var accepter := peer.accepterVpcId;
      if accepter != "" {
        if accepter in r {
          r := r[accepter := r[accepter].(peers := r[accepter].peers[peer.vpcPeeringConnectionId := created])];
        }
      }
    }
    assert connections[..|connections|] == connections;
  }

  /** The active connections that reach VPC `vid`, keyed by connection id; a later record replaces an earlier one. */
  function PeersFor(cs: seq<RawVpcPeeringConnection>, vid: string): map<string, VpcPeer>
  {
    if |cs| == 0 then map[]
    else
      var c := cs[|cs| - 1];
      PeersFor(cs[..|cs| - 1], vid) + (if PeersWith(c, vid) then map[c.vpcPeeringConnectionId := NewPeer(c)] else map[])
  }

  /**
   * mapVpcPeeringConnections, per VPC: no VPC is added, and a present VPC
   * keeps everything but its peers, which gain exactly the active
   * connections naming it as requester or accepter.
   */
  lemma {:induction false} MappedPeersAt(m: Vpcs, cs: seq<RawVpcPeeringConnection>, v: string)
    ensures MappedPeers(m, cs).Keys == m.Keys
    ensures v in m ==> MappedPeers(m, cs)[v].(peers := m[v].peers) == m[v]
    ensures v in m ==> MappedPeers(m, cs)[v].peers == m[v].peers + PeersFor(cs, v)
  {
    if |cs| > 0 && v in m {
      var p := cs[..|cs| - 1];
      var c := cs[|cs| - 1];
      MappedPeersAt(m, p, v);
      PeerStepAt(MappedPeers(m, p), c, v);
      if PeersWith(c, v) {
        PlusUpdate(m[v].peers, PeersFor(p, v), c.vpcPeeringConnectionId, NewPeer(c));
      } else {
        PlusEmpty(m[v].peers, PeersFor(p, v));
      }
    }
  }

  /** One connection's step, seen from VPC `v`: its peers gain the connection exactly when it is written there. */
  lemma PeerStepAt(q: Vpcs, c: RawVpcPeeringConnection, v: string)
    requires v in q
    ensures (if Active(c) then PeerTo(PeerTo(q, c.requesterVpcId, c), c.accepterVpcId, c) else q)[v] ==
      if PeersWith(c, v) then q[v].(peers := q[v].peers[c.vpcPeeringConnectionId := NewPeer(c)]) else q[v]
  {
    if Active(c) {
      PeerToAt(q, c.requesterVpcId, c, v);
      PeerToAt(PeerTo(q, c.requesterVpcId, c), c.accepterVpcId, c, v);
    }
  }

  /** A connection reaches a VPC only when it is active and names that VPC; every such connection does. */
  lemma {:induction false} PeersForMembers(cs: seq<RawVpcPeeringConnection>, v: string, k: string)
    ensures k in PeersFor(cs, v) ==>
      exists c :: c in cs && PeersWith(c, v) && c.vpcPeeringConnectionId == k && PeersFor(cs, v)[k] == NewPeer(c)
    ensures (exists c :: c in cs && PeersWith(c, v) && c.vpcPeeringConnectionId == k) ==> k in PeersFor(cs, v)
  {
    if |cs| > 0 {
      var p := cs[..|cs| - 1];
      PeersForMembers(p, v, k);
      assert forall y :: y in cs <==> y in p || y == cs[|cs| - 1];
    }
  }
}
