// From the announcement to the rule: the path encoder of xrs, the VMACs of pctrl and the
// fast-reroute rules together.
module EndToEnd {
  import opened AsPaths
  import opened BitStrings
  import opened CodeMapping
  import opened Collections
  import opened EncodingState
  import opened FastReroute
  import opened FastReroutePolicy
  import opened Participants
  import opened Supersets
  import opened SwiftPeer

  // The sizes a superset computation leaves behind fit the VMACs made from them.
  lemma ComputedSizesFit(ss: SuperSets, tagSize: nat, maxDepth: nat, ssId: nat)
    requires ss.Valid() && ss.maxBits == ss.iSDXVMACSize - ss.bestPathSize - 1
    requires ssId < |ss.supersets| && ss.maskSize >= 0 && ss.bestPathSize >= 1
    ensures FitsLayout(Layout(ss.idSize, ss.maskSize, ss.bestPathSize, tagSize, maxDepth), ssId, ss.supersets[ssId],
                       NonNegative(ss.iSDXVMACSize))
  {
  }

  // The path part of the VMAC is that of a path, and the rule is that of a link at its depth.
  ghost predicate MadeFor(x: Encounter, maps: map<nat, Codes>, path: Path, l: Link, maxBytes: int, maxDepth: nat) {
    && x.bec.asPathVmac == Some(PathVmac(maps, path, maxBytes))
    && x.asPath == Laid(maps, Pattern(x.depth, l), maxDepth + 2) && x.asMask == Laid(maps, Mask(x.depth), maxDepth + 2)
  }

  // When a link fails, the rule for a peer, a backup and the link at depth d catches exactly
  // the packets towards next hops that lead to this peer, whose backup for depth d is this
  // one, if the VMACs have a field for this depth, and whose AS path crosses the link there.
  lemma FailureIsReroutedExactly(p: Peer, layout: Layout, isdxSize: nat, x: Encounter, l: Link, path: Path)
    requires p.Valid() && p.encoding != null && p.maxBytes >= 2 && x.depth >= 1
    requires IsEncoded(p.encoding.State(), x.depth, l)
    requires MadeFor(x, p.encoding.State().maps, path, l, p.maxBytes, p.maxDepth) && Fair(layout, isdxSize, x)
    requires TotalSize(layout, isdxSize, p.maxBytes) == VMAC_SIZE
    ensures Caught(layout, isdxSize, x) <==>
            && x.nextHop == x.peer
            && (AsksForBackup(layout, x.depth) ==> HasBackup(x.bec.backupNbs.value, x.depth, x.backup))
            && |path| > x.depth && path[x.depth] == l.to && (x.depth > 1 ==> path[x.depth - 1] == l.from)
  {
    hide Peer.GraphsMatch, Peer.WindowMatches, LinksLive, SoundAt, BitsBelow, Matches, FitsLayout, Alignable, Caught,
      IsEncoded, Laid, PathVmac, Pow2;
    assert p.EncoderMatches();
    PartsAreAligned(p, x.depth, l, path);
    p.RulesAreExact(path, x.depth, l);
    RerouteRuleIsExact(layout, isdxSize, x);
  }

  // The path part of every VMAC and both parts of the rule have the budgeted length.
  lemma PartsAreAligned(p: Peer, d: nat, l: Link, path: Path)
    requires p.Valid() && p.encoding != null && p.maxBytes >= 2 && d >= 1 && IsEncoded(p.encoding.State(), d, l)
    ensures var maps, n := p.encoding.State().maps, p.maxDepth + 2;
            && |Laid(maps, Pattern(d, l), n)| == |Laid(maps, Mask(d), n)| == p.maxBytes
            && |PathVmac(maps, path, p.maxBytes)| == p.maxBytes
  {
    hide SoundAt, BitsBelow, Laid, PathVmac, Peer.GraphsMatch, Peer.WindowMatches, LinksLive;
    assert p.EncoderMatches();
    var maps, n := p.encoding.State().maps, p.maxDepth + 2;
    SoundAllWf(p.encoding.State());
    LaidLength(maps, Pattern(d, l), n);
    LaidLength(maps, Mask(d), n);
    LaidLength(maps, OfPath(path), n);
    PathVmacFields(maps, path, p.maxBytes, n);
  }

  // The path crosses the link at the depth; at depth 1 the near end is the router itself.
  predicate Crosses(path: Path, d: nat, l: Link)
    requires d >= 1
  {
    |path| > d && path[d] == l.to && (d > 1 ==> path[d - 1] == l.from)
  }

  // The codes of the link and the path in this peer, and participants that fit their field.
  ghost predicate ReadyToReroute(p: Peer, pc: ParticipantController, fec: ForwardingClass, bec: Bec, path: Path, d: nat,
                                 l: Link, peerId: Part)
    reads p, p.g, p.gW, p.rib, p.wQueue, p.encoding, if p.encoding != null then p.encoding.Repr else {}
    reads pc, pc.supersets
  {
    var best := pc.supersets.bestPathSize;
    && p.Valid() && p.encoding != null && p.maxBytes >= 2 && d >= 1 && IsEncoded(p.encoding.State(), d, l)
    && bec.asPathVmac == Some(PathVmac(p.encoding.State().maps, path, p.maxBytes))
    && Alignable(pc.Sizes(), bec, pc.tagDict) && TotalSize(pc.Sizes(), pc.IsdxSize(), p.maxBytes) == VMAC_SIZE
    && pc.supersets.Valid() && pc.supersets.maskSize >= 0 && best >= 1
    && pc.supersets.maxBits == pc.supersets.iSDXVMACSize - best - 1
    && fec.nextHopPart < Pow2(best) && peerId < Pow2(best) && forall b :: b in pc.tagDict ==> b < Pow2(best)
  }

  lemma ReadyFacts(p: Peer, pc: ParticipantController, fec: ForwardingClass, bec: Bec, path: Path, d: nat, l: Link,
                   peerId: Part)
    requires ReadyToReroute(p, pc, fec, bec, path, d, l, peerId)
    ensures p.Valid() && p.encoding != null && p.encoding.Owned() && d >= 1
    ensures bec.asPathVmac.Some? && bec.backupNbs.Some?
  {
    hide Peer.GraphsMatch, Peer.WindowMatches;
    assert p.EncoderMatches();
  }

  lemma RuleOfBackup(p: Peer, pc: ParticipantController, policies: seq<Option<Part>>, fec: ForwardingClass,
                     bec: Bec, path: Path, vmac: Bits, d: nat, l: Link, peerId: Part, b: Part, mac: Mac)
    requires ReadyToReroute(p, pc, fec, bec, path, d, l, peerId) && pc.MakesVmac(vmac, policies, fec, bec)
    requires b in pc.tagDict
    ensures var maps, n := p.encoding.State().maps, p.maxDepth + 2;
            var r := pc.RuleFor(peerId, b, d, mac, Laid(maps, Pattern(d, l), n), Laid(maps, Mask(d), n));
            && (Matches(vmac, r.ethDst, r.ethDstMask) <==>
                && fec.nextHopPart == peerId && Crosses(path, d, l)
                && (AsksForBackup(pc.Sizes(), d) ==> HasBackup(bec.backupNbs.value, d, b)))
            && |r.setEthDst| == 48 && r.setEthDst[0]
            && forall q: Part :: q < Pow2(pc.supersets.bestPathSize) ==>
                 (Matches(r.setEthDst, NextHopMac(pc.IsdxSize(), q, false), NextHopMask(pc.Sizes(), pc.IsdxSize()))
                  <==> b == q)
  {
    hide Matches, Laid, PathVmac, Peer.Valid, IsEncoded, Pow2, NextHopMac, NextHopMask, SuperSets.Valid, Alignable,
      VmacBits, ReroutePattern, RerouteMask, AsksForBackup, HasBackup, FitsLayout;
    ReadyFacts(p, pc, fec, bec, path, d, l, peerId);
    var maps, n, layout := p.encoding.State().maps, p.maxDepth + 2, pc.Sizes();
    var active := ActiveAdvertisers(fec, policies);
    var ssId: nat :| Home(active, pc.supersets.supersets, ssId)
                     && vmac == VmacBits(layout, ssId, pc.supersets.supersets[ssId], active, pc.peersOut,
                                         fec.nextHopPart, bec, pc.tagDict);
    var superset := pc.supersets.supersets[ssId];
    var x := Encounter(ssId, superset, active, pc.peersOut, fec.nextHopPart, bec, pc.tagDict, peerId, b, d,
                       Laid(maps, Pattern(d, l), n), Laid(maps, Mask(d), n));
    ComputedSizesFit(pc.supersets, pc.nexthopsNbBits, pc.maxDepth, ssId);
    PartsAreAligned(p, d, l, path);
    FailureIsReroutedExactly(p, layout, pc.IsdxSize(), x, l, path);
    NextHopFits(layout, ssId, superset, pc.IsdxSize());
    Pow2Monotone(layout.bestPathSize, pc.IsdxSize() - 1);
    NextHopMacPlain(pc.IsdxSize(), b, true);
    forall q: Part | q < Pow2(pc.supersets.bestPathSize) {
      RerouteReachesBackup(layout, pc.IsdxSize(), b, q);
    }
  }

  lemma NextHopFits(layout: Layout, ssId: nat, superset: Superset, isdxSize: nat)
    requires FitsLayout(layout, ssId, superset, isdxSize)
    ensures 1 <= layout.bestPathSize < isdxSize
  {
  }

  // A packet of a port is caught by a rule for its source and destination addresses.
  ghost predicate CaughtBy(r: Rule, src: Mac, vmac: Bits) {
    r.ethSrc == src && Matches(vmac, r.ethDst, r.ethDstMask)
  }

  // The rules the controller queues for a failed link catch exactly the packets, of any port,
  // whose next hop leads to the peer, whose path crosses the link and for which a participant
  // other than the peer is the backup for this depth.
  lemma PacketsAreCaught(p: Peer, pc: ParticipantController, policies: seq<Option<Part>>, fec: ForwardingClass,
                         bec: Bec, path: Path, vmac: Bits, d: nat, l: Link, peerId: Part, rules: seq<Rule>, src: Mac)
    requires ReadyToReroute(p, pc, fec, bec, path, d, l, peerId) && pc.MakesVmac(vmac, policies, fec, bec)
    requires var maps, n := p.encoding.State().maps, p.maxDepth + 2;
             pc.MakesRules(rules, peerId, d, Laid(maps, Pattern(d, l), n), Laid(maps, Mask(d), n))
    ensures (exists r :: r in rules && CaughtBy(r, src, vmac)) <==>
            && src in pc.macs && fec.nextHopPart == peerId
            && |path| > d && path[d] == l.to && (d > 1 ==> path[d - 1] == l.from)
            && exists b: Part ::
                 && b in pc.tagDict && b != peerId
                 && (d <= pc.maxDepth ==> d <= |bec.backupNbs.value| && bec.backupNbs.value[d - 1] == Some(b))
  {
    hide Matches, Laid, PathVmac, Peer.Valid, IsEncoded, Pow2, NextHopMac, NextHopMask, SuperSets.Valid, Alignable,
      VmacBits, ReroutePattern, RerouteMask, Home, ReadyToReroute;
    ReadyFacts(p, pc, fec, bec, path, d, l, peerId);
    var maps, n := p.encoding.State().maps, p.maxDepth + 2;
    var asPath, asMask := Laid(maps, Pattern(d, l), n), Laid(maps, Mask(d), n);
    forall b: Part, mac: Mac | b in pc.tagDict
      ensures var r := pc.RuleFor(peerId, b, d, mac, asPath, asMask);
              && r.ethSrc == mac
              && (Matches(vmac, r.ethDst, r.ethDstMask) <==>
                  && fec.nextHopPart == peerId && Crosses(path, d, l)
                  && (AsksForBackup(pc.Sizes(), d) ==> HasBackup(bec.backupNbs.value, d, b)))
    {
      RuleOfBackup(p, pc, policies, fec, bec, path, vmac, d, l, peerId, b, mac);
    }
    if b: Part :| && b in pc.tagDict && b != peerId
                  && (d <= pc.maxDepth ==> d <= |bec.backupNbs.value| && bec.backupNbs.value[d - 1] == Some(b)) {
      if src in pc.macs {
        assert pc.RuleFor(peerId, b, d, src, asPath, asMask) in rules;
      }
    }
  }

  // At a depth with a field for it, a caught packet leaves with the address of its backup: the
  // inbound bit is set, and the next-hop rule of the backup and of nobody else matches it.
  lemma PacketsReachBackup(p: Peer, pc: ParticipantController, policies: seq<Option<Part>>, fec: ForwardingClass,
                           bec: Bec, path: Path, vmac: Bits, d: nat, l: Link, peerId: Part, rules: seq<Rule>,
                           r: Rule, src: Mac)
    requires ReadyToReroute(p, pc, fec, bec, path, d, l, peerId) && pc.MakesVmac(vmac, policies, fec, bec)
    requires var maps, n := p.encoding.State().maps, p.maxDepth + 2;
             pc.MakesRules(rules, peerId, d, Laid(maps, Pattern(d, l), n), Laid(maps, Mask(d), n))
    requires r in rules && CaughtBy(r, src, vmac) && d <= pc.maxDepth
    ensures d <= |bec.backupNbs.value| && bec.backupNbs.value[d - 1].Some? && |r.setEthDst| == 48 && r.setEthDst[0]
    ensures bec.backupNbs.value[d - 1].value != peerId && bec.backupNbs.value[d - 1].value in pc.tagDict
    ensures forall q: Part :: q < Pow2(pc.supersets.bestPathSize) ==>
              (Matches(r.setEthDst, NextHopMac(pc.IsdxSize(), q, false), NextHopMask(pc.Sizes(), pc.IsdxSize()))
               <==> q == bec.backupNbs.value[d - 1].value)
  {
    hide Matches, Laid, PathVmac, Peer.Valid, IsEncoded, Pow2, NextHopMac, NextHopMask, SuperSets.Valid, Alignable,
      VmacBits, ReroutePattern, RerouteMask, Home, ReadyToReroute;
    ReadyFacts(p, pc, fec, bec, path, d, l, peerId);
    var maps, n := p.encoding.State().maps, p.maxDepth + 2;
    var b: Part, mac: Mac :|
      b in pc.tagDict && b != peerId && mac in pc.macs &&
      r == pc.RuleFor(peerId, b, d, mac, Laid(maps, Pattern(d, l), n), Laid(maps, Mask(d), n));
    RuleOfBackup(p, pc, policies, fec, bec, path, vmac, d, l, peerId, b, mac);
  }
}
