// The 48 bits of a VMAC and the rules that match them: `get_vmac` of pctrl/supersets.py,
// the builders of pctrl/ss_lib.py and `process_FR` of pctrl/participant_controller.py.
module FastReroutePolicy {
  import opened BitStrings
  import opened Collections
  import opened Participants
  import opened SupersetLib
  import opened Supersets
  import opened VmacFields

  type Tags = map<Part, nat>
  type Mac = nat

  // The backup class of a next hop: the encoded AS path and, per depth, the participant that avoids the
  // link at this depth, if any.
  datatype Bec = Bec(asPathVmac: Option<Bits>, backupNbs: Option<seq<Option<Part>>>)

  // The sizes of the fields.
  datatype Layout = Layout(idSize: nat, maskSize: int, bestPathSize: nat, tagSize: nat, maxDepth: nat)

  const VMAC_SIZE: nat := 48

  // ---- the superset part ----

  function Bit(b: bool): Bits {
    [b]
  }

  function SetBits(superset: Superset, prefixSet: Group, peersOut: Group): (r: Bits)
    ensures |r| == |superset|
    ensures forall k :: 0 <= k < |superset| ==> r[k] == (superset[k] in prefixSet && superset[k] in peersOut)
  {
    seq(|superset|, k requires 0 <= k < |superset| => superset[k] in prefixSet && superset[k] in peersOut)
  }

  function NonNegative(n: int): nat {
    if n < 0 then 0 else n
  }

  // The inbound bit, the superset and the reachable participants.
  function Reach(layout: Layout, ssId: nat, superset: Superset, prefixSet: Group, peersOut: Group): Bits {
    Bit(true) + Field(ssId, layout.idSize) +
        PadRight(SetBits(superset, prefixSet, peersOut), NonNegative(layout.maskSize))
  }

  function OneHot(n: nat, k: nat): (r: Bits)
    ensures |r| == n && forall i :: 0 <= i < n ==> r[i] == (i == k)
  {
    seq(n, i requires 0 <= i < n => i == k)
  }

  // `vmac_participant_match`.
  function ParticipantMatch(layout: Layout, ssId: nat, index: nat, inboundBit: bool): Bits {
    PadRight(Bit(inboundBit) + Field(ssId, layout.idSize) + OneHot(NonNegative(layout.maskSize), index), VMAC_SIZE)
  }

  // `vmac_participant_mask`.
  function ParticipantMask(layout: Layout, index: nat, inboundBit: bool): Bits {
    ParticipantMatch(layout, Pow2(layout.idSize) - 1, index, inboundBit)
  }

  lemma OneHotMatches(w: Bits, k: nat)
    requires k < |w|
    ensures Matches(w, OneHot(|w|, k), OneHot(|w|, k)) <==> w[k]
  {
  }

  lemma AllOnesField(width: nat)
    requires width >= 1
    ensures Field(Pow2(width) - 1, width) == Ones(width)
  {
    FieldOnes(width, width);
    assert Zeros(0) + Ones(width) == Ones(width);
  }

  // The reachability rule of position k in superset s matches exactly the VMACs of next
  // hops placed in s whose participant at k advertises the prefix and is exported to. The
  // inbound bit of a VMAC is set, so only a rule that masks it in without setting it misses.
  lemma ReachabilityDecode(layout: Layout, ssId: nat, superset: Superset, prefixSet: Group, peersOut: Group,
                           rest: Bits, s: nat, k: nat, inMatch: bool, inMask: bool)
    requires layout.idSize >= 1 && ssId < Pow2(layout.idSize) && s < Pow2(layout.idSize)
    requires |superset| <= layout.maskSize && k < layout.maskSize
    requires 1 + layout.idSize + layout.maskSize + |rest| == VMAC_SIZE
    ensures var word := Reach(layout, ssId, superset, prefixSet, peersOut) + rest;
            Matches(word, ParticipantMatch(layout, s, k, inMatch), ParticipantMask(layout, k, inMask)) <==>
            && (inMask ==> inMatch)
            && ssId == s && k < |superset| && superset[k] in prefixSet && superset[k] in peersOut
  {
    hide Matches, Field, Pow2;
    var idSize, maskSize := layout.idSize, layout.maskSize;
    FieldLength(ssId, idSize);
    FieldLength(s, idSize);
    AllOnesField(idSize);
    FieldInjective(ssId, s, idSize);
    var bits := PadRight(SetBits(superset, prefixSet, peersOut), maskSize);
    var hot := OneHot(maskSize, k);
    var id, pattern := Field(ssId, idSize), Field(s, idSize);
    OneHotMatches(bits, k);
    MatchesOnes(id, pattern);
    var zeros, p, m := Zeros(|rest|), Bit(inMatch), Bit(inMask);
    assert ParticipantMatch(layout, s, k, inMatch) == p + pattern + hot + zeros;
    assert ParticipantMask(layout, k, inMask) == m + Ones(idSize) + hot + zeros;
    MatchesConcat(Bit(true) + id + bits, p + pattern + hot, m + Ones(idSize) + hot, rest, zeros, zeros);
    MatchesConcat(Bit(true) + id, p + pattern, m + Ones(idSize), bits, hot, hot);
    MatchesConcat(Bit(true), p, m, id, pattern, Ones(idSize));
    InboundBitMatches(inMatch, inMask);
    MatchesZeros(rest, zeros);
  }

  lemma InboundBitMatches(inMatch: bool, inMask: bool)
    ensures Matches(Bit(true), Bit(inMatch), Bit(inMask)) <==> (inMask ==> inMatch)
  {
    assert Bit(inMask)[0] == inMask && Bit(inMatch)[0] == inMatch && Bit(true)[0];
  }

  // Each participant is matched at one position at most.
  lemma OnePositionMatches(layout: Layout, supersets: seq<Superset>, ssId: nat, prefixSet: Group, peersOut: Group,
                           rest: Bits, c: Change, c': Change, inMatch: bool, inMask: bool)
    requires layout.idSize >= 1 && |supersets| <= Pow2(layout.idSize) && ssId < |supersets|
    requires forall i :: 0 <= i < |supersets| ==> NoDuplicates(supersets[i]) && |supersets[i]| <= layout.maskSize
    requires 1 + layout.idSize + layout.maskSize + |rest| == VMAC_SIZE
    requires Occupies(supersets, c) && Occupies(supersets, c') && c.part == c'.part
    requires var word := Reach(layout, ssId, supersets[ssId], prefixSet, peersOut) + rest;
             && Matches(word, ParticipantMatch(layout, c.superset, c.position, inMatch),
                        ParticipantMask(layout, c.position, inMask))
             && Matches(word, ParticipantMatch(layout, c'.superset, c'.position, inMatch),
                        ParticipantMask(layout, c'.position, inMask))
    ensures c == c'
  {
    hide Matches, Reach, ParticipantMatch, ParticipantMask, Pow2;
    assert |supersets[c.superset]| <= layout.maskSize && |supersets[c'.superset]| <= layout.maskSize;
    ReachabilityDecode(layout, ssId, supersets[ssId], prefixSet, peersOut, rest, c.superset, c.position, inMatch,
                       inMask);
    ReachabilityDecode(layout, ssId, supersets[ssId], prefixSet, peersOut, rest, c'.superset, c'.position, inMatch,
                       inMask);
  }

  // ---- the next hop ----

  // A number that fits a narrow field fills the right end of a wider one.
  lemma FieldWider(x: nat, narrow: nat, wide: nat)
    requires 1 <= narrow <= wide && x < Pow2(narrow)
    ensures Field(x, wide) == Zeros(wide - narrow) + Field(x, narrow)
  {
    NumeralLength(x, narrow);
  }

  lemma NextHopDecides(front: Bits, nextHop: nat, peer: nat, best: nat, size: nat)
    requires 1 <= best && |front| + best == size && nextHop < Pow2(best) && peer < Pow2(best)
    ensures |front + Field(nextHop, best)| == size
    ensures |Field(peer, size)| == size && |Field(Pow2(best) - 1, size)| == size
    ensures Matches(front + Field(nextHop, best), Field(peer, size), Field(Pow2(best) - 1, size)) <==> nextHop == peer
  {
    hide Matches, Field, Pow2;
    FieldWider(peer, best, size);
    FieldOnes(best, size);
    FieldLength(nextHop, best);
    FieldLength(peer, best);
    FieldInjective(nextHop, peer, best);
    var zeros := Zeros(size - best);
    MatchesConcat(front, zeros, zeros, Field(nextHop, best), Field(peer, best), Ones(best));
    MatchesZeros(front, zeros);
    MatchesOnes(Field(nextHop, best), Field(peer, best));
  }

  // ---- the tags of the backup participants ----

  // Tags are handed out in order and never given back.
  ghost predicate TagsInOrder(tags: Tags) {
    && (forall p :: p in tags ==> 1 <= tags[p] <= |tags.Keys|)
    && (forall p, q :: p in tags && q in tags && tags[p] == tags[q] ==> p == q)
  }

  function TagsWith(tags: Tags, p: Part): Tags {
    if p in tags then tags else tags[p := |tags.Keys| + 1]
  }

  lemma TagsWithFacts(tags: Tags, p: Part)
    requires TagsInOrder(tags)
    ensures TagsInOrder(TagsWith(tags, p)) && p in TagsWith(tags, p) && Extends(tags, TagsWith(tags, p))
  {
  }

  function TagsAfter(tags: Tags, backups: seq<Option<Part>>): Tags {
    if backups == [] then tags
    else
      var before := TagsAfter(tags, backups[..|backups| - 1]);
      if backups[|backups| - 1].Some? then TagsWith(before, backups[|backups| - 1].value) else before
  }

  ghost predicate AllTagged(backups: seq<Option<Part>>, tags: Tags) {
    forall d :: 0 <= d < |backups| && backups[d].Some? ==> backups[d].value in tags
  }

  ghost predicate Extends(tags: Tags, tags': Tags) {
    forall p :: p in tags ==> p in tags' && tags'[p] == tags[p]
  }

  lemma {:induction false} TagsAfterFacts(tags: Tags, backups: seq<Option<Part>>)
    requires TagsInOrder(tags)
    ensures var tags' := TagsAfter(tags, backups);
            TagsInOrder(tags') && Extends(tags, tags') && AllTagged(backups, tags')
  {
    hide TagsInOrder, TagsWith;
    if backups != [] {
      var n := |backups| - 1;
      TagsAfterFacts(tags, backups[..n]);
      if backups[n].Some? {
        TagsWithFacts(TagsAfter(tags, backups[..n]), backups[n].value);
      }
      assert forall d :: 0 <= d < n ==> backups[..n][d] == backups[d];
    }
  }

  // All tags fit their field exactly as long as fewer than 2^n have been handed out; the
  // guard in the choice of backups, which waits for 2^n of them, comes one tag too late.
  lemma TagsFitIff(tags: Tags, n: nat)
    requires TagsInOrder(tags) && n >= 1
    ensures (forall p :: p in tags ==> |Field(tags[p], n)| == n) <==> |tags.Keys| < Pow2(n)
  {
    hide Field;
    forall p | p in tags
      ensures |Field(tags[p], n)| == n <==> tags[p] < Pow2(n)
    {
      FieldLength(tags[p], n);
    }
    if |tags.Keys| >= Pow2(n) {
      var p := LastTagged(tags, tags.Keys, |tags.Keys|);
    }
  }

  // With k tags below or at k, one of them is k.
  lemma {:induction false} LastTagged(tags: Tags, keys: set<Part>, k: nat) returns (p: Part)
    requires keys <= tags.Keys && |keys| == k >= 1
    requires forall q :: q in keys ==> 1 <= tags[q]
    requires forall q, r :: q in keys && r in keys && tags[q] == tags[r] ==> q == r
    ensures p in keys && tags[p] >= k
    decreases k
  {
    p := Greatest(tags, keys);
    if k > 1 {
      var q := LastTagged(tags, keys - {p}, k - 1);
    }
  }

  lemma {:induction false} Greatest(tags: Tags, keys: set<Part>) returns (p: Part)
    requires keys <= tags.Keys && keys != {}
    ensures p in keys && forall q :: q in keys ==> tags[q] <= tags[p]
    decreases keys
  {
    var k :| k in keys;
    p := k;
    if keys - {k} != {} {
      var q := Greatest(tags, keys - {k});
      p := if tags[q] > tags[k] then q else k;
    }
    assert forall r :: r in keys <==> r == k || r in keys - {k};
  }

  // The second tag does not fit one bit.
  lemma SecondTagOverflows()
    ensures var tags := TagsAfter(map[], [Some(0), Some(1)]); tags[1] == 2 && |Field(tags[1], 1)| == 2
  {
    var one := TagsAfter(map[], [Some(0)]);
    assert [Some(0), Some(1)][..1] == [Some(0)] && [Some(0)][..0] == [];
    assert one == map[0 := 1] && one.Keys == {0};
    assert Numeral(2) == Numeral(1) + [false] && Numeral(1) == [true];
  }

  // ---- the backup part ----

  function TagField(tags: Tags, p: Part, n: nat): Bits {
    if p in tags then Field(tags[p], n) else []
  }

  // The fields in the order in which the loop leaves them: a missing backup goes to the
  // front of what is there, the others to its end.
  function Moved(backups: seq<Option<Part>>, tags: Tags, n: nat): (r: seq<Bits>)
    ensures |r| == |backups|
  {
    if backups == [] then []
    else
      var before := Moved(backups[..|backups| - 1], tags, n);
      match backups[|backups| - 1]
      case None => [Zeros(n)] + before
      case Some(p) => before + [TagField(tags, p, n)]
  }

  // The fields with the backup of every depth at its place.
  function InPlace(backups: seq<Option<Part>>, tags: Tags, n: nat): (r: seq<Bits>)
    ensures |r| == |backups|
    ensures forall d :: 0 <= d < |backups| ==>
              r[d] == if backups[d].Some? then TagField(tags, backups[d].value, n) else Zeros(n)
  {
    seq(|backups|, d requires 0 <= d < |backups| =>
      if backups[d].Some? then TagField(tags, backups[d].value, n) else Zeros(n))
  }

  // No missing backup after a present one.
  ghost predicate MissingFirst(backups: seq<Option<Part>>) {
    forall i, j :: 0 <= i < j < |backups| && backups[i].Some? ==> backups[j].Some?
  }

  function Missing(backups: seq<Option<Part>>): (m: nat)
    ensures m <= |backups|
  {
    if backups == [] then 0
    else Missing(backups[..|backups| - 1]) + if backups[|backups| - 1].None? then 1 else 0
  }

  ghost predicate TagsFit(tags: Tags, n: nat) {
    n >= 1 && TagsInOrder(tags) && |tags.Keys| < Pow2(n)
  }

  lemma TagFieldFacts(tags: Tags, n: nat, p: Part)
    requires TagsFit(tags, n) && p in tags
    ensures |TagField(tags, p, n)| == n && TagField(tags, p, n) != Zeros(n)
  {
    hide Field, Pow2;
    FieldLength(tags[p], n);
    FieldZero(n);
    FieldInjective(tags[p], 0, n);
  }

  lemma {:induction false} MovedWidths(backups: seq<Option<Part>>, tags: Tags, n: nat)
    requires TagsFit(tags, n) && AllTagged(backups, tags)
    ensures AllWide(Moved(backups, tags, n), n)
    ensures forall d :: 0 <= d < Missing(backups) ==> Moved(backups, tags, n)[d] == Zeros(n)
  {
    hide TagField, TagsFit;
    if backups != [] {
      var k := |backups| - 1;
      AllTaggedFront(backups, tags);
      MovedWidths(backups[..k], tags, n);
      if backups[k].Some? {
        TagFieldFacts(tags, n, backups[k].value);
      }
    }
  }

  lemma AllTaggedFront(backups: seq<Option<Part>>, tags: Tags)
    requires backups != [] && AllTagged(backups, tags)
    ensures AllTagged(backups[..|backups| - 1], tags)
    ensures backups[|backups| - 1].Some? ==> backups[|backups| - 1].value in tags
  {
  }

  lemma {:induction false} MovedInPlace(backups: seq<Option<Part>>, tags: Tags, n: nat)
    requires MissingFirst(backups)
    ensures Moved(backups, tags, n) == InPlace(backups, tags, n)
  {
    hide TagField, Zeros, InPlace;
    if backups != [] {
      assert MissingFirst(backups[..|backups| - 1]);
      MovedInPlace(backups[..|backups| - 1], tags, n);
      OneMorePlace(backups, tags, n);
    }
  }

  lemma OneMorePlace(backups: seq<Option<Part>>, tags: Tags, n: nat)
    requires MissingFirst(backups) && backups != []
    ensures var k := |backups| - 1;
            var before := InPlace(backups[..k], tags, n);
            InPlace(backups, tags, n) ==
            if backups[k].None? then [Zeros(n)] + before else before + [TagField(tags, backups[k].value, n)]
  {
    hide TagField, Zeros, InPlace;
    var k := |backups| - 1;
    var front, before, all := backups[..k], InPlace(backups[..k], tags, n), InPlace(backups, tags, n);
    assert forall d :: 0 <= d < k ==> front[d] == backups[d];
    if backups[k].None? {
      AllZeros(backups, before, n);
      assert forall d :: 0 <= d <= k ==> all[d] == Zeros(n);
    } else {
      assert forall d :: 0 <= d < k ==> all[d] == before[d];
    }
  }

  lemma AllZeros(backups: seq<Option<Part>>, before: seq<Bits>, n: nat)
    requires MissingFirst(backups) && backups != [] && backups[|backups| - 1].None? && |before| == |backups| - 1
    requires forall d :: 0 <= d < |before| && backups[d].None? ==> before[d] == Zeros(n)
    ensures forall d :: 0 <= d < |backups| ==> backups[d].None? && ([Zeros(n)] + before)[d] == Zeros(n)
  {
  }

  lemma {:induction false} AllMissing(backups: seq<Option<Part>>)
    ensures (forall d :: 0 <= d < |backups| ==> backups[d].None?) <==> Missing(backups) == |backups|
  {
    if backups != [] {
      var k := |backups| - 1;
      AllMissing(backups[..k]);
      assert forall d :: 0 <= d < k ==> backups[..k][d] == backups[d];
    }
  }

  // A backup at d and a missing one behind it: more are missing than there are places before d.
  lemma {:induction false} MissingCount(backups: seq<Option<Part>>, d: nat, j: nat)
    requires d < j < |backups| && backups[j].None? && forall i :: 0 <= i < d ==> backups[i].None?
    ensures Missing(backups) > d
  {
    var k := |backups| - 1;
    if j < k {
      MissingCount(backups[..k], d, j);
    } else {
      AllMissing(backups[..d]);
      MissingMonotone(backups[..k], d);
      assert backups[..k][..d] == backups[..d];
    }
  }

  lemma {:induction false} MissingMonotone(backups: seq<Option<Part>>, d: nat)
    requires d <= |backups|
    ensures Missing(backups[..d]) <= Missing(backups)
  {
    if d < |backups| {
      var k := |backups| - 1;
      MissingMonotone(backups[..k], d);
      assert backups[..k][..d] == backups[..d];
    } else {
      assert backups[..d] == backups;
    }
  }

  // Every backup is at the place of its depth exactly if no missing backup follows a present one.
  lemma BackupsInPlaceIff(backups: seq<Option<Part>>, tags: Tags, n: nat)
    requires TagsFit(tags, n) && AllTagged(backups, tags)
    ensures Concat(Moved(backups, tags, n)) == Concat(InPlace(backups, tags, n)) <==> MissingFirst(backups)
  {
    hide TagField, TagsFit;
    MovedWidths(backups, tags, n);
    if MissingFirst(backups) {
      MovedInPlace(backups, tags, n);
    }
    InPlaceFacts(backups, tags, n);
    var moved, inPlace := Moved(backups, tags, n), InPlace(backups, tags, n);
    ConcatInjective(moved, inPlace, n);
    if !MissingFirst(backups) {
      var i, j :| 0 <= i < j < |backups| && backups[i].Some? && !backups[j].Some?;
      var d := FirstPresent(backups, i);
      MissingCount(backups, d, j);
      assert moved[d] == Zeros(n);
      TagFieldFacts(tags, n, backups[d].value);
      assert inPlace[d] != Zeros(n);
    }
  }

  // A present backup before a missing one ends up behind it.
  lemma PresentBeforeMissingMoves(tags: Tags, p: Part, n: nat)
    requires TagsFit(tags, n) && p in tags
    ensures Moved([Some(p), None], tags, n) == [Zeros(n), TagField(tags, p, n)]
    ensures Moved([Some(p), None], tags, n) != InPlace([Some(p), None], tags, n)
  {
    var backups := [Some(p), None];
    assert backups[..1] == [Some(p)] && [Some(p)][..0] == [];
    TagFieldFacts(tags, n, p);
    assert InPlace(backups, tags, n)[0] == TagField(tags, p, n);
  }

  lemma {:induction false} FirstPresent(backups: seq<Option<Part>>, i: nat) returns (d: nat)
    requires i < |backups| && backups[i].Some?
    ensures d <= i && backups[d].Some? && forall k :: 0 <= k < d ==> backups[k].None?
  {
    d := i;
    if k :| 0 <= k < i && backups[k].Some? {
      d := FirstPresent(backups, k);
    }
  }

  lemma InPlaceFacts(backups: seq<Option<Part>>, tags: Tags, n: nat)
    requires TagsFit(tags, n) && AllTagged(backups, tags)
    ensures AllWide(InPlace(backups, tags, n), n)
  {
    hide TagField, TagsFit;
    var r := InPlace(backups, tags, n);
    forall d | 0 <= d < |r|
      ensures |r[d]| == n
    {
      if backups[d].Some? {
        TagFieldFacts(tags, n, backups[d].value);
      }
    }
  }

  // What a rule for the backup with this tag looks for, and where.
  function BackupPattern(layout: Layout, depth: nat, tag: nat): (r: seq<Bits>)
    ensures |r| == layout.maxDepth
    ensures forall i :: 0 <= i < layout.maxDepth ==>
              r[i] == if i + 1 == depth then Field(tag, layout.tagSize) else Zeros(layout.tagSize)
  {
    seq(layout.maxDepth, i requires 0 <= i < layout.maxDepth =>
      if i + 1 == depth then Field(tag, layout.tagSize) else Zeros(layout.tagSize))
  }

  function BackupMask(layout: Layout, depth: nat): (r: seq<Bits>)
    ensures |r| == layout.maxDepth
    ensures forall i :: 0 <= i < layout.maxDepth ==>
              r[i] == if i + 1 == depth then Ones(layout.tagSize) else Zeros(layout.tagSize)
  {
    seq(layout.maxDepth, i requires 0 <= i < layout.maxDepth =>
      if i + 1 == depth then Ones(layout.tagSize) else Zeros(layout.tagSize))
  }

  // The backup part of a VMAC.
  function BackupBits(layout: Layout, backups: seq<Option<Part>>, tags: Tags): Bits {
    PadRight(Concat(Moved(backups, tags, layout.tagSize)), layout.maxDepth * layout.tagSize)
  }

  // The rule asks for a backup at this depth.
  predicate AsksForBackup(layout: Layout, depth: nat) {
    1 <= depth <= layout.maxDepth
  }

  predicate HasBackup(backups: seq<Option<Part>>, depth: nat, b: Part) {
    1 <= depth <= |backups| && backups[depth - 1] == Some(b)
  }

  // The backup part matches the rule of depth d and backup b exactly if b is the backup at
  // d. One depth further, where rules are still made, it matches whatever the backups are.
  lemma BackupDecides(layout: Layout, backups: seq<Option<Part>>, tags: Tags, depth: nat, b: Part)
    requires TagsFit(tags, layout.tagSize) && AllTagged(backups, tags) && b in tags
    requires MissingFirst(backups) && |backups| <= layout.maxDepth
    ensures var bits, pattern, mask :=
                  BackupBits(layout, backups, tags), Concat(BackupPattern(layout, depth, tags[b])),
                  Concat(BackupMask(layout, depth));
            && |bits| == |pattern| == |mask| == layout.maxDepth * layout.tagSize
            && (Matches(bits, pattern, mask) <==> (AsksForBackup(layout, depth) ==> HasBackup(backups, depth, b)))
  {
    hide Matches, Field, TagsFit, MissingFirst, Concat, TagField, AllTagged, Moved;
    var n := layout.tagSize;
    TagIdentifies(backups, tags, n, if depth > 0 then depth - 1 else 0, b);
    MovedInPlace(backups, tags, n);
    InPlaceFacts(backups, tags, n);
    PaddedFields(InPlace(backups, tags, n), layout.maxDepth, n);
    var words := InPlace(backups, tags, n) + ZeroFields(layout.maxDepth - |backups|, n);
    ConcatLength(words, n);
    RuleDecides(layout, words, depth, tags[b]);
  }

  // A rule of depth d compares one field, if any.
  lemma RuleDecides(layout: Layout, words: seq<Bits>, depth: nat, tag: nat)
    requires AllWide(words, layout.tagSize) && |words| == layout.maxDepth
    requires |Field(tag, layout.tagSize)| == layout.tagSize
    ensures var pattern, mask := Concat(BackupPattern(layout, depth, tag)), Concat(BackupMask(layout, depth));
            && |pattern| == |mask| == layout.maxDepth * layout.tagSize
            && (Matches(Concat(words), pattern, mask) <==>
                (AsksForBackup(layout, depth) ==> words[depth - 1] == Field(tag, layout.tagSize)))
  {
    hide Matches, Field, Concat;
    var n := layout.tagSize;
    var patterns, masks := BackupPattern(layout, depth, tag), BackupMask(layout, depth);
    ConcatMatches(words, patterns, masks, n);
    ConcatLength(patterns, n);
    ConcatLength(masks, n);
    forall i | 0 <= i < layout.maxDepth
      ensures Matches(words[i], patterns[i], masks[i]) <==> (i + 1 == depth ==> words[i] == patterns[i])
    {
      if i + 1 == depth {
        MatchesOnes(words[i], patterns[i]);
      } else {
        MatchesZeros(words[i], patterns[i]);
      }
    }
  }

  // The rules of two backups tell all VMACs apart exactly at the depths that have a field.
  lemma BackupsToldApartIff(layout: Layout, tags: Tags, depth: nat, b: Part, b': Part)
    requires TagsFit(tags, layout.tagSize) && b in tags && b' in tags && b != b'
    ensures (forall backups :: AllTagged(backups, tags) && MissingFirst(backups) && |backups| <= layout.maxDepth ==>
               !(BackupMatches(layout, backups, tags, depth, b) && BackupMatches(layout, backups, tags, depth, b')))
            <==> AsksForBackup(layout, depth)
  {
    hide BackupMatches;
    forall backups | AllTagged(backups, tags) && MissingFirst(backups) && |backups| <= layout.maxDepth
      ensures BackupMatches(layout, backups, tags, depth, b) <==>
              (AsksForBackup(layout, depth) ==> HasBackup(backups, depth, b))
      ensures BackupMatches(layout, backups, tags, depth, b') <==>
              (AsksForBackup(layout, depth) ==> HasBackup(backups, depth, b'))
    {
      BackupMatchesIff(layout, backups, tags, depth, b);
      BackupMatchesIff(layout, backups, tags, depth, b');
    }
    assert AllTagged([], tags) && MissingFirst([]);
  }

  ghost predicate BackupMatches(layout: Layout, backups: seq<Option<Part>>, tags: Tags, depth: nat, b: Part)
    requires b in tags
  {
    Matches(BackupBits(layout, backups, tags), Concat(BackupPattern(layout, depth, tags[b])),
            Concat(BackupMask(layout, depth)))
  }

  lemma BackupMatchesIff(layout: Layout, backups: seq<Option<Part>>, tags: Tags, depth: nat, b: Part)
    requires TagsFit(tags, layout.tagSize) && AllTagged(backups, tags) && b in tags
    requires MissingFirst(backups) && |backups| <= layout.maxDepth
    ensures BackupMatches(layout, backups, tags, depth, b) <==>
            (AsksForBackup(layout, depth) ==> HasBackup(backups, depth, b))
  {
    hide TagsFit, MissingFirst, Concat, BackupBits, AllTagged;
    BackupDecides(layout, backups, tags, depth, b);
  }

  // A field carries the tag of b exactly if b is the backup there.
  lemma TagIdentifies(backups: seq<Option<Part>>, tags: Tags, n: nat, i: nat, b: Part)
    requires TagsFit(tags, n) && AllTagged(backups, tags) && b in tags
    ensures Zeros(n) != Field(tags[b], n) && |Field(tags[b], n)| == n
    ensures i < |backups| ==> (InPlace(backups, tags, n)[i] == Field(tags[b], n) <==> backups[i] == Some(b))
  {
    hide Field, Pow2;
    TagFieldFacts(tags, n, b);
    if i < |backups| && backups[i].Some? {
      FieldInjective(tags[backups[i].value], tags[b], n);
    }
  }

  // ---- the whole VMAC and the fast-reroute rule ----

  function BackupPart(layout: Layout, bec: Bec, tags: Tags): Bits {
    if bec.backupNbs.None? then Zeros(12) else BackupBits(layout, bec.backupNbs.value, tags)
  }

  function PathPart(bec: Bec): Bits {
    if bec.asPathVmac.None? then Zeros(12) else bec.asPathVmac.value
  }

  function VmacBits(layout: Layout, ssId: nat, superset: Superset, prefixSet: Group, peersOut: Group, nextHop: nat,
                    bec: Bec, tags: Tags): Bits {
    PadRight(Reach(layout, ssId, superset, prefixSet, peersOut) + Field(nextHop, layout.bestPathSize) +
             BackupPart(layout, bec, tags) + PathPart(bec), VMAC_SIZE)
  }

  // A bit string read as a number and written as a MAC address.
  function MacBits(s: Bits): Bits {
    ZeroFill(s, VMAC_SIZE)
  }

  function ReroutePattern(layout: Layout, isdxSize: nat, peer: nat, depth: nat, tag: nat, asPath: Bits): Bits {
    MacBits(Field(peer, isdxSize) + Concat(BackupPattern(layout, depth, tag)) + asPath)
  }

  function RerouteMask(layout: Layout, isdxSize: nat, depth: nat, asMask: Bits): Bits {
    MacBits(Field(Pow2(layout.bestPathSize) - 1, isdxSize) + Concat(BackupMask(layout, depth)) + asMask)
  }

  // The fields of the superset part have the sizes the recomputation gave them.
  ghost predicate FitsLayout(layout: Layout, ssId: nat, superset: Superset, isdxSize: nat) {
    && layout.idSize >= 1 && layout.bestPathSize >= 1 && ssId < Pow2(layout.idSize) && |superset| <= layout.maskSize
    && 1 + layout.idSize + layout.maskSize + layout.bestPathSize == isdxSize
  }

  // The backups of a class, with tags that fit, in a place of their own.
  ghost predicate Alignable(layout: Layout, bec: Bec, tags: Tags) {
    && bec.asPathVmac.Some? && bec.backupNbs.Some? && |bec.backupNbs.value| <= layout.maxDepth
    && MissingFirst(bec.backupNbs.value) && AllTagged(bec.backupNbs.value, tags) && TagsFit(tags, layout.tagSize)
  }

  // A VMAC and a fast-reroute rule: the classes of a next hop in a superset, and the peer,
  // the backup, the depth and the link codes of the rule.
  datatype Encounter = Encounter(ssId: nat, superset: Superset, prefixSet: Group, peersOut: Group, nextHop: nat,
                                 bec: Bec, tags: Tags, peer: nat, backup: Part, depth: nat, asPath: Bits, asMask: Bits)

  // Participants fit their field, tags are in place, and path parts have one length.
  ghost predicate Fair(layout: Layout, isdxSize: nat, x: Encounter) {
    && FitsLayout(layout, x.ssId, x.superset, isdxSize) && Alignable(layout, x.bec, x.tags) && x.backup in x.tags
    && x.nextHop < Pow2(layout.bestPathSize) && x.peer < Pow2(layout.bestPathSize)
    && |x.bec.asPathVmac.value| == |x.asPath| == |x.asMask|
  }

  function TotalSize(layout: Layout, isdxSize: nat, pathSize: nat): nat {
    isdxSize + layout.maxDepth * layout.tagSize + pathSize
  }

  // The rule matches the VMAC.
  ghost predicate Caught(layout: Layout, isdxSize: nat, x: Encounter)
    requires x.backup in x.tags
  {
    Matches(VmacBits(layout, x.ssId, x.superset, x.prefixSet, x.peersOut, x.nextHop, x.bec, x.tags),
            ReroutePattern(layout, isdxSize, x.peer, x.depth, x.tags[x.backup], x.asPath),
            RerouteMask(layout, isdxSize, x.depth, x.asMask))
  }

  // It should: the next hop leads to the peer, the backup at the depth is the rule's, if the
  // depth has one, and the path carries the codes of the link.
  ghost predicate Meant(layout: Layout, x: Encounter)
    requires x.bec.asPathVmac.Some? && x.bec.backupNbs.Some?
  {
    && x.nextHop == x.peer
    && (AsksForBackup(layout, x.depth) ==> HasBackup(x.bec.backupNbs.value, x.depth, x.backup))
    && Matches(x.bec.asPathVmac.value, x.asPath, x.asMask)
  }

  // When the sizes add up, a rule matches exactly the VMACs it is meant for.
  lemma RerouteRuleIsExact(layout: Layout, isdxSize: nat, x: Encounter)
    requires Fair(layout, isdxSize, x) && TotalSize(layout, isdxSize, |x.asPath|) == VMAC_SIZE
    ensures Caught(layout, isdxSize, x) <==> Meant(layout, x)
  {
    hide Matches, Field, Pow2, Concat, TagsFit, MissingFirst, AllTagged, BackupBits;
    var backups, best := x.bec.backupNbs.value, layout.bestPathSize;
    FieldLength(x.ssId, layout.idSize);
    var reach := Reach(layout, x.ssId, x.superset, x.prefixSet, x.peersOut);
    NextHopDecides(reach, x.nextHop, x.peer, best, isdxSize);
    BackupDecides(layout, backups, x.tags, x.depth, x.backup);
    var w1, p1, m1 := reach + Field(x.nextHop, best), Field(x.peer, isdxSize), Field(Pow2(best) - 1, isdxSize);
    var w2, p2, m2 := BackupBits(layout, backups, x.tags), Concat(BackupPattern(layout, x.depth, x.tags[x.backup])),
                      Concat(BackupMask(layout, x.depth));
    ThreeParts(w1, p1, m1, w2, p2, m2, x.bec.asPathVmac.value, x.asPath, x.asMask);
  }

  // The reachability rules read the VMACs as they are built.
  lemma VmacReachability(layout: Layout, isdxSize: nat, ssId: nat, superset: Superset, prefixSet: Group,
                         peersOut: Group, nextHop: nat, bec: Bec, tags: Tags, s: nat, k: nat, inMatch: bool,
                         inMask: bool)
    requires FitsLayout(layout, ssId, superset, isdxSize) && nextHop < Pow2(layout.bestPathSize)
    requires s < Pow2(layout.idSize) && k < layout.maskSize
    requires isdxSize + |BackupPart(layout, bec, tags)| + |PathPart(bec)| <= VMAC_SIZE
    ensures Matches(VmacBits(layout, ssId, superset, prefixSet, peersOut, nextHop, bec, tags),
                    ParticipantMatch(layout, s, k, inMatch), ParticipantMask(layout, k, inMask)) <==>
            && (inMask ==> inMatch)
            && ssId == s && k < |superset| && superset[k] in prefixSet && superset[k] in peersOut
  {
    hide Matches, Field, Pow2, BackupPart, PathPart, ParticipantMatch, ParticipantMask;
    FieldLength(ssId, layout.idSize);
    FieldLength(nextHop, layout.bestPathSize);
    var reach := Reach(layout, ssId, superset, prefixSet, peersOut);
    var tail := Field(nextHop, layout.bestPathSize) + BackupPart(layout, bec, tags) + PathPart(bec);
    var rest := PadRight(tail, VMAC_SIZE - |reach|);
    assert reach + tail == reach + Field(nextHop, layout.bestPathSize) + BackupPart(layout, bec, tags) + PathPart(bec);
    assert VmacBits(layout, ssId, superset, prefixSet, peersOut, nextHop, bec, tags) == reach + rest;
    ReachabilityDecode(layout, ssId, superset, prefixSet, peersOut, rest, s, k, inMatch, inMask);
  }

  lemma ThreeParts(w1: Bits, p1: Bits, m1: Bits, w2: Bits, p2: Bits, m2: Bits, w3: Bits, p3: Bits, m3: Bits)
    requires |w1| == |p1| == |m1| && |w2| == |p2| == |m2| && |w3| == |p3| == |m3|
    requires |w1| + |w2| + |w3| == VMAC_SIZE
    ensures Matches(PadRight(w1 + w2 + w3, VMAC_SIZE), MacBits(p1 + p2 + p3), MacBits(m1 + m2 + m3)) <==>
            Matches(w1, p1, m1) && Matches(w2, p2, m2) && Matches(w3, p3, m3)
  {
    hide Matches;
    MatchesConcat(w1 + w2, p1 + p2, m1 + m2, w3, p3, m3);
    MatchesConcat(w1, p1, m1, w2, p2, m2);
  }

  // Hence the rules of two backups never match the same VMAC, at a depth that has a field.
  lemma OneBackupMatches(layout: Layout, isdxSize: nat, x: Encounter, b: Part)
    requires Fair(layout, isdxSize, x) && b in x.tags && TotalSize(layout, isdxSize, |x.asPath|) == VMAC_SIZE
    requires Caught(layout, isdxSize, x) && Caught(layout, isdxSize, x.(backup := b))
    ensures AsksForBackup(layout, x.depth) ==> b == x.backup
  {
    hide Caught, Matches, Pow2, FitsLayout, Alignable;
    RerouteRuleIsExact(layout, isdxSize, x);
    RerouteRuleIsExact(layout, isdxSize, x.(backup := b));
  }

  // One depth further, the rules of all backups match the same VMACs.
  lemma AllBackupsMatch(layout: Layout, isdxSize: nat, x: Encounter, b: Part)
    requires Fair(layout, isdxSize, x) && b in x.tags && TotalSize(layout, isdxSize, |x.asPath|) == VMAC_SIZE
    requires x.depth == layout.maxDepth + 1
    ensures Caught(layout, isdxSize, x) <==> Caught(layout, isdxSize, x.(backup := b))
    ensures Caught(layout, isdxSize, x) <==> x.nextHop == x.peer && Matches(x.bec.asPathVmac.value, x.asPath, x.asMask)
  {
    hide Caught, Matches, Pow2, FitsLayout, Alignable;
    RerouteRuleIsExact(layout, isdxSize, x);
    RerouteRuleIsExact(layout, isdxSize, x.(backup := b));
  }

  // ---- sizes that do not add up ----

  // A word padded on the right and a pattern padded on the left: the last bit of the word
  // that is set falls short of where the pattern has it.
  lemma ShiftedMisses(w: Bits, p: Bits, m: Bits, t: nat)
    requires |w| == |p| == |m| < VMAC_SIZE && t < |w| && p[t] && m[t] && forall i :: t < i < |w| ==> !w[i]
    ensures !Matches(PadRight(w, VMAC_SIZE), MacBits(p), MacBits(m))
  {
    var j := VMAC_SIZE - |w| + t;
    assert MacBits(p)[j] == p[t] && MacBits(m)[j] == m[t];
    assert !PadRight(w, VMAC_SIZE)[j];
  }

  // A next hop with a single backup, at depth d, and nothing else in its VMAC.
  function Lone(depth: nat, pathSize: nat): Encounter
    requires depth >= 1
  {
    var bec := Bec(Some(Zeros(pathSize)), Some(seq(depth - 1, _ => None) + [Some(0)]));
    Encounter(0, [], {}, {}, 0, bec, map[0 := 1], 0, 0, depth, Zeros(pathSize), Zeros(pathSize))
  }

  // A next hop without backups.
  function Bare(depth: nat, pathSize: nat): Encounter {
    Encounter(0, [], {}, {}, 1, Bec(Some(Zeros(pathSize)), Some([])), map[0 := 1], 1, 0, depth, Zeros(pathSize),
              Zeros(pathSize))
  }

  ghost predicate Feasible(layout: Layout, isdxSize: nat) {
    && layout.idSize >= 1 && layout.bestPathSize >= 1 && layout.maskSize >= 0 && layout.tagSize >= 1
    && 1 + layout.idSize + layout.maskSize + layout.bestPathSize == isdxSize
  }

  function Specimen(layout: Layout, depth: nat, pathSize: nat): Encounter {
    if AsksForBackup(layout, depth) then Lone(depth, pathSize) else Bare(depth, pathSize)
  }

  lemma SpecimenIsMeant(layout: Layout, isdxSize: nat, depth: nat, pathSize: nat)
    requires Feasible(layout, isdxSize)
    ensures var x := Specimen(layout, depth, pathSize); Fair(layout, isdxSize, x) && Meant(layout, x)
  {
    var x := Specimen(layout, depth, pathSize);
    Pow2Monotone(1, layout.bestPathSize);
    Pow2Monotone(1, layout.tagSize);
    Pow2Monotone(1, layout.idSize);
    assert x.tags.Keys == {0};
    MatchesZeros(Zeros(pathSize), Zeros(pathSize));
  }

  // The bits of the single backup are those its rule asks for.
  lemma LoneBackupBits(layout: Layout, depth: nat, pathSize: nat)
    requires 1 <= depth <= layout.maxDepth && layout.tagSize >= 1
    ensures var x := Lone(depth, pathSize);
            BackupBits(layout, x.bec.backupNbs.value, x.tags) == Concat(BackupPattern(layout, depth, 1))
  {
    hide Concat, Field, Moved;
    var x, n := Lone(depth, pathSize), layout.tagSize;
    var backups := x.bec.backupNbs.value;
    Pow2Monotone(1, n);
    assert x.tags.Keys == {0};
    MovedInPlace(backups, x.tags, n);
    InPlaceFacts(backups, x.tags, n);
    PaddedFields(InPlace(backups, x.tags, n), layout.maxDepth, n);
    assert InPlace(backups, x.tags, n) + ZeroFields(layout.maxDepth - |backups|, n) == BackupPattern(layout, depth, 1);
  }

  // The bits a rule asks for are bits it looks at, and some of them are set.
  lemma PatternUnderMask(layout: Layout, depth: nat) returns (t: nat)
    requires 1 <= depth <= layout.maxDepth && layout.tagSize >= 1
    ensures var p, m := Concat(BackupPattern(layout, depth, 1)), Concat(BackupMask(layout, depth));
            && |p| == |m| == layout.maxDepth * layout.tagSize
            && t < |p| && p[t] && m[t] && forall i :: t < i < |p| ==> !p[i]
  {
    hide Concat;
    var n := layout.tagSize;
    var patterns, masks := BackupPattern(layout, depth, 1), BackupMask(layout, depth);
    Pow2Monotone(1, n);
    FieldLength(1, n);
    FieldZero(n);
    FieldInjective(1, 0, n);
    ConcatLength(patterns, n);
    ConcatLength(masks, n);
    ConcatZeros(layout.maxDepth, n);
    assert patterns[depth - 1] != ZeroFields(layout.maxDepth, n)[depth - 1];
    ConcatInjective(patterns, ZeroFields(layout.maxDepth, n), n);
    t := LastSet(Concat(patterns));
    ConcatCovers(patterns, masks, n);
  }

  lemma ZerosFromFront(s: Bits)
    requires s != []
    ensures !s[|s| - 1] && s[..|s| - 1] == Zeros(|s| - 1) ==> s == Zeros(|s|)
  {
    assert s == s[..|s| - 1] + [s[|s| - 1]];
  }

  lemma {:induction false} LastSet(s: Bits) returns (t: nat)
    requires s != Zeros(|s|)
    ensures t < |s| && s[t] && forall i :: t < i < |s| ==> !s[i]
  {
    var n := |s| - 1;
    t := n;
    if !s[n] {
      ZerosFromFront(s);
      t := LastSet(s[..n]);
    }
  }

  lemma SpecimenIsMissed(layout: Layout, isdxSize: nat, depth: nat, pathSize: nat)
    requires Feasible(layout, isdxSize) && TotalSize(layout, isdxSize, pathSize) < VMAC_SIZE
    ensures !Caught(layout, isdxSize, Specimen(layout, depth, pathSize))
  {
    if AsksForBackup(layout, depth) {
      LoneIsMissed(layout, isdxSize, depth, pathSize);
    } else {
      BareIsMissed(layout, isdxSize, depth, pathSize);
    }
  }

  // The middle part has its last set bit at t; nothing follows it.
  lemma MissesInMiddle(w1: Bits, p1: Bits, m1: Bits, w2: Bits, m2: Bits, n: nat, t: nat)
    requires |w1| == |p1| == |m1| && |w2| == |m2| && |w1| + |w2| + n < VMAC_SIZE
    requires t < |w2| && w2[t] && m2[t] && forall i :: t < i < |w2| ==> !w2[i]
    ensures !Matches(PadRight(w1 + w2 + Zeros(n), VMAC_SIZE), MacBits(p1 + w2 + Zeros(n)), MacBits(m1 + m2 + Zeros(n)))
  {
    hide Matches, PadRight, MacBits;
    ShiftedMisses(w1 + w2 + Zeros(n), p1 + w2 + Zeros(n), m1 + m2 + Zeros(n), |w1| + t);
  }

  // The rule asks for a set bit at the end of the front part; nothing follows it in the word.
  lemma MissesInFront(w1: Bits, p1: Bits, m1: Bits, p2: Bits, m2: Bits, k: nat, n: nat)
    requires |w1| == |p1| == |m1| >= 1 && |p2| == |m2| == k && |w1| + k + n < VMAC_SIZE
    requires p1[|p1| - 1] && m1[|m1| - 1]
    ensures !Matches(PadRight(w1 + Zeros(k) + Zeros(n), VMAC_SIZE), MacBits(p1 + p2 + Zeros(n)),
                     MacBits(m1 + m2 + Zeros(n)))
  {
    hide Matches, PadRight, MacBits;
    ShiftedMisses(w1 + Zeros(k) + Zeros(n), p1 + p2 + Zeros(n), m1 + m2 + Zeros(n), |w1| - 1);
  }

  lemma LoneIsMissed(layout: Layout, isdxSize: nat, depth: nat, pathSize: nat)
    requires Feasible(layout, isdxSize) && TotalSize(layout, isdxSize, pathSize) < VMAC_SIZE
    requires 1 <= depth <= layout.maxDepth
    ensures !Caught(layout, isdxSize, Lone(depth, pathSize))
  {
    hide Concat, Field, Matches, BackupBits, BackupPattern, BackupMask, Reach, PadRight, MacBits;
    var x, best := Lone(depth, pathSize), layout.bestPathSize;
    SpecimenLengths(layout, isdxSize, 0, 0);
    LoneBackupBits(layout, depth, pathSize);
    var t := PatternUnderMask(layout, depth);
    MissesInMiddle(Reach(layout, 0, [], {}, {}) + Field(0, best), Field(0, isdxSize), Field(Pow2(best) - 1, isdxSize),
                   Concat(BackupPattern(layout, depth, 1)), Concat(BackupMask(layout, depth)), pathSize, t);
  }

  lemma SpecimenLengths(layout: Layout, isdxSize: nat, nextHop: nat, peer: nat)
    requires Feasible(layout, isdxSize) && nextHop <= 1 && peer <= 1
    ensures |Reach(layout, 0, [], {}, {}) + Field(nextHop, layout.bestPathSize)| == isdxSize
    ensures |Field(peer, isdxSize)| == isdxSize && |Field(Pow2(layout.bestPathSize) - 1, isdxSize)| == isdxSize
  {
    hide Field;
    Pow2Monotone(1, layout.bestPathSize);
    Pow2Monotone(1, layout.idSize);
    FieldLength(0, layout.idSize);
    NextHopDecides(Reach(layout, 0, [], {}, {}), nextHop, peer, layout.bestPathSize, isdxSize);
  }

  lemma BareIsMissed(layout: Layout, isdxSize: nat, depth: nat, pathSize: nat)
    requires Feasible(layout, isdxSize) && TotalSize(layout, isdxSize, pathSize) < VMAC_SIZE
    requires !AsksForBackup(layout, depth)
    ensures !Caught(layout, isdxSize, Bare(depth, pathSize))
  {
    hide Concat, Field, Matches, BackupBits, BackupPattern, BackupMask, Reach, PadRight, MacBits;
    var x, best, k := Bare(depth, pathSize), layout.bestPathSize, layout.maxDepth * layout.tagSize;
    SpecimenLengths(layout, isdxSize, 1, 1);
    FieldOnes(best, isdxSize);
    LastBitOfOne(isdxSize);
    NoBackupBits(layout, x.tags);
    RuleLengths(layout, depth);
    MissesInFront(Reach(layout, 0, [], {}, {}) + Field(1, best), Field(1, isdxSize), Field(Pow2(best) - 1, isdxSize),
                  Concat(BackupPattern(layout, depth, 1)), Concat(BackupMask(layout, depth)), k, pathSize);
  }

  lemma NoBackupBits(layout: Layout, tags: Tags)
    ensures BackupBits(layout, [], tags) == Zeros(layout.maxDepth * layout.tagSize)
  {
    hide Concat;
    NothingConcat();
  }

  lemma LastBitOfOne(width: nat)
    requires width >= 1
    ensures |Field(1, width)| == width && Field(1, width)[width - 1]
  {
    assert Numeral(1) == [true];
  }

  lemma NothingConcat()
    ensures Concat([]) == []
  {
  }

  lemma RuleLengths(layout: Layout, depth: nat)
    requires layout.tagSize >= 1
    ensures |Concat(BackupPattern(layout, depth, 1))| == |Concat(BackupMask(layout, depth))| ==
            layout.maxDepth * layout.tagSize
  {
    hide Concat;
    Pow2Monotone(1, layout.tagSize);
    FieldLength(1, layout.tagSize);
    ConcatLength(BackupPattern(layout, depth, 1), layout.tagSize);
    ConcatLength(BackupMask(layout, depth), layout.tagSize);
  }

  // The rules of a depth match exactly the VMACs they are meant for if, and only if, the
  // sizes of the fields add up to the 48 bits: VMACs are padded on the right and rules,
  // being read as numbers, on the left.
  lemma SizesMustAddUp(layout: Layout, isdxSize: nat, depth: nat, pathSize: nat)
    requires Feasible(layout, isdxSize) && TotalSize(layout, isdxSize, pathSize) <= VMAC_SIZE
    ensures (forall x: Encounter :: Fair(layout, isdxSize, x) && x.depth == depth && |x.asPath| == pathSize ==>
               (Caught(layout, isdxSize, x) <==> Meant(layout, x)))
            <==> TotalSize(layout, isdxSize, pathSize) == VMAC_SIZE
  {
    hide Caught, Meant, FitsLayout, Pow2;
    if TotalSize(layout, isdxSize, pathSize) == VMAC_SIZE {
      forall x: Encounter | Fair(layout, isdxSize, x) && x.depth == depth && |x.asPath| == pathSize
        ensures Caught(layout, isdxSize, x) <==> Meant(layout, x)
      {
        RerouteRuleIsExact(layout, isdxSize, x);
      }
    } else {
      SpecimenIsMeant(layout, isdxSize, depth, pathSize);
      SpecimenIsMissed(layout, isdxSize, depth, pathSize);
      var x := Specimen(layout, depth, pathSize);
      assert Fair(layout, isdxSize, x) && x.depth == depth && |x.asPath| == pathSize;
    }
  }

  // ---- the address a rerouted packet gets ----

  // `vmac_next_hop_match_iSDXmac`.
  function NextHopMac(isdxSize: nat, part: nat, inboundBit: bool): Bits {
    var padded := PadRight(Field(part, isdxSize), VMAC_SIZE);
    if inboundBit then Bit(true) + padded[1..] else padded
  }

  // `vmac_next_hop_mask_iSDXmac`.
  function NextHopMask(layout: Layout, isdxSize: nat): Bits {
    NextHopMac(isdxSize, Pow2(layout.bestPathSize) - 1, false)
  }

  // A rerouted packet is matched by the next-hop rule of its backup and of nobody else.
  lemma RerouteReachesBackup(layout: Layout, isdxSize: nat, b: nat, part: nat)
    requires 1 <= layout.bestPathSize < isdxSize <= VMAC_SIZE
    requires b < Pow2(layout.bestPathSize) && part < Pow2(layout.bestPathSize)
    ensures Matches(NextHopMac(isdxSize, b, true), NextHopMac(isdxSize, part, false),
                    NextHopMask(layout, isdxSize)) <==>
            b == part
  {
    hide Matches, Field, Pow2;
    var best := layout.bestPathSize;
    FieldWider(b, best, isdxSize);
    FieldLength(b, best);
    var front := Bit(true) + Zeros(isdxSize - best - 1);
    NextHopDecides(front, b, part, best, isdxSize);
    var rest := Zeros(VMAC_SIZE - isdxSize);
    assert NextHopMac(isdxSize, b, true) == front + Field(b, best) + rest;
    assert NextHopMac(isdxSize, part, false) == Field(part, isdxSize) + rest;
    assert NextHopMask(layout, isdxSize) == Field(Pow2(best) - 1, isdxSize) + rest;
    MatchesConcat(front + Field(b, best), Field(part, isdxSize), Field(Pow2(best) - 1, isdxSize), rest, rest, rest);
    MatchesZeros(rest, rest);
  }

  // In plain terms: the number of the participant in the field of the superset part, zeros
  // behind it, and the inbound bit in front.
  lemma NextHopMacPlain(isdxSize: nat, part: nat, inboundBit: bool)
    requires 1 <= isdxSize <= VMAC_SIZE && part < Pow2(isdxSize - 1)
    ensures var mac := NextHopMac(isdxSize, part, inboundBit);
            && |mac| == 48 && mac[0] == inboundBit
            && (forall i :: 1 <= i < isdxSize ==> mac[i] == (part / Pow2(isdxSize - 1 - i) % 2 == 1))
            && forall i :: isdxSize <= i < 48 ==> !mac[i]
  {
    FieldWidens(part, isdxSize);
    FieldBit(part, isdxSize, 0);
    hide Field;
    forall i | 0 <= i < isdxSize
      ensures Field(part, isdxSize)[i] == (part / Pow2(isdxSize - 1 - i) % 2 == 1)
    {
      FieldBit(part, isdxSize, i);
    }
  }

  lemma FieldWidens(part: nat, isdxSize: nat)
    requires 1 <= isdxSize && part < Pow2(isdxSize - 1)
    ensures part < Pow2(isdxSize) && part / Pow2(isdxSize - 1) == 0
  {
    Pow2Monotone(isdxSize - 1, isdxSize);
  }

  // In plain terms, the VMAC from its first bit to its last: a one, the number of the superset,
  // a bit for every place of the superset whose participant advertises and is exported to, the
  // number of the next hop, the backups, the path, and zeros.
  lemma VmacPlain(layout: Layout, isdxSize: nat, ssId: nat, superset: Superset, prefixSet: Group, peersOut: Group,
                  nextHop: nat, bec: Bec, tags: Tags)
    requires FitsLayout(layout, ssId, superset, isdxSize) && nextHop < Pow2(layout.bestPathSize)
    requires isdxSize + |BackupPart(layout, bec, tags)| + |PathPart(bec)| <= 48
    ensures var v := VmacBits(layout, ssId, superset, prefixSet, peersOut, nextHop, bec, tags);
            var id, mask, best := layout.idSize, layout.maskSize, layout.bestPathSize;
            var number, places, next := v[1..1 + id], v[1 + id..1 + id + mask], v[1 + id + mask..isdxSize];
            && |v| == 48 && v[0]
            && (forall i :: 0 <= i < id ==> number[i] == (ssId / Pow2(id - 1 - i) % 2 == 1))
            && (forall i :: 0 <= i < mask ==>
                  places[i] == (i < |superset| && superset[i] in prefixSet && superset[i] in peersOut))
            && (forall i :: 0 <= i < best ==> next[i] == (nextHop / Pow2(best - 1 - i) % 2 == 1))
    ensures var v := VmacBits(layout, ssId, superset, prefixSet, peersOut, nextHop, bec, tags);
            var k := isdxSize + |BackupPart(layout, bec, tags)|;
            var n := k + |PathPart(bec)|;
            && v[isdxSize..k] == BackupPart(layout, bec, tags) && v[k..n] == PathPart(bec)
            && forall i :: n <= i < 48 ==> !v[i]
  {
    hide BackupPart, PathPart, Field, Reach;
    var reach, next := Reach(layout, ssId, superset, prefixSet, peersOut), Field(nextHop, layout.bestPathSize);
    ReachPlain(layout, isdxSize, ssId, superset, prefixSet, peersOut);
    NumberPlain(nextHop, layout.bestPathSize);
    FourParts(reach, next, BackupPart(layout, bec, tags), PathPart(bec));
  }

  // Twelve zeros stand for backups or a path that the class has not got.
  lemma MissingParts(layout: Layout, bec: Bec, tags: Tags)
    ensures BackupPart(layout, bec, tags) ==
            if bec.backupNbs.Some? then BackupBits(layout, bec.backupNbs.value, tags) else Zeros(12)
    ensures PathPart(bec) == if bec.asPathVmac.Some? then bec.asPathVmac.value else Zeros(12)
  {
  }

  lemma NumberPlain(x: nat, width: nat)
    requires width >= 1 && x < Pow2(width)
    ensures |Field(x, width)| == width
    ensures forall i :: 0 <= i < width ==> Field(x, width)[i] == (x / Pow2(width - 1 - i) % 2 == 1)
  {
    FieldLength(x, width);
    hide Field;
    forall i | 0 <= i < width
      ensures Field(x, width)[i] == (x / Pow2(width - 1 - i) % 2 == 1)
    {
      FieldBit(x, width, i);
    }
  }

  lemma FourParts(a: Bits, b: Bits, c: Bits, d: Bits)
    requires 1 <= |a| && |a| + |b| + |c| + |d| <= 48
    ensures var v, l, m, n := PadRight(a + b + c + d, VMAC_SIZE), |a|, |a| + |b|, |a| + |b| + |c|;
            && |v| == 48 && v[0] == a[0] && (forall i, j :: 0 <= i <= j <= l ==> v[i..j] == a[i..j])
            && v[l..m] == b && v[m..n] == c && v[n..n + |d|] == d
            && forall i :: n + |d| <= i < 48 ==> !v[i]
  {
  }

  lemma ReachPlain(layout: Layout, isdxSize: nat, ssId: nat, superset: Superset, prefixSet: Group, peersOut: Group)
    requires FitsLayout(layout, ssId, superset, isdxSize)
    ensures var v := Reach(layout, ssId, superset, prefixSet, peersOut);
            var id, mask := layout.idSize, layout.maskSize;
            var number, places := v[1..1 + id], v[1 + id..1 + id + mask];
            && |v| == 1 + id + mask && v[0]
            && (forall i :: 0 <= i < id ==> number[i] == (ssId / Pow2(id - 1 - i) % 2 == 1))
            && forall i :: 0 <= i < mask ==>
                 places[i] == (i < |superset| && superset[i] in prefixSet && superset[i] in peersOut)
  {
    hide Field;
    NumberPlain(ssId, layout.idSize);
    var v := Reach(layout, ssId, superset, prefixSet, peersOut);
    assert v[1..1 + layout.idSize] == Field(ssId, layout.idSize);
    assert v[1 + layout.idSize..] ==
           PadRight(SetBits(superset, prefixSet, peersOut), NonNegative(layout.maskSize));
  }

  // In plain terms: the tag of the backup for depth d + 1 in field d, zeros for a missing one
  // and behind the last.
  lemma BackupsPlain(layout: Layout, backups: seq<Option<Part>>, tags: Tags, d: nat, i: nat)
    requires TagsFit(tags, layout.tagSize) && AllTagged(backups, tags) && MissingFirst(backups)
    requires |backups| <= layout.maxDepth && d < layout.maxDepth && i < layout.tagSize
    ensures var n := layout.tagSize;
            && |BackupBits(layout, backups, tags)| == layout.maxDepth * n && 0 <= d * n + i < layout.maxDepth * n
            && BackupBits(layout, backups, tags)[d * n + i] ==
               (d < |backups| && backups[d].Some? && tags[backups[d].value] / Pow2(n - 1 - i) % 2 == 1)
  {
    hide Field, Concat, Moved, InPlace;
    var n := layout.tagSize;
    MovedInPlace(backups, tags, n);
    InPlaceFacts(backups, tags, n);
    PaddedFields(InPlace(backups, tags, n), layout.maxDepth, n);
    var fields := InPlace(backups, tags, n) + ZeroFields(layout.maxDepth - |backups|, n);
    ConcatLength(fields, n);
    ConcatAt(fields, n, d, i);
    if d < |backups| && backups[d].Some? {
      FieldBit(tags[backups[d].value], n, i);
    }
  }

  lemma {:induction false} ConcatAt(fields: seq<Bits>, n: nat, d: nat, i: nat)
    requires AllWide(fields, n) && d < |fields| && i < n
    ensures |Concat(fields)| == |fields| * n && 0 <= d * n + i < |fields| * n
    ensures Concat(fields)[d * n + i] == fields[d][i]
  {
    var k := |fields| - 1;
    ConcatLength(fields, n);
    ConcatLength(fields[..k], n);
    Product(k, 1, n);
    if d < k {
      ConcatAt(fields[..k], n, d, i);
    }
  }

  // ---- the controller ----

  datatype Rule = Rule(ethDst: Bits, ethDstMask: Bits, ethSrc: Mac, setEthDst: Bits)

  // The advertisers some policy forwards to.
  function ActiveAdvertisers(fec: ForwardingClass, policies: seq<Option<Part>>): Group {
    set p | p in fec.partAdvertising && Some(p) in policies
  }

  // The first superset that holds the group.
  ghost predicate Home(g: Group, supersets: seq<Superset>, i: nat) {
    i < |supersets| && g <= SetOf(supersets[i]) && forall k :: 0 <= k < i ==> !(g <= SetOf(supersets[k]))
  }

  class ParticipantController {
    const supersets: SuperSets
    const peersOut: Group
    const macs: seq<Mac>
    const maxDepth: nat
    const nexthopsNbBits: nat

    var tagDict: Tags
    var dpQueued: seq<Rule>

    constructor (supersets: SuperSets, peersOut: Group, macs: seq<Mac>, maxDepth: nat, nexthopsNbBits: nat)
      ensures this.supersets == supersets && TagsInOrder(tagDict) && dpQueued == []
    {
      this.supersets, this.peersOut, this.macs, this.maxDepth := supersets, peersOut, macs, maxDepth;
      this.nexthopsNbBits, tagDict, dpQueued := nexthopsNbBits, map[], [];
    }

    function Sizes(): Layout
      reads supersets
    {
      Layout(supersets.idSize, supersets.maskSize, supersets.bestPathSize, nexthopsNbBits, maxDepth)
    }

    function IsdxSize(): nat {
      NonNegative(supersets.iSDXVMACSize)
    }

    // A VMAC for these classes: that of the first superset with the active advertisers.
    ghost predicate MakesVmac(vmac: Bits, policies: seq<Option<Part>>, fec: ForwardingClass, bec: Bec)
      reads `tagDict, supersets
    {
      exists ssId: nat ::
        && Home(ActiveAdvertisers(fec, policies), supersets.supersets, ssId)
        && vmac == VmacBits(Sizes(), ssId, supersets.supersets[ssId], ActiveAdvertisers(fec, policies), peersOut,
                            fec.nextHopPart, bec, tagDict)
    }

    // Exactly the rules of every tagged participant but the peer, for every port.
    ghost predicate MakesRules(rules: seq<Rule>, peerId: Part, depth: nat, asPathVmac: Bits, asPathBitmask: Bits)
      reads `tagDict, supersets
    {
      forall r {:trigger r in rules} :: r in rules <==>
        exists b: Part, mac: Mac ::
          b in tagDict && b != peerId && mac in macs &&
          r == RuleFor(peerId, b, depth, mac, asPathVmac, asPathBitmask)
    }

    // `get_vmac`, for the classes of a virtual next hop. It fails exactly if no superset
    // holds the active advertisers.
    method GetVmac(policies: seq<Option<Part>>, fec: ForwardingClass, bec: Bec) returns (vmac: Option<Bits>)
      requires TagsInOrder(tagDict)
      modifies `tagDict
      ensures TagsInOrder(tagDict) && Extends(old(tagDict), tagDict)
      ensures vmac.None? <==> !Placed(ActiveAdvertisers(fec, policies), supersets.supersets)
      ensures vmac.None? ==> tagDict == old(tagDict)
      ensures vmac.Some? && bec.backupNbs.Some? ==>
                tagDict == TagsAfter(old(tagDict), bec.backupNbs.value) && AllTagged(bec.backupNbs.value, tagDict)
      ensures vmac.Some? && bec.backupNbs.None? ==> tagDict == old(tagDict)
      ensures vmac.Some? ==> MakesVmac(vmac.value, policies, fec, bec)
    {
      hide Field, BackupBits, TagsInOrder, AllTagged, Extends;
      var counts := RecomputeRulecounts(policies);
      var prefixSet := fec.partAdvertising * counts.Keys;
      assert prefixSet == ActiveAdvertisers(fec, policies);
      NoChange(tagDict);
      var ssId := FindHome(prefixSet);
      if ssId == |supersets.supersets| {
        return None;
      }
      var setBitstring := MaskBits(ssId, prefixSet);
      var vmacBitstring := Bit(true) + Field(ssId, supersets.idSize) + setBitstring +
                           Field(fec.nextHopPart, supersets.bestPathSize);
      var backupVmac := Zeros(12);
      if bec.backupNbs.Some? {
        backupVmac := BackupVmac(bec.backupNbs.value);
      }
      var asPathVmac := if bec.asPathVmac.None? then Zeros(12) else bec.asPathVmac.value;
      vmac := Some(PadRight(vmacBitstring + backupVmac + asPathVmac, VMAC_SIZE));
    }

    // The search for the superset; its length if there is none.
    method FindHome(g: Group) returns (i: nat)
      ensures i < |supersets.supersets| ==> Home(g, supersets.supersets, i) && Placed(g, supersets.supersets)
      ensures i >= |supersets.supersets| ==> i == |supersets.supersets| && !Placed(g, supersets.supersets)
    {
      i := 0;
      while i < |supersets.supersets| && !(g <= SetOf(supersets.supersets[i]))
        invariant i <= |supersets.supersets| && forall k :: 0 <= k < i ==> !(g <= SetOf(supersets.supersets[k]))
      {
        i := i + 1;
      }
    }

    method MaskBits(ssId: nat, prefixSet: Group) returns (s: Bits)
      requires ssId < |supersets.supersets|
      ensures s == PadRight(SetBits(supersets.supersets[ssId], prefixSet, peersOut), NonNegative(supersets.maskSize))
    {
      s := [];
      var superset := supersets.supersets[ssId];
      for k := 0 to |superset|
        invariant s == SetBits(superset, prefixSet, peersOut)[..k]
      {
        var part := superset[k];
        s := s + Bit(part in prefixSet && part in peersOut);
      }
      if |s| < supersets.maskSize {
        s := s + Zeros(supersets.maskSize - |s|);
      }
    }

    // The backup part; backups seen for the first time get the next tag.
    method BackupVmac(backups: seq<Option<Part>>) returns (s: Bits)
      requires TagsInOrder(tagDict)
      modifies `tagDict
      ensures TagsInOrder(tagDict) && Extends(old(tagDict), tagDict) && AllTagged(backups, tagDict)
      ensures tagDict == TagsAfter(old(tagDict), backups)
      ensures s == BackupBits(Sizes(), backups, tagDict)
    {
      hide Field, TagsInOrder, Extends, AllTagged, TagField, Concat;
      ghost var tags0 := tagDict;
      s := [];
      NothingConcat();
      TagsAfterFacts(tags0, []);
      var d := 0;
      while d < |backups|
        invariant d <= |backups| && tagDict == TagsAfter(tags0, backups[..d]) && TagsInOrder(tagDict)
        invariant AllTagged(backups[..d], tagDict) && s == Concat(Moved(backups[..d], tagDict, nexthopsNbBits))
      {
        ghost var before := tagDict;
        assert backups[..d + 1][..d] == backups[..d];
        TagsAfterFacts(tags0, backups[..d + 1]);
        NoChange(before);
        match backups[d] {
          case None =>
            s := Zeros(nexthopsNbBits) + s;
          case Some(part) =>
            TagsWithFacts(tagDict, part);
            if part !in tagDict {
              var tag := |tagDict.Keys| + 1;
              tagDict := tagDict[part := tag];
            }
            s := s + Field(tagDict[part], nexthopsNbBits);
        }
        MovedOneMore(backups, d, before, tagDict, nexthopsNbBits);
        d := d + 1;
      }
      assert backups[..d] == backups;
      TagsAfterFacts(tags0, backups);
      s := PadRight(s, maxDepth * nexthopsNbBits);
    }

    // In plain terms: the VMAC is made for the first superset that has all advertisers some
    // policy forwards to, and its bit for a place is set exactly if the participant there is one
    // of them and is exported to.
    lemma MadeForHome(vmac: Bits, policies: seq<Option<Part>>, fec: ForwardingClass, bec: Bec) returns (ssId: nat)
      requires MakesVmac(vmac, policies, fec, bec)
      requires supersets.idSize >= 1 && supersets.bestPathSize >= 1 && supersets.maskSize >= 0
      requires |supersets.supersets| <= Pow2(supersets.idSize) && fec.nextHopPart < Pow2(supersets.bestPathSize)
      requires forall i :: 0 <= i < |supersets.supersets| ==> |supersets.supersets[i]| <= supersets.maskSize
      requires var size := 1 + supersets.idSize + supersets.maskSize + supersets.bestPathSize;
               size + |BackupPart(Sizes(), bec, tagDict)| + |PathPart(bec)| <= 48
      ensures ssId < |supersets.supersets| && |vmac| == 48
      ensures forall p :: p in fec.partAdvertising && Some(p) in policies ==> p in supersets.supersets[ssId]
      ensures forall i :: 0 <= i < ssId ==> LacksAdvertiser(fec, policies, supersets.supersets[i])
      ensures var places := vmac[1 + supersets.idSize..1 + supersets.idSize + supersets.maskSize];
              forall k :: 0 <= k < supersets.maskSize ==>
                places[k] == (k < |supersets.supersets[ssId]| &&
                              var p := supersets.supersets[ssId][k];
                              p in fec.partAdvertising && Some(p) in policies && p in peersOut)
    {
      hide VmacBits, ActiveAdvertisers, LacksAdvertiser, BackupPart, PathPart, Pow2;
      ssId :|
        && Home(ActiveAdvertisers(fec, policies), supersets.supersets, ssId)
        && vmac == VmacBits(Sizes(), ssId, supersets.supersets[ssId], ActiveAdvertisers(fec, policies), peersOut,
                            fec.nextHopPart, bec, tagDict);
      hide Home;
      HomePlain(fec, policies, supersets.supersets, ssId);
      ActivePlain(fec, policies);
      VmacPlain(Sizes(), 1 + supersets.idSize + supersets.maskSize + supersets.bestPathSize, ssId,
                supersets.supersets[ssId], ActiveAdvertisers(fec, policies), peersOut, fec.nextHopPart, bec, tagDict);
    }

    // `process_FR`: a rule for every tagged participant but the failing peer, and for every
    // port, unless the depth is beyond what the rules can express.
    method ProcessFR(peerId: Part, asPathVmac: Bits, asPathBitmask: Bits, depth: nat)
      modifies `dpQueued
      ensures depth > maxDepth + 1 ==> dpQueued == old(dpQueued)
      ensures depth <= maxDepth + 1 ==>
                && old(dpQueued) <= dpQueued
                && MakesRules(dpQueued[|old(dpQueued)|..], peerId, depth, asPathVmac, asPathBitmask)
                && (forall r :: r in dpQueued[|old(dpQueued)|..] ==> r.ethSrc in macs)
                && (forall b, mac :: b in tagDict && b != peerId && mac in macs ==>
                      exists r :: r in dpQueued[|old(dpQueued)|..] && r.ethSrc == mac &&
                                  r.setEthDst == NextHopMac(IsdxSize(), b, true))
    {
      hide MakesRules, NextHopMac;
      if depth > maxDepth + 1 {
        return;
      }
      var rules := RerouteRules(peerId, asPathVmac, asPathBitmask, depth);
      RulesPerPort(rules, peerId, depth, asPathVmac, asPathBitmask);
      dpQueued := dpQueued + rules;
      assert dpQueued[|old(dpQueued)|..] == rules;
    }

    method RerouteRules(peerId: Part, asPathVmac: Bits, asPathBitmask: Bits, depth: nat) returns (rules: seq<Rule>)
      ensures MakesRules(rules, peerId, depth, asPathVmac, asPathBitmask)
    {
      hide RuleFor;
      rules := [];
      var rest := tagDict.Keys;
      while rest != {}
        invariant rest <= tagDict.Keys
        invariant forall r :: r in rules <==> exists b: Part, mac: Mac ::
                    b in tagDict.Keys - rest && b != peerId && mac in macs &&
                    r == RuleFor(peerId, b, depth, mac, asPathVmac, asPathBitmask)
        decreases rest
      {
        var backupPart :| backupPart in rest;
        ghost var done := tagDict.Keys - rest;
        assert tagDict.Keys - (rest - {backupPart}) == done + {backupPart};
        if backupPart != peerId {
          var more := RulesOfBackup(peerId, backupPart, depth, asPathVmac, asPathBitmask);
          rules := rules + more;
        }
        rest := rest - {backupPart};
      }
    }

    // Every rule is for a port, and every backup has a rule for every port.
    lemma RulesPerPort(rules: seq<Rule>, peerId: Part, depth: nat, asPathVmac: Bits, asPathBitmask: Bits)
      requires MakesRules(rules, peerId, depth, asPathVmac, asPathBitmask)
      ensures forall r :: r in rules ==> r.ethSrc in macs
      ensures forall b, mac :: b in tagDict && b != peerId && mac in macs ==>
                exists r :: r in rules && r.ethSrc == mac && r.setEthDst == NextHopMac(IsdxSize(), b, true)
    {
      hide NextHopMac, ReroutePattern, RerouteMask;
      forall b, mac | b in tagDict && b != peerId && mac in macs
        ensures exists r :: r in rules && r.ethSrc == mac && r.setEthDst == NextHopMac(IsdxSize(), b, true)
      {
        assert RuleFor(peerId, b, depth, mac, asPathVmac, asPathBitmask) in rules;
      }
    }

    function RuleFor(peerId: Part, b: Part, depth: nat, mac: Mac, asPathVmac: Bits, asPathBitmask: Bits): Rule
      requires b in tagDict
      reads `tagDict, supersets
    {
      Rule(ReroutePattern(Sizes(), IsdxSize(), peerId, depth, tagDict[b], asPathVmac),
           RerouteMask(Sizes(), IsdxSize(), depth, asPathBitmask), mac, NextHopMac(IsdxSize(), b, true))
    }

    method RulesOfBackup(peerId: Part, b: Part, depth: nat, asPathVmac: Bits, asPathBitmask: Bits)
      returns (rules: seq<Rule>)
      requires b in tagDict
      ensures forall r :: r in rules <==>
                exists mac: Mac :: mac in macs && r == RuleFor(peerId, b, depth, mac, asPathVmac, asPathBitmask)
    {
      hide NextHopMac, Field;
      var backupVmac, backupBitmask: Bits := [], [];
      var n := nexthopsNbBits;
      NothingConcat();
      for i := 1 to maxDepth + 1
        invariant backupVmac == Concat(BackupPattern(Sizes(), depth, tagDict[b])[..i - 1])
        invariant backupBitmask == Concat(BackupMask(Sizes(), depth)[..i - 1])
      {
        NextField(BackupPattern(Sizes(), depth, tagDict[b]), i - 1);
        NextField(BackupMask(Sizes(), depth), i - 1);
        if i == depth {
          backupVmac, backupBitmask := backupVmac + Field(tagDict[b], n), backupBitmask + Ones(n);
        } else {
          backupVmac, backupBitmask := backupVmac + Zeros(n), backupBitmask + Zeros(n);
        }
      }
      var nextHopMatch, nextHopMask := Field(peerId, IsdxSize()), Field(Pow2(supersets.bestPathSize) - 1, IsdxSize());
      var vmac := MacBits(nextHopMatch + backupVmac + asPathVmac);
      var vmacBitmask := MacBits(nextHopMask + backupBitmask + asPathBitmask);
      WholeList(BackupPattern(Sizes(), depth, tagDict[b]));
      WholeList(BackupMask(Sizes(), depth));
      assert vmac == ReroutePattern(Sizes(), IsdxSize(), peerId, depth, tagDict[b], asPathVmac);
      assert vmacBitmask == RerouteMask(Sizes(), IsdxSize(), depth, asPathBitmask);
      rules := [];
      for i := 0 to |macs|
        invariant |rules| == i
        invariant forall k :: 0 <= k < i ==> rules[k] == RuleFor(peerId, b, depth, macs[k], asPathVmac, asPathBitmask)
      {
        rules := rules + [Rule(vmac, vmacBitmask, macs[i], NextHopMac(IsdxSize(), b, true))];
      }
      forall mac | mac in macs
        ensures RuleFor(peerId, b, depth, mac, asPathVmac, asPathBitmask) in rules
      {
        var k :| 0 <= k < |macs| && macs[k] == mac;
        assert rules[k] in rules;
      }
    }
  }

  lemma ActivePlain(fec: ForwardingClass, policies: seq<Option<Part>>)
    ensures forall p {:trigger p in ActiveAdvertisers(fec, policies)} {:trigger p in fec.partAdvertising} ::
              p in ActiveAdvertisers(fec, policies) <==> p in fec.partAdvertising && Some(p) in policies
  {
  }

  // An advertiser some policy forwards to is missing.
  ghost predicate LacksAdvertiser(fec: ForwardingClass, policies: seq<Option<Part>>, superset: Superset) {
    exists p :: p in fec.partAdvertising && Some(p) in policies && p !in superset
  }

  lemma LacksOne(fec: ForwardingClass, policies: seq<Option<Part>>, superset: Superset)
    ensures !(ActiveAdvertisers(fec, policies) <= SetOf(superset)) <==> LacksAdvertiser(fec, policies, superset)
  {
    var g := ActiveAdvertisers(fec, policies);
    if !(g <= SetOf(superset)) {
      var p :| p in g && p !in SetOf(superset);
      assert p in fec.partAdvertising && Some(p) in policies && p !in superset;
    }
    if p :| p in fec.partAdvertising && Some(p) in policies && p !in superset {
      assert p in g && p !in SetOf(superset);
    }
  }

  lemma HomePlain(fec: ForwardingClass, policies: seq<Option<Part>>, supersets: seq<Superset>, ssId: nat)
    requires Home(ActiveAdvertisers(fec, policies), supersets, ssId)
    ensures ssId < |supersets|
    ensures forall p :: p in fec.partAdvertising && Some(p) in policies ==> p in supersets[ssId]
    ensures forall i :: 0 <= i < ssId ==> LacksAdvertiser(fec, policies, supersets[i])
  {
    hide SetOf;
    LacksOne(fec, policies, supersets[ssId]);
    hide LacksAdvertiser;
    forall i | 0 <= i < ssId
      ensures LacksAdvertiser(fec, policies, supersets[i])
    {
      LacksOne(fec, policies, supersets[i]);
    }
  }

  // In plain terms, for the case without a VMAC: every superset lacks an advertiser.
  lemma HomelessPlain(fec: ForwardingClass, policies: seq<Option<Part>>, supersets: seq<Superset>, i: nat)
    requires !Placed(ActiveAdvertisers(fec, policies), supersets) && i < |supersets|
    ensures LacksAdvertiser(fec, policies, supersets[i])
  {
    LacksOne(fec, policies, supersets[i]);
  }

  lemma NoChange(tags: Tags)
    ensures Extends(tags, tags)
  {
  }

  lemma WholeList(fields: seq<Bits>)
    ensures fields[..|fields|] == fields
  {
  }

  lemma NextField(fields: seq<Bits>, i: nat)
    requires i < |fields|
    ensures Concat(fields[..i + 1]) == Concat(fields[..i]) + fields[i]
  {
    assert fields[..i + 1][..i] == fields[..i];
  }

  // Tags never change once given, so the fields laid so far stay as they are.
  lemma {:induction false} MovedStable(backups: seq<Option<Part>>, tags: Tags, tags': Tags, n: nat)
    requires Extends(tags, tags') && AllTagged(backups, tags)
    ensures Moved(backups, tags', n) == Moved(backups, tags, n)
  {
    if backups != [] {
      hide Field, Extends, AllTagged;
      AllTaggedFront(backups, tags);
      MovedStable(backups[..|backups| - 1], tags, tags', n);
      if backups[|backups| - 1].Some? {
        SameTag(tags, tags', backups[|backups| - 1].value);
      }
    }
  }

  lemma SameTag(tags: Tags, tags': Tags, p: Part)
    requires Extends(tags, tags') && p in tags
    ensures p in tags' && tags'[p] == tags[p]
  {
  }

  lemma MovedOneMore(backups: seq<Option<Part>>, d: nat, tags: Tags, tags': Tags, n: nat)
    requires d < |backups| && AllTagged(backups[..d], tags) && Extends(tags, tags')
    requires backups[d].Some? ==> backups[d].value in tags'
    ensures var s := Concat(Moved(backups[..d], tags, n));
            Concat(Moved(backups[..d + 1], tags', n)) ==
            if backups[d].Some? then s + Field(tags'[backups[d].value], n) else Zeros(n) + s
  {
    hide Field;
    MovedStable(backups[..d], tags, tags', n);
    assert backups[..d + 1][..d] == backups[..d];
    var before := Moved(backups[..d], tags, n);
    if backups[d].Some? {
      ConcatSplit(before, [TagField(tags', backups[d].value, n)]);
      ConcatOne(TagField(tags', backups[d].value, n));
    } else {
      ConcatSplit([Zeros(n)], before);
      ConcatOne(Zeros(n));
    }
  }
}
