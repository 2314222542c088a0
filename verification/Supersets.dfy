// The superset computation of pctrl/supersets.py: from the advertisers of every prefix to
// ordered supersets that fit the bits of the VMAC, and their expansion in place.
module Supersets {
  import opened BitStrings
  import opened Collections
  import opened Participants
  import opened SupersetLib

  type Superset = seq<Part>

  // A rule for one participant: its bit is at `position` in the VMACs of `superset`.
  datatype Change = Change(part: Part, superset: nat, position: nat)

  datatype MessageType = New | Update

  ghost predicate Occupies(supersets: seq<Superset>, c: Change) {
    && c.superset < |supersets| && c.position < |supersets[c.superset]|
    && supersets[c.superset][c.position] == c.part
  }

  // The changes name exactly the positions of the first n supersets, each once.
  ghost predicate Names(changes: seq<Change>, supersets: seq<Superset>, n: nat) {
    && NoDuplicates(changes)
    && forall c {:trigger c in changes} {:trigger Occupies(supersets, c)} ::
         c in changes <==> Occupies(supersets, c) && c.superset < n
  }

  // In plain terms: a change for every position, and none besides, each once.
  lemma NamesPlain(changes: seq<Change>, supersets: seq<Superset>, n: nat)
    requires Names(changes, supersets, n)
    ensures forall s, k :: 0 <= s < |supersets| && s < n && 0 <= k < |supersets[s]| ==>
              Change(supersets[s][k], s, k) in changes
    ensures forall c :: c in changes ==>
              && c.superset < n && c.superset < |supersets| && c.position < |supersets[c.superset]|
              && supersets[c.superset][c.position] == c.part
    ensures forall i, j :: 0 <= i < j < |changes| ==> changes[i] != changes[j]
  {
    forall s, k | 0 <= s < |supersets| && s < n && 0 <= k < |supersets[s]|
      ensures Change(supersets[s][k], s, k) in changes
    {
      assert Occupies(supersets, Change(supersets[s][k], s, k));
    }
  }

  ghost predicate Placed(g: Group, supersets: seq<Superset>) {
    exists i :: 0 <= i < |supersets| && g <= SetOf(supersets[i])
  }

  // ---- truncation ----

  // `del superset[mask:]`, for a superset longer than the mask. A negative bound counts from the end.
  function Truncate(s: Superset, mask: int): Superset {
    if |s| <= mask then s
    else if mask >= 0 then s[..mask]
    else if |s| + mask >= 0 then s[..|s| + mask]
    else []
  }

  lemma TruncateFacts(s: Superset, mask: int)
    requires NoDuplicates(s)
    ensures NoDuplicates(Truncate(s, mask)) && SetOf(Truncate(s, mask)) <= SetOf(s)
    ensures mask >= 0 ==> |Truncate(s, mask)| <= mask
    ensures SetOf(Truncate(s, mask)) == SetOf(s) <==> |s| <= mask || s == []
  {
    var t := Truncate(s, mask);
    assert t <= s;
    forall p | p in SetOf(t)
      ensures p in SetOf(s)
    {
      var i :| 0 <= i < |t| && t[i] == p;
      assert s[i] == p;
    }
    if |t| < |s| {
      var last := s[|s| - 1];
      assert last in SetOf(s);
      forall i | 0 <= i < |t|
        ensures t[i] != last
      {
        assert t[i] == s[i];
      }
    }
  }

  // In plain terms: the first members stay, as many as the mask has bits; a negative size drops
  // so many members at the end.
  lemma TruncatedIsFront(s: Superset, mask: int)
    ensures Truncate(s, mask) <= s
    ensures |Truncate(s, mask)| ==
            if |s| <= mask then |s| else if mask >= 0 then mask else if |s| + mask >= 0 then |s| + mask else 0
  {
  }

  // ---- numbering and masks ----

  // The number of policies that forward to a participant.
  function Forwarding(policies: seq<Option<Part>>, p: Part): nat {
    if policies == [] then 0
    else Forwarding(policies[..|policies| - 1], p) + if policies[|policies| - 1] == Some(p) then 1 else 0
  }

  // In plain terms: as many policies as forward to the participant.
  lemma {:induction false} ForwardingCount(policies: seq<Option<Part>>, p: Part)
    ensures Forwarding(policies, p) == |set i | 0 <= i < |policies| && policies[i] == Some(p)|
  {
    var all := set i | 0 <= i < |policies| && policies[i] == Some(p);
    if policies == [] {
      assert all == {};
    } else {
      var k := |policies| - 1;
      ForwardingCount(policies[..k], p);
      var before := set i | 0 <= i < |policies[..k]| && policies[..k][i] == Some(p);
      assert all == before + if policies[k] == Some(p) then {k} else {};
    }
  }

  // The participants some policy forwards to.
  function ForwardedTo(policies: seq<Option<Part>>): Group {
    if policies == [] then {}
    else ForwardedTo(policies[1..]) + if policies[0].Some? then {policies[0].value} else {}
  }

  lemma {:induction false} ForwardedToIff(policies: seq<Option<Part>>, p: Part)
    ensures p in ForwardedTo(policies) <==> Some(p) in policies
  {
    if policies != [] {
      ForwardedToIff(policies[1..], p);
      assert Some(p) in policies <==> policies[0] == Some(p) || Some(p) in policies[1..];
    }
  }

  // The rule counts the policies stand for.
  function CountsOf(policies: seq<Option<Part>>): RuleCounts {
    map p | p in ForwardedTo(policies) :: Forwarding(policies, p)
  }

  // `recompute_rulecounts`: the participants some policy forwards to, and how many do.
  method RecomputeRulecounts(policies: seq<Option<Part>>) returns (counts: RuleCounts)
    ensures forall p :: p in counts <==> Some(p) in policies
    ensures forall p :: p in counts ==> counts[p] == Forwarding(policies, p) > 0
    ensures counts == CountsOf(policies)
  {
    counts := map[];
    var i := 0;
    while i < |policies|
      invariant i <= |policies|
      invariant forall p :: p in counts <==> Some(p) in policies[..i]
      invariant forall p :: CountOf(counts, p) == Forwarding(policies[..i], p)
      invariant forall p :: p in counts ==> counts[p] > 0
    {
      assert policies[..i + 1][..i] == policies[..i];
      if policies[i].Some? {
        var p := policies[i].value;
        counts := counts[p := (if p in counts then counts[p] else 0) + 1];
      }
      i := i + 1;
    }
    assert policies[..i] == policies;
    assert forall p :: p in counts ==> CountOf(counts, p) == counts[p];
    CountsDetermined(policies, counts);
  }

  lemma CountsDetermined(policies: seq<Option<Part>>, counts: RuleCounts)
    requires forall p :: p in counts <==> Some(p) in policies
    requires forall p :: p in counts ==> counts[p] == Forwarding(policies, p)
    ensures counts == CountsOf(policies)
  {
    forall p
      ensures p in counts <==> p in ForwardedTo(policies)
    {
      ForwardedToIff(policies, p);
    }
    assert counts.Keys == CountsOf(policies).Keys;
  }

  // `list(s)`: the members in some order.
  method ListOf(g: Group) returns (s: Superset)
    ensures NoDuplicates(s) && SetOf(s) == g && |s| == |g|
  {
    s := [];
    var rest := g;
    while rest != {}
      invariant NoDuplicates(s) && SetOf(s) + rest == g && SetOf(s) !! rest && |s| + |rest| == |g|
      decreases rest
    {
      var p :| p in rest;
      assert SetOf(s + [p]) == SetOf(s) + {p};
      s, rest := s + [p], rest - {p};
    }
  }

  // The supersets are orderings of the minimised sets.
  ghost predicate Orders(supersets: seq<Superset>, sets: seq<Group>) {
    && |supersets| == |sets|
    && forall i {:trigger supersets[i]} {:trigger sets[i]} :: 0 <= i < |sets| ==>
         NoDuplicates(supersets[i]) && SetOf(supersets[i]) == sets[i] && |supersets[i]| == |sets[i]|
  }

  // The outcome of a recomputation, given the sets the minimisation left.
  ghost predicate Recomputed(supersets: seq<Superset>, sets: seq<Group>, idSize: nat, maskSize: int, maxBits: int) {
    && idSize == IdBits(|sets|) && maskSize == maxBits - idSize && |supersets| == |sets|
    && forall i {:trigger supersets[i]} {:trigger sets[i]} :: 0 <= i < |sets| ==>
         && NoDuplicates(supersets[i]) && SetOf(supersets[i]) <= sets[i]
         && |supersets[i]| == (if |sets[i]| <= maskSize then |sets[i]| else if maskSize >= 0 then maskSize
                               else if |sets[i]| + maskSize >= 0 then |sets[i]| + maskSize else 0)
         && (SetOf(supersets[i]) == sets[i] <==> |sets[i]| <= maskSize || sets[i] == {})
  }

  // No superset had to be truncated exactly if the minimised sets fit the bits of the VMAC.
  lemma NoTruncationIffBitsFit(sets: seq<Group>, maskSize: int, maxBits: int)
    requires sets != [] && maskSize == maxBits - IdBits(|sets|)
    ensures (forall i :: 0 <= i < |sets| ==> |sets[i]| <= maskSize) <==> BitsRequired(sets) <= maxBits
  {
    if maskSize >= 0 {
      MaxSizeBound(sets, maskSize);
      assert (forall i :: 0 <= i < |sets| ==> |sets[i]| <= maskSize) <==> forall s :: s in sets ==> |s| <= maskSize;
    } else {
      assert |sets[0]| >= 0;
    }
  }

  // Identifiers fit their field, participants are at one position each, masks fit.
  ghost predicate Usable(supersets: seq<Superset>, idSize: nat, maskSize: int, maxBits: int) {
    && (forall i :: 0 <= i < |supersets| ==> NoDuplicates(supersets[i]))
    && (supersets != [] ==> idSize >= 1 && |supersets| <= Pow2(idSize) && maskSize == maxBits - idSize)
    && (supersets != [] && maskSize >= 0 ==> forall i :: 0 <= i < |supersets| ==> |supersets[i]| <= maskSize)
  }

  lemma TruncationInstalls(ordered: seq<Superset>, sets: seq<Group>, supersets: seq<Superset>, idSize: nat,
                           maskSize: int, maxBits: int)
    requires Orders(ordered, sets) && |supersets| == |ordered|
    requires idSize == IdBits(|sets|) && maskSize == maxBits - idSize
    requires forall k {:trigger supersets[k]} :: 0 <= k < |ordered| ==> supersets[k] == Truncate(ordered[k], maskSize)
    ensures Recomputed(supersets, sets, idSize, maskSize, maxBits) && Usable(supersets, idSize, maskSize, maxBits)
  {
    hide SetOf, Truncate, NoDuplicates, IdBits;
    IdBitsFacts(|sets|);
    forall k | 0 <= k < |sets|
      ensures && NoDuplicates(supersets[k]) && SetOf(supersets[k]) <= sets[k]
              && |supersets[k]| == (if |sets[k]| <= maskSize then |sets[k]| else if maskSize >= 0 then maskSize
                                    else if |sets[k]| + maskSize >= 0 then |sets[k]| + maskSize else 0)
              && (SetOf(supersets[k]) == sets[k] <==> |sets[k]| <= maskSize || sets[k] == {})
    {
      assert NoDuplicates(ordered[k]) && SetOf(ordered[k]) == sets[k] && |ordered[k]| == |sets[k]|;
      TruncateFacts(ordered[k], maskSize);
      TruncatedIsFront(ordered[k], maskSize);
    }
  }

  lemma IdBitsFacts(count: nat)
    ensures IdBits(count) >= 1 && count <= Pow2(IdBits(count))
  {
    IdBitsExact(count, IdBitsAtLeastOne(count));
  }

  function IdBitsAtLeastOne(count: nat): (w: nat)
    ensures w >= 1 && w == IdBits(count)
  {
    if count > 1 then assert CeilLog2(count) >= 1; CeilLog2(count) else 1
  }

  lemma OrdersLength(ordered: seq<Superset>, sets: seq<Group>)
    requires Orders(ordered, sets)
    ensures |ordered| == |sets|
  {
  }

  // Without truncation, what was covered by the sets is placed in the supersets.
  lemma CoveredIsPlaced(groups: seq<Group>, supersets: seq<Superset>, sets: seq<Group>, idSize: nat, maskSize: int,
                        maxBits: int)
    requires Recomputed(supersets, sets, idSize, maskSize, maxBits) && Covers(groups, sets)
    requires sets != [] ==> BitsRequired(sets) <= maxBits
    ensures forall g :: g in groups ==> Placed(g, supersets)
  {
    if sets != [] {
      NoTruncationIffBitsFit(sets, maskSize, maxBits);
    }
    forall g | g in groups
      ensures Placed(g, supersets)
    {
      assert Covered(g, sets);
      var s :| s in sets && g <= s;
      var i :| 0 <= i < |sets| && sets[i] == s;
      assert SetOf(supersets[i]) == sets[i];
    }
  }

  // The four bits kept back leave room: after any merge, or if the sets fitted before, the
  // sets at the end of a run of merges fit all bits.
  lemma RoomToSpare(trace: seq<seq<Group>>, counts: RuleCounts, maxBits: int)
    requires GreedyRun(trace, counts, maxBits - 4)
    ensures |trace| > 1 || BitsRequired(trace[0]) <= maxBits ==> BitsRequired(trace[|trace| - 1]) <= maxBits
  {
    hide BitsRequired;
    GreedyRunFacts(trace, counts, maxBits - 4);
  }

  // The first merge happens exactly if the sets are no local optimum already.
  lemma MergedIff(trace: seq<seq<Group>>, counts: RuleCounts, maxBits: int)
    requires GreedyRun(trace, counts, maxBits) && LocalOptimum(trace[|trace| - 1], counts, maxBits)
    ensures |trace| > 1 <==> !LocalOptimum(trace[0], counts, maxBits)
  {
    hide CanMerge, Impact, Merge;
    if |trace| > 1 {
      assert GreedyStep(trace[0], trace[1], counts, maxBits);
    }
  }

  // A list of exactly the maximal groups, each once.
  ghost predicate ListsMaximal(maximal: seq<Group>, groups: seq<Group>) {
    NoDuplicates(maximal) && forall g :: g in maximal <==> Maximal(g, groups)
  }

  // The maximal groups fit all bits, or two of them can be merged, or nobody is active.
  ghost predicate RoomFor(maximal: seq<Group>, counts: RuleCounts, maxBits: int) {
    || BitsRequired(maximal) <= maxBits
    || !LocalOptimum(maximal, counts, maxBits - 4)
    || forall g :: g in maximal ==> g == {}
  }

  // The same of the groups, however their maximal ones are listed.
  ghost predicate HasRoom(groups: seq<Group>, counts: RuleCounts, maxBits: int) {
    forall maximal :: ListsMaximal(maximal, groups) ==> RoomFor(maximal, counts, maxBits)
  }

  ghost predicate AllPlaced(groups: seq<Group>, supersets: seq<Superset>) {
    forall g :: g in groups ==> Placed(g, supersets)
  }

  // What a recomputation from these groups leaves behind: the minimised maximal groups, in
  // some order, with no more rules than before and no merge left to do, and all groups inside
  // one of them exactly if there was room.
  ghost predicate RecomputedBy(groups: seq<Group>, counts: RuleCounts, maximal: seq<Group>, sets: seq<Group>,
                               supersets: seq<Superset>, idSize: nat, maskSize: int, maxBits: int) {
    && Recomputed(supersets, sets, idSize, maskSize, maxBits) && ListsMaximal(maximal, groups)
    && |sets| <= |maximal| && SameUnion(maximal, sets)
    && LocalOptimum(sets, counts, maxBits - 4) && TotalRules(sets, counts) <= TotalRules(maximal, counts)
    && (|sets| < |maximal| <==> !LocalOptimum(maximal, counts, maxBits - 4))
    && (AllPlaced(groups, supersets) <==> RoomFor(maximal, counts, maxBits))
  }

  ghost predicate RecomputedFrom(groups: seq<Group>, counts: RuleCounts, supersets: seq<Superset>, idSize: nat,
                                 maskSize: int, maxBits: int) {
    exists maximal, sets :: RecomputedBy(groups, counts, maximal, sets, supersets, idSize, maskSize, maxBits)
  }

  // After a recomputation every group is inside a superset exactly if its groups have room.
  lemma PlacedIffRoom(groups: seq<Group>, counts: RuleCounts, supersets: seq<Superset>, idSize: nat, maskSize: int,
                      maxBits: int)
    requires RecomputedFrom(groups, counts, supersets, idSize, maskSize, maxBits)
    ensures AllPlaced(groups, supersets) <==> HasRoom(groups, counts, maxBits)
  {
    hide Recomputed, AllPlaced, SameUnion, RoomFor, ListsMaximal;
    var maximal, sets :| RecomputedBy(groups, counts, maximal, sets, supersets, idSize, maskSize, maxBits);
    forall other | ListsMaximal(other, groups)
      ensures RoomFor(other, counts, maxBits) <==> RoomFor(maximal, counts, maxBits)
    {
      SameRoom(maximal, other, groups, counts, maxBits);
    }
  }

  lemma SameRoom(a: seq<Group>, b: seq<Group>, groups: seq<Group>, counts: RuleCounts, maxBits: int)
    requires ListsMaximal(a, groups) && ListsMaximal(b, groups)
    ensures RoomFor(a, counts, maxBits) <==> RoomFor(b, counts, maxBits)
  {
    hide Maximal, LocalOptimum, BitsRequired;
    assert forall g :: g in a <==> g in b;
    FewerElements(a, b);
    FewerElements(b, a);
    SameBits(a, b);
    SameOptimum(a, b, counts, maxBits - 4);
    SameOptimum(b, a, counts, maxBits - 4);
  }

  lemma SameOptimum(a: seq<Group>, b: seq<Group>, counts: RuleCounts, maxBits: int)
    requires |a| == |b| && forall x :: x in a <==> x in b
    ensures LocalOptimum(a, counts, maxBits) ==> LocalOptimum(b, counts, maxBits)
  {
    hide MaxSize, BitAnd, RulesOf, IdBits, Excess;
    if |b| > 1 && LocalOptimum(a, counts, maxBits) {
      MaxSizeBound(a, MaxSize(a));
      MaxSizeBound(a, MaxSize(b));
      MaxSizeBound(b, MaxSize(a));
      MaxSizeBound(b, MaxSize(b));
      forall i: nat, j: nat | i < |b| && j < |b| && CanMerge(b, i, j, maxBits)
        ensures Impact(b, i, j, counts) < 1
      {
        assert b[i] in a && b[j] in a;
        var k :| 0 <= k < |a| && a[k] == b[i];
        var l :| 0 <= l < |a| && a[l] == b[j];
        assert CanMerge(a, k, l, maxBits) && Earlier(k, l, |a|, 0);
      }
    }
  }

  // Without a merge, a group that is too long for the mask is cut, and no superset holds it.
  lemma CutGroupIsLost(groups: seq<Group>, supersets: seq<Superset>, sets: seq<Group>, idSize: nat, maskSize: int,
                       maxBits: int)
    requires Recomputed(supersets, sets, idSize, maskSize, maxBits) && ListsMaximal(sets, groups)
    requires BitsRequired(sets) > maxBits && exists g :: g in sets && g != {}
    ensures !AllPlaced(groups, supersets)
  {
    hide BitsRequired, NoDuplicates;
    NoTruncationIffBitsFit(sets, maskSize, maxBits);
    var g :| g in sets && g != {};
    var cut := if |g| > maskSize then g else LongerGroup(sets, maskSize);
    assert cut in groups;
    forall i | 0 <= i < |supersets|
      ensures !(cut <= SetOf(supersets[i]))
    {
      assert SetOf(supersets[i]) <= sets[i] && sets[i] in sets;
    }
  }

  ghost function LongerGroup(sets: seq<Group>, size: int): (g: Group)
    requires exists i :: 0 <= i < |sets| && |sets[i]| > size
    ensures g in sets && |g| > size
  {
    var i :| 0 <= i < |sets| && |sets[i]| > size;
    sets[i]
  }

  // The outcome of a run of merges over the maximal groups.
  lemma RecomputationIsExact(groups: seq<Group>, counts: RuleCounts, maximal: seq<Group>, trace: seq<seq<Group>>,
                             supersets: seq<Superset>, idSize: nat, maskSize: int, maxBits: int)
    requires GreedyRun(trace, counts, maxBits - 4) && trace[0] == maximal && ListsMaximal(maximal, groups)
    requires Covers(groups, maximal) && LocalOptimum(trace[|trace| - 1], counts, maxBits - 4)
    requires Recomputed(supersets, trace[|trace| - 1], idSize, maskSize, maxBits)
    ensures RecomputedBy(groups, counts, maximal, trace[|trace| - 1], supersets, idSize, maskSize, maxBits)
  {
    hide Recomputed, GreedyStep, LocalOptimum, TotalRules, BitsRequired, Covers, SameUnion, ListsMaximal, AllPlaced,
      Placed;
    var sets := trace[|trace| - 1];
    GreedyRunFacts(trace, counts, maxBits - 4);
    MergedIff(trace, counts, maxBits - 4);
    CoversTransitive(groups, maximal, sets);
    RoomToSpare(trace, counts, maxBits);
    if BitsRequired(sets) <= maxBits {
      FittingIsPlaced(groups, supersets, sets, idSize, maskSize, maxBits);
    } else if g :| g in sets && g != {} {
      CutGroupIsLost(groups, supersets, sets, idSize, maskSize, maxBits);
    } else {
      NobodyIsPlaced(groups, supersets, sets, idSize, maskSize, maxBits);
    }
  }

  lemma FittingIsPlaced(groups: seq<Group>, supersets: seq<Superset>, sets: seq<Group>, idSize: nat, maskSize: int,
                        maxBits: int)
    requires Recomputed(supersets, sets, idSize, maskSize, maxBits) && Covers(groups, sets)
    requires BitsRequired(sets) <= maxBits
    ensures AllPlaced(groups, supersets)
  {
    CoveredIsPlaced(groups, supersets, sets, idSize, maskSize, maxBits);
  }

  lemma NobodyIsPlaced(groups: seq<Group>, supersets: seq<Superset>, sets: seq<Group>, idSize: nat, maskSize: int,
                       maxBits: int)
    requires Recomputed(supersets, sets, idSize, maskSize, maxBits) && Covers(groups, sets)
    requires forall g :: g in sets ==> g == {}
    ensures AllPlaced(groups, supersets)
  {
    forall g | g in groups
      ensures Placed(g, supersets)
    {
      assert Covered(g, sets);
      var s :| s in sets && g <= s;
      var i :| 0 <= i < |sets| && sets[i] == s;
      assert g <= SetOf(supersets[i]);
    }
  }

  class SuperSets {
    const bestPathSize: nat
    const iSDXVMACSize: int
    const maxBits: int        // left for the superset identifier and the mask
    const maxInitialBits: int

    var maskSize: int
    var idSize: nat
    var supersets: seq<Superset>
    var ruleCounts: RuleCounts

    constructor (bestPathSize: nat, iSDXVMACSize: int)
      ensures supersets == [] && this.bestPathSize == bestPathSize && this.iSDXVMACSize == iSDXVMACSize
      ensures maxBits == iSDXVMACSize - bestPathSize - 1 && maxInitialBits == maxBits - 4 && Valid()
    {
      this.bestPathSize, this.iSDXVMACSize := bestPathSize, iSDXVMACSize;
      maxBits := iSDXVMACSize - bestPathSize - 1;
      maxInitialBits := iSDXVMACSize - bestPathSize - 1 - 4;
      maskSize, idSize, supersets, ruleCounts := 0, 0, [], map[];
    }

    ghost predicate Valid()
      reads this
    {
      maxInitialBits == maxBits - 4 && Usable(supersets, idSize, maskSize, maxBits)
    }

    // `recompute_all_supersets`, over the policies and the advertisers of every prefix.
    // It returns the maximal sets of active advertisers and the sets that minimising left.
    method RecomputeAllSupersets(policies: seq<Option<Part>>, peerSets: seq<Group>)
        returns (ghost maximal: seq<Group>, ghost sets: seq<Group>)
      requires Valid()
      modifies this
      ensures Valid() && ruleCounts == CountsOf(policies)
      ensures RecomputedBy(ClearInactiveParts(peerSets, ruleCounts.Keys), ruleCounts, maximal, sets, supersets, idSize,
                           maskSize, maxBits)
    {
      hide Recomputed, LocalOptimum, TotalRules, BitsRequired, Covers, SameUnion, Maximal, AllPlaced, Orders, GreedyRun,
        Usable, RecomputedBy;
      ruleCounts := RecomputeRulecounts(policies);
      var active := ClearInactiveParts(peerSets, ruleCounts.Keys);
      var reduced := RemoveSubsets(active);
      AllActive(active, reduced, ruleCounts.Keys);
      var minimised, trace := MinimizeSsRulesGreedy(reduced, ruleCounts, maxInitialBits);
      SortedAlready(reduced);
      maximal, sets := reduced, minimised;
      var ordered := OrderAll(minimised);
      Install(ordered, sets);
      RecomputationIsExact(active, ruleCounts, maximal, trace, supersets, idSize, maskSize, maxBits);
    }

    method OrderAll(sets: seq<Group>) returns (ordered: seq<Superset>)
      ensures Orders(ordered, sets)
    {
      ordered := [];
      for i := 0 to |sets|
        invariant Orders(ordered, sets[..i])
      {
        var s := ListOf(sets[i]);
        ordered := ordered + [s];
      }
      assert sets[..|sets|] == sets;
    }

    // The sizes are fixed and what does not fit is dropped.
    method Install(ordered: seq<Superset>, ghost sets: seq<Group>)
      requires Orders(ordered, sets) && maxInitialBits == maxBits - 4
      modifies `supersets, `idSize, `maskSize
      ensures Valid() && Recomputed(supersets, sets, idSize, maskSize, maxBits)
    {
      hide SetOf, Truncate, Recomputed, Usable, Orders;
      OrdersLength(ordered, sets);
      supersets := ordered;
      idSize := 1;
      if |supersets| > 1 {
        idSize := CeilLog2(|supersets|);
      }
      maskSize := maxBits - idSize;
      var i := 0;
      while i < |supersets|
        invariant i <= |supersets| == |ordered| && idSize == IdBits(|sets|) && maskSize == maxBits - idSize
        invariant forall k {:trigger supersets[k]} :: 0 <= k < |ordered| ==>
                    supersets[k] == if k < i then Truncate(ordered[k], maskSize) else ordered[k]
      {
        supersets := supersets[i := Truncate(supersets[i], maskSize)];
        i := i + 1;
      }
      TruncationInstalls(ordered, sets, supersets, idSize, maskSize, maxBits);
    }

    // `initial_computation`: recompute, then a rule for every position.
    method InitialComputation(policies: seq<Option<Part>>, peerSets: seq<Group>)
        returns (changes: seq<Change>, ghost maximal: seq<Group>, ghost sets: seq<Group>)
      requires Valid()
      modifies this
      ensures Valid() && ruleCounts == CountsOf(policies)
      ensures RecomputedBy(ClearInactiveParts(peerSets, ruleCounts.Keys), ruleCounts, maximal, sets, supersets, idSize,
                           maskSize, maxBits)
      ensures Names(changes, supersets, |supersets|)
    {
      hide RecomputedBy, LocalOptimum, TotalRules, Usable, ClearInactiveParts;
      maximal, sets := RecomputeAllSupersets(policies, peerSets);
      changes := AllPositions();
    }

    // The rules for every position.
    method AllPositions() returns (changes: seq<Change>)
      ensures Names(changes, supersets, |supersets|)
    {
      changes := [];
      var ssId := 0;
      while ssId < |supersets|
        invariant ssId <= |supersets| && Names(changes, supersets, ssId)
      {
        var more := Positions(ssId, 0);
        NamesConcat(changes, more, supersets, ssId);
        changes := changes + more;
        ssId := ssId + 1;
      }
    }

    // The rules for the positions of one superset, from a position on.
    method Positions(ssId: nat, from: nat) returns (changes: seq<Change>)
      requires ssId < |supersets| && from <= |supersets[ssId]|
      ensures NoDuplicates(changes)
      ensures forall c :: c in changes <==> Occupies(supersets, c) && c.superset == ssId && c.position >= from
    {
      changes := [];
      var superset := supersets[ssId];
      for k := from to |superset|
        invariant |changes| == k - from
        invariant forall i :: 0 <= i < |changes| ==> changes[i] == Change(superset[from + i], ssId, from + i)
      {
        changes := changes + [Change(superset[k], ssId, k)];
      }
      forall c | Occupies(supersets, c) && c.superset == ssId && c.position >= from
        ensures c in changes
      {
        assert changes[c.position - from] == c;
      }
    }

    ghost function State(): SupersetState
      reads this
    {
      SupersetState(supersets, idSize, maskSize)
    }

    // `update_supersets`: the announced prefix, if any, comes with its advertisers;
    // `garpSent` says that the VMAC of its next hop is already in use.
    method UpdateSupersets(policies: seq<Option<Part>>, peerSets: seq<Group>, announced: Option<Group>, garpSent: bool)
        returns (kind: MessageType, changes: seq<Change>, impacted: bool)
      requires Valid()
      modifies this
      ensures Valid() && ruleCounts == CountsOf(policies)
      ensures old(supersets) == [] ==>
                kind == New && !impacted && Names(changes, supersets, |supersets|)
      ensures old(supersets) != [] && kind == Update ==>
                && Expanded(old(supersets), supersets) && maskSize == old(maskSize) && idSize == old(idSize)
                && NoDuplicates(changes)
                && (forall c :: c in changes <==> Occupies(supersets, c) && !Occupies(old(supersets), c))
                && (announced.Some? && !garpSent ==> Placed(announced.value * ruleCounts.Keys, supersets))
                && (impacted <==>
                    announced.Some? && !garpSent && !Placed(announced.value * ruleCounts.Keys, old(supersets)))
      ensures old(supersets) != [] ==>
                (kind == New <==> announced.Some? && !garpSent &&
                                  NoneCanTake(announced.value * ruleCounts.Keys, old(supersets), old(maskSize)))
      ensures old(supersets) != [] && kind == New ==> !impacted && Names(changes, supersets, 1)
      ensures old(supersets) == [] || kind == New ==>
                RecomputedFrom(ClearInactiveParts(peerSets, ruleCounts.Keys), ruleCounts, supersets, idSize, maskSize,
                               maxBits)
      ensures SupersetStep(policies, old(State()), State(), SupersetUpdate(peerSets, announced, garpSent), maxBits)
    {
      hide RecomputedBy, ClearInactiveParts, Names, Expanded, Placed, NoneCanTake, Recomputed, BitsRequired,
        SameUnion, Maximal, Occupies, Usable, Grown, CanHold, SetOf;
      impacted := false;
      ruleCounts := RecomputeRulecounts(policies);
      assert ruleCounts.Keys == ForwardedTo(policies);
      if |supersets| == 0 {
        ghost var maximal, sets;
        changes, maximal, sets := InitialComputation(policies, peerSets);
        return New, changes, false;
      }
      ghost var before := supersets;
      NothingNew(supersets);
      if announced.None? || garpSent {
        return Update, [], false;
      }
      var newSet := announced.value * ruleCounts.Keys;
      var known := IsSubsetOfSuperset(newSet, supersets);
      PlacedFacts(newSet, supersets, maskSize);
      if known {
        return Update, [], false;
      }
      var expansionIndex := BestSsToExpandGreedy(newSet, supersets, ruleCounts, maskSize);
      if expansionIndex == -1 {
        ghost var maximal, sets := RecomputeAllSupersets(policies, peerSets);
        changes := [];
        if |supersets| > 0 {
          changes := Positions(0, 0);
        }
        FirstOnly(changes, supersets);
        return New, changes, false;
      }
      changes := Expand(newSet, expansionIndex);
      return Update, changes, true;
    }

    // One update after another, under the same policies. The ghost result is the state before
    // the first update and after each.
    method UpdateAll(policies: seq<Option<Part>>, updates: seq<SupersetUpdate>)
        returns (ghost trace: seq<SupersetState>)
      requires Valid()
      modifies this
      ensures Valid() && SupersetRun(policies, trace, updates, maxBits)
      ensures trace[0] == old(State()) && trace[|updates|] == State()
      ensures forall i :: 0 <= i < |updates| && StaysKnown(policies, trace, updates, i, |updates|, maxBits) ==>
                Placed(ForwardedTo(policies) * updates[i].announced.value, supersets)
    {
      hide SupersetStep, Placed, Recomputes, HasRoom, ClearInactiveParts;
      trace := [State()];
      var n := 0;
      while n < |updates|
        invariant n <= |updates| && Valid() && SupersetRun(policies, trace, updates[..n], maxBits)
        invariant trace[0] == old(State()) && trace[n] == State()
      {
        var kind, changes, impacted := UpdateSupersets(policies, updates[n].peerSets, updates[n].announced,
                                                       updates[n].garpSent);
        OneMoreUpdate(policies, trace, State(), updates, n, maxBits);
        trace := trace + [State()];
        n := n + 1;
      }
      assert updates[..n] == updates;
      forall i | 0 <= i < |updates| && StaysKnown(policies, trace, updates, i, n, maxBits)
        ensures Placed(ForwardedTo(policies) * updates[i].announced.value, supersets)
      {
        StaysPlaced(policies, trace, updates, i, n, maxBits);
      }
    }

    // The chosen superset takes in the new members at its end.
    method Expand(newSet: Group, index: nat) returns (changes: seq<Change>)
      requires Valid() && index < |supersets| && CanHold(newSet, supersets[index], maskSize)
      modifies `supersets
      ensures Valid() && Expanded(old(supersets), supersets) && Placed(newSet, supersets)
      ensures Grown(old(supersets), supersets, index, newSet)
      ensures NoDuplicates(changes)
      ensures forall c :: c in changes <==> Occupies(supersets, c) && !Occupies(old(supersets), c)
    {
      hide CanHold, SetOf, Placed;
      ghost var before := supersets;
      var bestSuperset := supersets[index];
      var newMembers := ListOf(newSet - SetOf(bestSuperset));
      ExpansionFits(newSet, bestSuperset, newMembers, maskSize);
      supersets := supersets[index := bestSuperset + newMembers];
      PlacedAt(newSet, supersets, index);
      changes := Positions(index, |bestSuperset|);
      forall c
        ensures Occupies(supersets, c) && !Occupies(before, c) <==>
                Occupies(supersets, c) && c.superset == index && c.position >= |bestSuperset|
      {
        if Occupies(supersets, c) && c.superset == index {
          assert c.position < |bestSuperset| ==> supersets[index][c.position] == bestSuperset[c.position];
        }
      }
    }
  }

  // What the program knows when an update comes: the advertisers of every prefix, those of
  // the announced prefix, and whether the VMAC of its next hop is already in use.
  datatype SupersetUpdate = SupersetUpdate(peerSets: seq<Group>, announced: Option<Group>, garpSent: bool)

  datatype SupersetState = SupersetState(supersets: seq<Superset>, idSize: nat, maskSize: int)

  // The supersets are adapted to the announced group.
  predicate Adapts(u: SupersetUpdate) {
    u.announced.Some? && !u.garpSent
  }

  // There are no supersets yet, or none can take the announced group.
  ghost predicate Recomputes(policies: seq<Option<Part>>, s: SupersetState, u: SupersetUpdate) {
    || s.supersets == []
    || (Adapts(u) && NoneCanTake(u.announced.value * ForwardedTo(policies), s.supersets, s.maskSize))
  }

  // One superset takes in the group at its end.
  ghost predicate Grown(before: seq<Superset>, after: seq<Superset>, index: nat, g: Group) {
    && index < |before| == |after| && after == before[index := after[index]]
    && before[index] <= after[index] && NoDuplicates(after[index])
    && SetOf(after[index]) == SetOf(before[index]) + g
  }

  // What an update does: it recomputes, or the cheapest superset takes in a group that has
  // no place yet, or nothing changes.
  ghost predicate SupersetStep(policies: seq<Option<Part>>, s: SupersetState, s': SupersetState, u: SupersetUpdate,
                               maxBits: int) {
    if Recomputes(policies, s, u) then
      RecomputedFrom(ClearInactiveParts(u.peerSets, ForwardedTo(policies)), CountsOf(policies), s'.supersets, s'.idSize,
                     s'.maskSize, maxBits)
    else if Adapts(u) && !Placed(u.announced.value * ForwardedTo(policies), s.supersets) then
      && s'.idSize == s.idSize && s'.maskSize == s.maskSize
      && exists index: nat ::
           && CheapestExpansion(u.announced.value * ForwardedTo(policies), s.supersets, CountsOf(policies), s.maskSize,
                                index)
           && Grown(s.supersets, s'.supersets, index, u.announced.value * ForwardedTo(policies))
    else s' == s
  }

  ghost predicate SupersetRun(policies: seq<Option<Part>>, trace: seq<SupersetState>, updates: seq<SupersetUpdate>,
                              maxBits: int) {
    && |trace| == |updates| + 1
    && forall j {:trigger updates[j]} :: 0 <= j < |updates| ==>
         SupersetStep(policies, trace[j], trace[j + 1], updates[j], maxBits)
  }

  lemma OneMoreUpdate(policies: seq<Option<Part>>, trace: seq<SupersetState>, s: SupersetState,
                      updates: seq<SupersetUpdate>, n: nat, maxBits: int)
    requires n < |updates| && SupersetRun(policies, trace, updates[..n], maxBits)
    requires SupersetStep(policies, trace[n], s, updates[n], maxBits)
    ensures SupersetRun(policies, trace + [s], updates[..n + 1], maxBits)
  {
    hide SupersetStep;
    var front, more := updates[..n], updates[..n + 1];
    forall j {:trigger more[j]} | 0 <= j < n + 1
      ensures SupersetStep(policies, (trace + [s])[j], (trace + [s])[j + 1], more[j], maxBits)
    {
      if j < n {
        assert front[j] == more[j];
      }
    }
  }

  // Update i announces a group for which supersets are adapted, and whenever one of the
  // updates up to n recomputes, the group is among those of the prefixes and they have room.
  ghost predicate StaysKnown(policies: seq<Option<Part>>, trace: seq<SupersetState>, updates: seq<SupersetUpdate>,
                             i: nat, n: nat, maxBits: int)
    requires i < |updates| && n <= |updates| < |trace|
  {
    && Adapts(updates[i])
    && forall j :: i <= j < n && Recomputes(policies, trace[j], updates[j]) ==>
         && updates[i].announced.value in updates[j].peerSets
         && HasRoom(ClearInactiveParts(updates[j].peerSets, ForwardedTo(policies)), CountsOf(policies), maxBits)
  }

  // The advertisers of an announced prefix stay inside a superset, whatever is expanded
  // meanwhile, as long as every recomputation knows of them and has room.
  lemma {:induction false} StaysPlaced(policies: seq<Option<Part>>, trace: seq<SupersetState>,
                                       updates: seq<SupersetUpdate>, i: nat, n: nat, maxBits: int)
    requires SupersetRun(policies, trace, updates, maxBits) && i < n <= |updates|
    requires StaysKnown(policies, trace, updates, i, n, maxBits)
    ensures Placed(ForwardedTo(policies) * updates[i].announced.value, trace[n].supersets)
    decreases n
  {
    hide Recomputes, HasRoom, SupersetStep, Placed, ClearInactiveParts;
    var m, active := n - 1, ForwardedTo(policies);
    var g, s, u := active * updates[i].announced.value, trace[m], updates[m];
    assert SupersetStep(policies, s, trace[n], u, maxBits);
    if Recomputes(policies, s, u) {
      KnownIsPlaced(policies, s, trace[n], u, updates[i].announced.value, maxBits);
    } else {
      if i < m {
        StaysPlaced(policies, trace, updates, i, m, maxBits);
      }
      ExpansionPlaces(policies, s, trace[n], u, g, maxBits);
    }
  }

  lemma KnownIsPlaced(policies: seq<Option<Part>>, s: SupersetState, s': SupersetState, u: SupersetUpdate, g: Group,
                      maxBits: int)
    requires SupersetStep(policies, s, s', u, maxBits) && Recomputes(policies, s, u) && g in u.peerSets
    requires HasRoom(ClearInactiveParts(u.peerSets, ForwardedTo(policies)), CountsOf(policies), maxBits)
    ensures Placed(ForwardedTo(policies) * g, s'.supersets)
  {
    hide Recomputes, HasRoom, RecomputedFrom, Placed;
    var active := ForwardedTo(policies);
    var groups := ClearInactiveParts(u.peerSets, active);
    PlacedIffRoom(groups, CountsOf(policies), s'.supersets, s'.idSize, s'.maskSize, maxBits);
    var k :| 0 <= k < |u.peerSets| && u.peerSets[k] == g;
    assert groups[k] == active * g;
    OneIsPlaced(active * g, groups, s'.supersets);
  }

  // Without a recomputation, what has a place keeps it, and an announced group gets one.
  lemma ExpansionPlaces(policies: seq<Option<Part>>, s: SupersetState, s': SupersetState, u: SupersetUpdate, g: Group,
                        maxBits: int)
    requires SupersetStep(policies, s, s', u, maxBits) && !Recomputes(policies, s, u)
    requires Placed(g, s.supersets) || (Adapts(u) && g == ForwardedTo(policies) * u.announced.value)
    ensures Placed(g, s'.supersets)
  {
    hide Recomputes, CheapestExpansion, RecomputedFrom;
    var active := ForwardedTo(policies);
    if Adapts(u) {
      assert active * u.announced.value == u.announced.value * active;
      if index: nat :| Grown(s.supersets, s'.supersets, index, u.announced.value * active) {
        GrownPlaces(s.supersets, s'.supersets, index, u.announced.value * active, g);
      }
    }
  }

  lemma GrownPlaces(before: seq<Superset>, after: seq<Superset>, index: nat, added: Group, g: Group)
    requires Grown(before, after, index, added)
    ensures Placed(added, after) && (Placed(g, before) ==> Placed(g, after))
  {
    assert Expanded(before, after);
    PlacedAt(added, after, index);
    ExpansionKeepsPlaces(before, after, g);
  }

  lemma OneIsPlaced(g: Group, groups: seq<Group>, supersets: seq<Superset>)
    requires g in groups && AllPlaced(groups, supersets)
    ensures Placed(g, supersets)
  {
  }

  // Supersets only grow, at the end: every position keeps its meaning.
  ghost predicate Expanded(before: seq<Superset>, after: seq<Superset>) {
    |before| == |after| && forall i {:trigger before[i]} {:trigger after[i]} :: 0 <= i < |before| ==>
        before[i] <= after[i]
  }

  // Neither is the set inside a superset nor can a superset be expanded to hold it.
  ghost predicate NoneCanTake(g: Group, supersets: seq<Superset>, maskSize: int) {
    && !Placed(g, supersets)
    && forall i {:trigger supersets[i]} :: 0 <= i < |supersets| ==> !CanHold(g, supersets[i], maskSize)
  }

  // In plain terms: every superset lacks a member, and would be too long with the missing ones.
  lemma NoneCanTakePlain(g: Group, supersets: seq<Superset>, maskSize: int)
    ensures NoneCanTake(g, supersets, maskSize) <==>
            forall i :: 0 <= i < |supersets| ==>
              !(g <= SetOf(supersets[i])) && |g + SetOf(supersets[i])| > maskSize
  {
    assert forall i :: 0 <= i < |supersets| ==>
                         (CanHold(g, supersets[i], maskSize) <==> |g + SetOf(supersets[i])| <= maskSize);
  }

  // Expansion keeps every prefix where it was placed.
  lemma ExpansionKeepsPlaces(before: seq<Superset>, after: seq<Superset>, g: Group)
    requires Expanded(before, after)
    ensures Placed(g, before) ==> Placed(g, after)
    ensures forall c :: Occupies(before, c) ==> Occupies(after, c)
  {
  }

  lemma NothingNew(supersets: seq<Superset>)
    ensures Expanded(supersets, supersets)
  {
  }

  lemma PlacedFacts(g: Group, supersets: seq<Superset>, maskSize: int)
    ensures Placed(g, supersets) <==> exists i :: 0 <= i < |supersets| && g <= SetOf(supersets[i])
    ensures NoneCanTake(g, supersets, maskSize) <==>
            !Placed(g, supersets) && forall i :: 0 <= i < |supersets| ==> !CanHold(g, supersets[i], maskSize)
  {
  }

  lemma PlacedAt(g: Group, supersets: seq<Superset>, i: nat)
    requires i < |supersets| && g <= SetOf(supersets[i])
    ensures Placed(g, supersets)
  {
  }

  lemma FirstOnly(changes: seq<Change>, supersets: seq<Superset>)
    requires NoDuplicates(changes)
    requires supersets != [] ==> forall c :: c in changes <==>
             Occupies(supersets, c) && c.superset == 0 && c.position >= 0
    requires supersets == [] ==> changes == []
    ensures Names(changes, supersets, 1)
  {
  }

  // The message of a recomputation in `update_supersets` names the first superset only; it
  // is complete exactly if all others are empty.
  lemma FirstSupersetOnly(changes: seq<Change>, supersets: seq<Superset>)
    requires Names(changes, supersets, 1)
    ensures Names(changes, supersets, |supersets|) <==> forall i :: 1 <= i < |supersets| ==> supersets[i] == []
  {
    if Names(changes, supersets, |supersets|) {
      forall i | 1 <= i < |supersets|
        ensures supersets[i] == []
      {
        if supersets[i] != [] {
          var c := Change(supersets[i][0], i, 0);
          assert Occupies(supersets, c) && c !in changes;
        }
      }
    }
  }

  lemma ExpansionFits(newSet: Group, superset: Superset, newMembers: Superset, maskSize: int)
    requires NoDuplicates(superset) && NoDuplicates(newMembers)
    requires SetOf(newMembers) == newSet - SetOf(superset) && CanHold(newSet, superset, maskSize)
    ensures NoDuplicates(superset + newMembers) && SetOf(superset + newMembers) == SetOf(superset) + newSet
    ensures |superset + newMembers| <= maskSize
  {
    var s := superset + newMembers;
    assert SetOf(s) == SetOf(superset) + SetOf(newMembers) by {
      assert forall p :: p in s <==> p in superset || p in newMembers;
    }
    forall i, j | 0 <= i < j < |s|
      ensures s[i] != s[j]
    {
      if i < |superset| <= j {
        assert s[i] in SetOf(superset) && s[j] in SetOf(newMembers);
      }
    }
    SizeOfList(s);
    assert SetOf(s) == newSet + SetOf(superset);
  }

  lemma {:induction false} SizeOfList(s: Superset)
    requires NoDuplicates(s)
    ensures |SetOf(s)| == |s|
  {
    if s != [] {
      var n := |s| - 1;
      SizeOfList(s[..n]);
      assert SetOf(s) == SetOf(s[..n]) + {s[n]};
    }
  }

  lemma NamesConcat(changes: seq<Change>, more: seq<Change>, supersets: seq<Superset>, ssId: nat)
    requires Names(changes, supersets, ssId) && NoDuplicates(more)
    requires forall c :: c in more <==> Occupies(supersets, c) && c.superset == ssId && c.position >= 0
    ensures Names(changes + more, supersets, ssId + 1)
  {
  }

  lemma AllActive(active: seq<Group>, reduced: seq<Group>, keys: Group)
    requires forall g :: g in active ==> g <= keys
    requires forall g :: g in reduced <==> Maximal(g, active)
    ensures forall g :: g in reduced ==> g <= keys
  {
  }
}
