// The set algorithms of pctrl/ss_lib.py: participants that advertise the same prefixes are
// grouped, the groups are merged under a bit limit, and a group is chosen to be expanded.
module SupersetLib {
  import opened BitStrings
  import opened Collections
  import opened Participants

  type RuleCounts = map<Part, nat>

  // ---- bits ----

  // `ceil(log(n, 2))` on whole numbers.
  function CeilLog2(n: nat): nat
    requires n >= 1
  {
    if n == 1 then 0 else 1 + CeilLog2((n + 1) / 2)
  }

  // It is the least width whose codes number n things.
  lemma {:induction false} CeilLog2Exact(n: nat, k: nat)
    requires n >= 1
    ensures CeilLog2(n) <= k <==> n <= Pow2(k)
    decreases n
  {
    if n > 1 && k > 0 {
      CeilLog2Exact((n + 1) / 2, k - 1);
    }
  }

  // The width of the superset identifier.
  function IdBits(count: nat): nat {
    if count > 1 then CeilLog2(count) else 1
  }

  lemma IdBitsExact(count: nat, width: nat)
    requires width >= 1
    ensures IdBits(count) >= 1
    ensures IdBits(count) <= width <==> count <= Pow2(width)
  {
    if count >= 1 {
      CeilLog2Exact(count, width);
      CeilLog2Exact(count, 0);
    }
    Pow2Monotone(1, width);
  }

  // `a & b` on naturals.
  function BitAnd(a: nat, b: nat): nat {
    if a == 0 || b == 0 then 0 else 2 * BitAnd(a / 2, b / 2) + (if a % 2 == 1 && b % 2 == 1 then 1 else 0)
  }

  lemma {:induction false} BitAndSelf(a: nat)
    ensures BitAnd(a, a) == a
  {
    if a > 0 {
      BitAndSelf(a / 2);
    }
  }

  lemma BitAndHalves(n: nat)
    requires n > 1
    ensures BitAnd(n, n - 1) == if n % 2 == 0 then 2 * BitAnd(n / 2, n / 2 - 1) else 2 * (n / 2)
  {
    if n % 2 == 0 {
      assert (n - 1) / 2 == n / 2 - 1 && (n - 1) % 2 == 1;
    } else {
      assert (n - 1) / 2 == n / 2;
      BitAndSelf(n / 2);
    }
  }

  lemma PowerHalves(n: nat)
    requires n > 1
    ensures Pow2(CeilLog2(n)) == n <==> n % 2 == 0 && Pow2(CeilLog2(n / 2)) == n / 2
  {
    hide Pow2, CeilLog2;
    PowerDoubles(n);
    if n % 2 == 0 {
      assert (n + 1) / 2 == n / 2;
    }
  }

  lemma PowerDoubles(n: nat)
    requires n > 1
    ensures Pow2(CeilLog2(n)) == 2 * Pow2(CeilLog2((n + 1) / 2))
  {
    hide CeilLog2;
    LogOfHalf(n);
  }

  lemma LogOfHalf(n: nat)
    requires n > 1
    ensures CeilLog2(n) == 1 + CeilLog2((n + 1) / 2)
  {
  }

  // The test `n & (n - 1) == 0` recognises the powers of two.
  lemma {:induction false} PowerOfTwoTest(n: nat)
    requires n >= 1
    ensures BitAnd(n, n - 1) == 0 <==> Pow2(CeilLog2(n)) == n
  {
    if n > 1 {
      BitAndHalves(n);
      PowerHalves(n);
      if n % 2 == 0 {
        PowerOfTwoTest(n / 2);
      }
    }
  }

  // The identifier gets a bit shorter when one of n + 1 supersets goes, exactly if n is a power of two.
  lemma IdBitsAfterMerge(n: nat)
    requires n >= 2
    ensures IdBits(n + 1) == IdBits(n) + if BitAnd(n, n - 1) == 0 then 1 else 0
  {
    PowerOfTwoTest(n);
    var k := CeilLog2(n);
    CeilLog2Exact(n, k);
    CeilLog2Exact(n + 1, k);
    CeilLog2Exact(n + 1, k + 1);
    Pow2Monotone(k, k + 1);
    if CeilLog2(n + 1) < k {
      CeilLog2Exact(n + 1, k - 1);
      CeilLog2Exact(n, k - 1);
    }
  }

  function MaxSize(sets: seq<Group>): nat {
    if sets == [] then 0
    else if |sets[0]| >= MaxSize(sets[1..]) then |sets[0]| else MaxSize(sets[1..])
  }

  lemma {:induction false} MaxSizeBound(sets: seq<Group>, bound: nat)
    ensures MaxSize(sets) <= bound <==> forall s :: s in sets ==> |s| <= bound
  {
    if sets != [] {
      MaxSizeBound(sets[1..], bound);
      assert forall s :: s in sets <==> s == sets[0] || s in sets[1..];
    }
  }

  // `bitsRequired`.
  function BitsRequired(sets: seq<Group>): nat {
    IdBits(|sets|) + MaxSize(sets)
  }

  // ---- rule counts ----

  function CountOf(counts: RuleCounts, p: Part): nat {
    if p in counts then counts[p] else 0
  }

  // The rules that involve the members of a group.
  ghost function RulesOf(g: Group, counts: RuleCounts): nat {
    if g == {} then 0 else
      var p := AnyOf(g);
      CountOf(counts, p) + RulesOf(g - {p}, counts)
  }

  lemma {:induction false} WeightSplit(g: Group, counts: RuleCounts, p: Part)
    requires p in g
    ensures RulesOf(g, counts) == CountOf(counts, p) + RulesOf(g - {p}, counts)
    decreases |g|
  {
    var a := AnyOf(g);
    if a != p {
      WeightSplit(g - {a}, counts, p);
      WeightSplit(g - {p}, counts, a);
      assert g - {a} - {p} == g - {p} - {a};
    }
  }

  // Every member adds the number of rules that involve it, as the dictionary has it.
  lemma RulesAddUp(g: Group, counts: RuleCounts, p: Part)
    requires p !in g && p in counts
    ensures RulesOf({}, counts) == 0 && RulesOf({p}, counts) == counts[p]
    ensures RulesOf(g + {p}, counts) == RulesOf(g, counts) + counts[p]
  {
    WeightSplit({p}, counts, p);
    assert {p} - {p} == {};
    WeightSplit(g + {p}, counts, p);
    assert g + {p} - {p} == g;
  }

  // Merging two groups saves the rules of the members they share.
  lemma {:induction false} WeightOfUnion(a: Group, b: Group, counts: RuleCounts)
    ensures RulesOf(a + b, counts) + RulesOf(a * b, counts) == RulesOf(a, counts) + RulesOf(b, counts)
    decreases |a|
  {
    if a == {} {
      assert a + b == b && a * b == {};
    } else {
      var p := AnyOf(a);
      WeightOfUnion(a - {p}, b, counts);
      if p in b {
        assert (a - {p}) + b == a + b && a * b - {p} == (a - {p}) * b;
        WeightSplit(a * b, counts, p);
      } else {
        assert a + b - {p} == (a - {p}) + b && (a - {p}) * b == a * b;
        WeightSplit(a + b, counts, p);
      }
    }
  }

  // `sum(counts[p] for p in g)`.
  method SumOf(g: Group, counts: RuleCounts) returns (total: nat)
    requires g <= counts.Keys
    ensures total == RulesOf(g, counts)
  {
    total := 0;
    var rest := g;
    while rest != {}
      invariant rest <= g && total + RulesOf(rest, counts) == RulesOf(g, counts)
      decreases rest
    {
      var p :| p in rest;
      WeightSplit(rest, counts, p);
      total := total + counts[p];
      rest := rest - {p};
    }
  }

  ghost function TotalRules(sets: seq<Group>, counts: RuleCounts): nat {
    if sets == [] then 0 else RulesOf(sets[0], counts) + TotalRules(sets[1..], counts)
  }

  // `rulesRequired`.
  method RulesRequired(sets: seq<Group>, counts: RuleCounts) returns (total: nat)
    requires forall s :: s in sets ==> s <= counts.Keys
    ensures total == TotalRules(sets, counts)
  {
    total := 0;
    var i := 0;
    while i < |sets|
      invariant i <= |sets| && total + TotalRules(sets[i..], counts) == TotalRules(sets, counts)
    {
      assert sets[i..][0] == sets[i] && sets[i..][1..] == sets[i + 1..];
      var n := SumOf(sets[i], counts);
      total := total + n;
      i := i + 1;
    }
    assert sets[i..] == [];
  }

  lemma {:induction false} TotalWithout(sets: seq<Group>, counts: RuleCounts, i: nat)
    requires i < |sets|
    ensures TotalRules(sets, counts) == RulesOf(sets[i], counts) + TotalRules(sets[..i] + sets[i + 1..], counts)
  {
    if i == 0 {
      assert sets[..0] + sets[1..] == sets[1..];
    } else {
      TotalWithout(sets[1..], counts, i - 1);
      assert (sets[..i] + sets[i + 1..])[0] == sets[0];
      assert (sets[..i] + sets[i + 1..])[1..] == sets[1..][..i - 1] + sets[1..][i..];
    }
  }

  // Of the groups {1, 2} and {2, 3} with five, one and one rules, eight rules are required.
  lemma EightRules()
    ensures TotalRules([{1, 2}, {2, 3}], map[1 := 5, 2 := 1, 3 := 1]) == 8
  {
    var counts: RuleCounts := map[1 := 5, 2 := 1, 3 := 1];
    var sets: seq<Group> := [{1, 2}, {2, 3}];
    RulesAddUp({1}, counts, 2);
    RulesAddUp({}, counts, 1);
    RulesAddUp({2}, counts, 3);
    assert {1} + {2} == {1, 2} && {2} + {3} == {2, 3} && {} + {1} == {1};
    RulesAddUp({}, counts, 2);
    hide RulesOf;
    assert sets[1..] == [{2, 3}] && sets[1..][1..] == [];
    assert TotalRules(sets[1..], counts) == RulesOf({2, 3}, counts) + TotalRules(sets[1..][1..], counts);
    assert TotalRules(sets, counts) == RulesOf({1, 2}, counts) + TotalRules(sets[1..], counts);
  }

  // ---- sorting ----

  ghost predicate Descending(sets: seq<Group>) {
    forall i, j :: 0 <= i < j < |sets| ==> |sets[i]| >= |sets[j]|
  }

  function InsertBySize(x: Group, sets: seq<Group>): seq<Group> {
    if sets == [] || |x| >= |sets[0]| then [x] + sets else [sets[0]] + InsertBySize(x, sets[1..])
  }

  // `sort(key=len, reverse=True)`, which keeps the order of sets of equal size.
  function SortBySize(sets: seq<Group>): seq<Group> {
    if sets == [] then [] else InsertBySize(sets[0], SortBySize(sets[1..]))
  }

  lemma {:induction false} InsertedBySize(x: Group, sets: seq<Group>, counts: RuleCounts)
    ensures var r := InsertBySize(x, sets);
            multiset(r) == multiset{x} + multiset(sets) &&
                TotalRules(r, counts) == RulesOf(x, counts) + TotalRules(sets, counts)
  {
    hide RulesOf;
    if sets != [] && |x| < |sets[0]| {
      InsertedBySize(x, sets[1..], counts);
      assert sets == [sets[0]] + sets[1..];
    }
  }

  lemma {:induction false} GroupInOrder(x: Group, sets: seq<Group>)
    requires Descending(sets)
    ensures Descending(InsertBySize(x, sets))
  {
    if sets != [] && |x| < |sets[0]| {
      var rest := InsertBySize(x, sets[1..]);
      GroupInOrder(x, sets[1..]);
      InsertedBySize(x, sets[1..], map[]);
      forall i | 0 <= i < |rest|
        ensures |rest[i]| <= |sets[0]|
      {
        assert rest[i] in multiset(rest);
        assert rest[i] == x || rest[i] in sets[1..];
      }
    }
  }

  lemma {:induction false} Sorted(sets: seq<Group>, counts: RuleCounts)
    ensures var r := SortBySize(sets);
            Descending(r) && multiset(r) == multiset(sets) && TotalRules(r, counts) == TotalRules(sets, counts)
  {
    if sets != [] {
      Sorted(sets[1..], counts);
      InsertedBySize(sets[0], SortBySize(sets[1..]), counts);
      GroupInOrder(sets[0], SortBySize(sets[1..]));
      assert sets == [sets[0]] + sets[1..];
    }
  }

  // The groups of one size, in their order.
  function OfSize(sets: seq<Group>, n: nat): seq<Group> {
    if sets == [] then []
    else (if |sets[0]| == n then [sets[0]] else []) + OfSize(sets[1..], n)
  }

  // Groups of equal size stay in their order.
  lemma {:induction false} SortIsStable(sets: seq<Group>, n: nat)
    ensures OfSize(SortBySize(sets), n) == OfSize(sets, n)
  {
    if sets != [] {
      SortIsStable(sets[1..], n);
      Sorted(sets[1..], map[]);
      InsertIsStable(sets[0], SortBySize(sets[1..]), n);
    }
  }

  lemma {:induction false} InsertIsStable(x: Group, sets: seq<Group>, n: nat)
    requires Descending(sets)
    ensures OfSize(InsertBySize(x, sets), n) == (if |x| == n then [x] else []) + OfSize(sets, n)
  {
    if sets != [] && |x| < |sets[0]| {
      InsertIsStable(x, sets[1..], n);
    }
  }

  lemma {:induction false} SortedAlready(sets: seq<Group>)
    requires Descending(sets)
    ensures SortBySize(sets) == sets
  {
    if sets != [] {
      SortedAlready(sets[1..]);
    }
  }

  // ---- coverage ----

  ghost predicate Covered(g: Group, sets: seq<Group>) {
    exists s :: s in sets && g <= s
  }

  // Every set of the first list lies inside one of the second.
  ghost predicate Covers(inner: seq<Group>, outer: seq<Group>) {
    forall g :: g in inner ==> Covered(g, outer)
  }

  ghost predicate Member(p: Part, sets: seq<Group>) {
    exists s :: s in sets && p in s
  }

  ghost predicate SameUnion(a: seq<Group>, b: seq<Group>) {
    forall p :: Member(p, a) <==> Member(p, b)
  }

  lemma CoversTransitive(a: seq<Group>, b: seq<Group>, c: seq<Group>)
    requires Covers(a, b) && Covers(b, c)
    ensures Covers(a, c)
  {
  }

  // ---- minimize_ss_rules_greedy ----

  function RemoveFirst(sets: seq<Group>, x: Group): seq<Group> {
    if sets == [] then [] else if sets[0] == x then sets[1..] else [sets[0]] + RemoveFirst(sets[1..], x)
  }

  lemma {:induction false} RemovedFirst(sets: seq<Group>, x: Group) returns (k: nat)
    requires x in sets
    ensures k < |sets| && sets[k] == x && RemoveFirst(sets, x) == sets[..k] + sets[k + 1..]
  {
    if sets[0] == x {
      k := 0;
    } else {
      var k' := RemovedFirst(sets[1..], x);
      k := k' + 1;
      assert sets[..k] + sets[k + 1..] == [sets[0]] + (sets[1..][..k'] + sets[1..][k' + 1..]);
    }
  }

  // The bits left after a merge that does not make the longest set longer, as the code predicts them.
  function BitsAfter(sets: seq<Group>): int
    requires |sets| > 1
  {
    BitsRequired(sets) - if BitAnd(|sets| - 1, |sets| - 2) == 0 then 1 else 0
  }

  function Excess(n: nat, m: nat): nat {
    if n > m then n - m else 0
  }

  // The pair may be merged.
  predicate CanMerge(sets: seq<Group>, i: nat, j: nat, maxBits: int)
    requires |sets| > 1 && i < |sets| && j < |sets|
  {
    sets[i] != sets[j] && BitsAfter(sets) + Excess(|sets[i] + sets[j]|, MaxSize(sets)) <= maxBits
  }

  ghost function Impact(sets: seq<Group>, i: nat, j: nat, counts: RuleCounts): nat
    requires i < |sets| && j < |sets|
  {
    RulesOf(sets[i] * sets[j], counts)
  }

  // The pair comes before another one in the order of the two loops.
  predicate Earlier(i: nat, j: nat, a: nat, b: nat) {
    i < a || (i == a && j < b)
  }

  // No pair before (a, b) that fits has an impact of `bound` or more.
  ghost predicate AllBelow(sets: seq<Group>, counts: RuleCounts, maxBits: int, a: nat, b: nat, bound: nat)
    requires |sets| > 1
  {
    forall i: nat, j: nat {:trigger CanMerge(sets, i, j, maxBits)} ::
      i < |sets| && j < |sets| && Earlier(i, j, a, b) && CanMerge(sets, i, j, maxBits) ==>
          Impact(sets, i, j, counts) < bound
  }

  // The first pair of the greatest impact.
  ghost predicate IsBest(sets: seq<Group>, counts: RuleCounts, maxBits: int, i: nat, j: nat)
    requires |sets| > 1
  {
    && i < |sets| && j < |sets| && CanMerge(sets, i, j, maxBits) && Impact(sets, i, j, counts) > 0
    && AllBelow(sets, counts, maxBits, i, j, Impact(sets, i, j, counts))
    && AllBelow(sets, counts, maxBits, |sets|, 0, Impact(sets, i, j, counts) + 1)
  }

  // No pair that fits shares a member with rules.
  ghost predicate LocalOptimum(sets: seq<Group>, counts: RuleCounts, maxBits: int) {
    |sets| > 1 ==> AllBelow(sets, counts, maxBits, |sets|, 0, 1)
  }

  // Set i takes in set j, and the first set equal to set j goes.
  function Merge(sets: seq<Group>, i: nat, j: nat): seq<Group>
    requires i < |sets| && j < |sets|
  {
    RemoveFirst(sets[i := sets[i] + sets[j]], sets[j])
  }

  lemma MergeContents(sets: seq<Group>, i: nat, j: nat)
    requires i < |sets| && j < |sets| && sets[i] != sets[j]
    ensures var u, r := sets[i] + sets[j], Merge(sets, i, j);
            && |r| == |sets| - 1 && u in r
            && (forall x :: x in sets ==> x in r || x <= u)
            && (forall x :: x in r ==> x in sets || x == u)
  {
    var u := sets[i] + sets[j];
    var t := sets[i := u];
    assert t[j] == sets[j];
    var k := RemovedFirst(t, sets[j]);
    var r := t[..k] + t[k + 1..];
    forall m | 0 <= m < |t| && m != k
      ensures t[m] in r
    {
      assert t[m] == r[if m < k then m else m - 1];
    }
    if k == i {
      assert t[j] in r && t[j] == u;
    } else {
      assert t[i] in r;
    }
    forall x | x in sets
      ensures x in r || x <= u
    {
      var m :| 0 <= m < |sets| && sets[m] == x;
      if m != i && m != k {
        assert t[m] == x;
      }
    }
  }

  lemma MergeTotal(sets: seq<Group>, i: nat, j: nat, counts: RuleCounts)
    requires i < |sets| && j < |sets| && sets[i] != sets[j]
    ensures TotalRules(Merge(sets, i, j), counts) + Impact(sets, i, j, counts) == TotalRules(sets, counts)
  {
    var u := sets[i] + sets[j];
    var t := sets[i := u];
    assert t[j] == sets[j];
    var k := RemovedFirst(t, sets[j]);
    TotalWithout(t, counts, k);
    TotalWithout(t, counts, i);
    TotalWithout(sets, counts, i);
    assert t[..i] + t[i + 1..] == sets[..i] + sets[i + 1..];
    WeightOfUnion(sets[i], sets[j], counts);
  }

  lemma MergeMaxSize(sets: seq<Group>, i: nat, j: nat)
    requires i < |sets| && j < |sets| && sets[i] != sets[j]
    ensures MaxSize(Merge(sets, i, j)) == MaxSize(sets) + Excess(|sets[i] + sets[j]|, MaxSize(sets))
  {
    var u, r := sets[i] + sets[j], Merge(sets, i, j);
    MergeContents(sets, i, j);
    var before, now := MaxSize(sets), MaxSize(r);
    MaxSizeBound(sets, before);
    MaxSizeBound(r, now);
    MaxSizeBound(r, if |u| > before then |u| else before);
    forall x | x in sets
      ensures |x| <= now
    {
      if x !in r {
        SubsetSize(x, u);
      }
    }
    MaxSizeBound(sets, now);
  }

  // What the prediction is worth: the bits after a merge are as predicted, one more when
  // a single set is left.
  lemma MergeBits(sets: seq<Group>, i: nat, j: nat)
    requires |sets| > 1 && i < |sets| && j < |sets| && sets[i] != sets[j]
    ensures BitsRequired(Merge(sets, i, j)) ==
            BitsAfter(sets) + Excess(|sets[i] + sets[j]|, MaxSize(sets)) + if |sets| == 2 then 1 else 0
  {
    MergeContents(sets, i, j);
    MergeMaxSize(sets, i, j);
    if |sets| > 2 {
      IdBitsAfterMerge(|sets| - 1);
    } else {
      assert BitAnd(1, 0) == 0 && CeilLog2(2) == 1;
    }
  }

  // In plain terms: two different sets may be merged exactly if the bits required after the
  // merge, but for the one that a single remaining set takes, are within the limit.
  lemma CanMergeIff(sets: seq<Group>, i: nat, j: nat, maxBits: int)
    requires |sets| > 1 && i < |sets| && j < |sets|
    ensures CanMerge(sets, i, j, maxBits) <==>
            sets[i] != sets[j] && BitsRequired(Merge(sets, i, j)) - (if |sets| == 2 then 1 else 0) <= maxBits
  {
    hide BitsRequired, BitAnd, MaxSize, Merge;
    if sets[i] != sets[j] {
      MergeBits(sets, i, j);
    }
  }

  // The best pair shares members with rules; no pair that may be merged shares members with
  // more rules, and none before it with as many.
  lemma BestPairPlain(sets: seq<Group>, counts: RuleCounts, maxBits: int, b1: nat, b2: nat, i: nat, j: nat)
    requires |sets| > 1 && IsBest(sets, counts, maxBits, b1, b2)
    requires i < |sets| && j < |sets| && CanMerge(sets, i, j, maxBits)
    ensures b1 < |sets| && b2 < |sets| && CanMerge(sets, b1, b2, maxBits)
    ensures RulesOf(sets[b1] * sets[b2], counts) > 0
    ensures RulesOf(sets[i] * sets[j], counts) <= RulesOf(sets[b1] * sets[b2], counts)
    ensures i < b1 || (i == b1 && j < b2) ==> RulesOf(sets[b1] * sets[b2], counts) > RulesOf(sets[i] * sets[j], counts)
  {
    hide CanMerge, RulesOf;
  }

  // At a local optimum no two sets that may be merged share a member with rules.
  lemma LocalOptimumPlain(sets: seq<Group>, counts: RuleCounts, maxBits: int)
    ensures LocalOptimum(sets, counts, maxBits) <==>
            forall i: nat, j: nat :: i < |sets| && j < |sets| && |sets| > 1 && CanMerge(sets, i, j, maxBits) ==>
              RulesOf(sets[i] * sets[j], counts) == 0
  {
    hide CanMerge, RulesOf;
  }

  // The last merge, the one that leaves a single set, can go one bit over the limit.
  lemma LastMergeMayExceed()
    ensures var sets := [{1, 2}, {2, 3}];
            CanMerge(sets, 0, 1, 3) && Impact(sets, 0, 1, map[2 := 1]) == 1 && BitsRequired(Merge(sets, 0, 1)) == 3 + 1
  {
    var sets: seq<Group> := [{1, 2}, {2, 3}];
    assert 1 in sets[0] && 1 !in sets[1];
    assert |sets[0]| == 2 && |sets[1]| == 2;
    assert sets[1..] == [{2, 3}] && sets[1..][1..] == [];
    assert MaxSize(sets) == 2;
    assert sets[0] + sets[1] == {1, 2, 3} && |{1, 2, 3}| == 3;
    assert BitAnd(1, 0) == 0 && CeilLog2(2) == 1;
    assert sets[0] * sets[1] == {2};
    WeightSplit({2}, map[2 := 1], 2);
    assert {2} - {2} == {};
    MergeBits(sets, 0, 1);
  }

  // One round of the loop.
  ghost predicate GreedyStep(sets: seq<Group>, sets': seq<Group>, counts: RuleCounts, maxBits: int) {
    |sets| > 1 && exists i: nat, j: nat :: IsBest(sets, counts, maxBits, i, j) && sets' == Merge(sets, i, j)
  }

  // What one round keeps and what it gains.
  lemma GreedyStepFacts(sets: seq<Group>, sets': seq<Group>, counts: RuleCounts, maxBits: int)
    requires GreedyStep(sets, sets', counts, maxBits)
    ensures |sets'| == |sets| - 1 && Covers(sets, sets') && SameUnion(sets, sets')
    ensures TotalRules(sets', counts) < TotalRules(sets, counts)
    ensures BitsRequired(sets') <= maxBits + if |sets'| == 1 then 1 else 0
  {
    var i: nat, j: nat :| IsBest(sets, counts, maxBits, i, j) && sets' == Merge(sets, i, j);
    MergeContents(sets, i, j);
    MergeTotal(sets, i, j, counts);
    MergeBits(sets, i, j);
    var u := sets[i] + sets[j];
    forall g | g in sets
      ensures Covered(g, sets')
    {
      assert g in sets' || g <= u;
    }
    forall p
      ensures Member(p, sets) <==> Member(p, sets')
    {
      if Member(p, sets) {
        var s :| s in sets && p in s;
        assert s in sets' || s <= u;
      }
      if Member(p, sets') {
        var s :| s in sets' && p in s;
        assert s in sets || s == u;
        assert sets[i] in sets && sets[j] in sets;
      }
    }
  }

  // A run of the loop: the successive lists.
  ghost predicate GreedyRun(trace: seq<seq<Group>>, counts: RuleCounts, maxBits: int) {
    |trace| > 0 && forall k {:trigger trace[k]} :: 0 < k < |trace| ==>
        GreedyStep(trace[k - 1], trace[k], counts, maxBits)
  }

  // Over a whole run nothing is lost, every merge saves at least one rule, and the bits
  // stay within the limit, or one above it when a single set is left.
  lemma {:induction false} GreedyRunFacts(trace: seq<seq<Group>>, counts: RuleCounts, maxBits: int)
    requires GreedyRun(trace, counts, maxBits)
    ensures var first, last := trace[0], trace[|trace| - 1];
            && Covers(first, last) && SameUnion(first, last) && |last| == |first| - (|trace| - 1)
            && TotalRules(last, counts) + (|trace| - 1) <= TotalRules(first, counts)
            && (|trace| > 1 ==> BitsRequired(last) <= maxBits + if |last| == 1 then 1 else 0)
  {
    hide GreedyStep, TotalRules, BitsRequired;
    if |trace| > 1 {
      var n := |trace| - 1;
      var before := trace[..n];
      forall k {:trigger before[k]} | 0 < k < n
        ensures GreedyStep(before[k - 1], before[k], counts, maxBits)
      {
        assert before[k] == trace[k] && before[k - 1] == trace[k - 1];
      }
      GreedyRunFacts(before, counts, maxBits);
      assert before[0] == trace[0] && before[|before| - 1] == trace[n - 1];
      assert GreedyStep(trace[n - 1], trace[n], counts, maxBits);
      GreedyStepFacts(trace[n - 1], trace[n], counts, maxBits);
      CoversTransitive(trace[0], trace[n - 1], trace[n]);
    }
  }

  // The double loop: the first pair of the greatest impact, if any pair that fits has one.
  method BestPair(sets: seq<Group>, counts: RuleCounts, maxBits: int, maxLength: nat)
    returns (best: nat, b1: nat, b2: nat)
    requires |sets| > 1 && maxLength == MaxSize(sets) && forall s :: s in sets ==> s <= counts.Keys
    ensures best == 0 ==> LocalOptimum(sets, counts, maxBits)
    ensures best > 0 ==> IsBest(sets, counts, maxBits, b1, b2)
  {
    hide BitsRequired, MaxSize, RulesOf, BitAnd, AllBelow, BestSoFar, Impact, CanMerge, Excess;
    var m := |sets|;
    var bits := BitsRequired(sets);
    if BitAnd(m - 1, m - 2) == 0 {
      bits := bits - 1;
    }
    best, b1, b2 := 0, 0, 0;
    var i := 0;
    NoPair(sets, counts, maxBits);
    while i < m
      invariant i <= m && AllBelow(sets, counts, maxBits, i, 0, best + 1)
      invariant best > 0 ==> BestSoFar(sets, counts, maxBits, b1, b2, best)
    {
      var j := 0;
      while j < m
        invariant j <= m && AllBelow(sets, counts, maxBits, i, j, best + 1)
        invariant best > 0 ==> BestSoFar(sets, counts, maxBits, b1, b2, best)
      {
        NextPair(sets, counts, maxBits, i, j, best);
        if sets[i] != sets[j] && bits + Excess(|sets[i] + sets[j]|, maxLength) <= maxBits {
          assert sets[i] in sets;
          var impact := SumOf(sets[i] * sets[j], counts);
          if impact > best {
            best, b1, b2 := impact, i, j;
          }
        }
        j := j + 1;
      }
      NextRow(sets, counts, maxBits, i, best);
      i := i + 1;
    }
    BestSoFarIsBest(sets, counts, maxBits, b1, b2, best);
  }

  lemma NoPair(sets: seq<Group>, counts: RuleCounts, maxBits: int)
    requires |sets| > 1
    ensures AllBelow(sets, counts, maxBits, 0, 0, 1)
  {
  }

  lemma NextPair(sets: seq<Group>, counts: RuleCounts, maxBits: int, i: nat, j: nat, best: nat)
    requires |sets| > 1 && i < |sets| && j < |sets| && AllBelow(sets, counts, maxBits, i, j, best + 1)
    ensures CanMerge(sets, i, j, maxBits) <==>
            sets[i] != sets[j] && BitsAfter(sets) + Excess(|sets[i] + sets[j]|, MaxSize(sets)) <= maxBits
    ensures Impact(sets, i, j, counts) == RulesOf(sets[i] * sets[j], counts)
    ensures CanMerge(sets, i, j, maxBits) && Impact(sets, i, j, counts) > best ==>
              && AllBelow(sets, counts, maxBits, i, j + 1, Impact(sets, i, j, counts) + 1)
              && BestSoFar(sets, counts, maxBits, i, j, Impact(sets, i, j, counts))
    ensures !(CanMerge(sets, i, j, maxBits) && Impact(sets, i, j, counts) > best) ==>
              AllBelow(sets, counts, maxBits, i, j + 1, best + 1)
  {
  }

  lemma NextRow(sets: seq<Group>, counts: RuleCounts, maxBits: int, i: nat, best: nat)
    requires |sets| > 1 && AllBelow(sets, counts, maxBits, i, |sets|, best + 1)
    ensures AllBelow(sets, counts, maxBits, i + 1, 0, best + 1)
  {
    hide CanMerge, Impact;
  }

  lemma BestSoFarIsBest(sets: seq<Group>, counts: RuleCounts, maxBits: int, i: nat, j: nat, best: nat)
    requires |sets| > 1 && AllBelow(sets, counts, maxBits, |sets|, 0, best + 1)
    requires best > 0 ==> BestSoFar(sets, counts, maxBits, i, j, best)
    ensures best == 0 ==> LocalOptimum(sets, counts, maxBits)
    ensures best > 0 ==> IsBest(sets, counts, maxBits, i, j)
  {
    hide CanMerge, Impact;
  }

  ghost predicate BestSoFar(sets: seq<Group>, counts: RuleCounts, maxBits: int, i: nat, j: nat, best: nat)
    requires |sets| > 1
  {
    && i < |sets| && j < |sets| && CanMerge(sets, i, j, maxBits) && Impact(sets, i, j, counts) == best
    && AllBelow(sets, counts, maxBits, i, j, best)
  }

  // `minimize_ss_rules_greedy`. The run goes from the sorted input to the result, each
  // round merges the first pair of the greatest impact, and no such pair is left at the
  // end; what that is worth follows.
  method MinimizeSsRulesGreedy(peerSets: seq<Group>, counts: RuleCounts, maxBits: int)
      returns (sets: seq<Group>, ghost trace: seq<seq<Group>>)
    requires forall s :: s in peerSets ==> s <= counts.Keys
    ensures GreedyRun(trace, counts, maxBits) && trace[0] == SortBySize(peerSets) && trace[|trace| - 1] == sets
    ensures LocalOptimum(sets, counts, maxBits)
    ensures Covers(peerSets, sets) && SameUnion(peerSets, sets) && |sets| == |peerSets| - (|trace| - 1) <= |peerSets|
    ensures TotalRules(sets, counts) + (|trace| - 1) <= TotalRules(peerSets, counts)
    ensures |sets| < |peerSets| ==> BitsRequired(sets) <= maxBits + if |sets| == 1 then 1 else 0
    ensures |sets| == |peerSets| ==> BitsRequired(sets) == BitsRequired(peerSets)
  {
    hide GreedyStep, TotalRules, BitsRequired, LocalOptimum, MaxSize, IsBest, SortBySize;
    SortedFacts(peerSets, counts);
    sets := SortBySize(peerSets);
    trace := [sets];
    var maxLength := MaxSize(sets);
    while |sets| > 1
      invariant GreedyRun(trace, counts, maxBits) && trace[0] == SortBySize(peerSets) && trace[|trace| - 1] == sets
      invariant maxLength == MaxSize(sets) && forall s :: s in sets ==> s <= counts.Keys
      decreases |sets|
    {
      var best, i, j := BestPair(sets, counts, maxBits, maxLength);
      if best == 0 {
        break;
      }
      BestIsStep(sets, counts, maxBits, i, j);
      MergeContents(sets, i, j);
      MergeMaxSize(sets, i, j);
      var union := sets[i] + sets[j];
      assert sets[i] in sets && sets[j] in sets;
      sets := RemoveFirst(sets[i := union], sets[j]);
      maxLength := if |union| >= maxLength then |union| else maxLength;
      trace := trace + [sets];
    }
    FewSetsAreOptimal(sets, counts, maxBits);
    GreedyRunFacts(trace, counts, maxBits);
    CoversTransitive(peerSets, trace[0], sets);
  }

  lemma FewSetsAreOptimal(sets: seq<Group>, counts: RuleCounts, maxBits: int)
    ensures |sets| <= 1 ==> LocalOptimum(sets, counts, maxBits)
  {
  }

  lemma BestIsStep(sets: seq<Group>, counts: RuleCounts, maxBits: int, i: nat, j: nat)
    requires |sets| > 1 && IsBest(sets, counts, maxBits, i, j)
    ensures i < |sets| && j < |sets| && sets[i] != sets[j]
    ensures GreedyStep(sets, Merge(sets, i, j), counts, maxBits)
  {
  }

  lemma SortedFacts(sets: seq<Group>, counts: RuleCounts)
    ensures var r := SortBySize(sets);
            && |r| == |sets| && (forall x :: x in r <==> x in sets)
            && Covers(sets, r) && SameUnion(sets, r)
            && TotalRules(r, counts) == TotalRules(sets, counts) && BitsRequired(r) == BitsRequired(sets)
  {
    hide TotalRules, SortBySize, MaxSize, Descending, BitsRequired;
    var r := SortBySize(sets);
    Sorted(sets, counts);
    assert |r| == |multiset(r)| && |sets| == |multiset(sets)|;
    assert forall x :: x in r <==> x in multiset(r);
    assert forall x :: x in sets <==> x in multiset(sets);
    SameBits(sets, r);
  }

  lemma SameBits(a: seq<Group>, b: seq<Group>)
    requires |a| == |b| && forall x :: x in a <==> x in b
    ensures BitsRequired(a) == BitsRequired(b)
  {
    hide MaxSize;
    MaxSizeBound(a, MaxSize(a));
    MaxSizeBound(a, MaxSize(b));
    MaxSizeBound(b, MaxSize(a));
    MaxSizeBound(b, MaxSize(b));
  }

  // ---- removeSubsets ----

  // The sets that no other set of the list properly contains.
  ghost predicate Maximal(g: Group, sets: seq<Group>) {
    g in sets && forall s :: s in sets && g <= s ==> s == g
  }

  ghost predicate NoSubsetAfter(sets: seq<Group>, i: nat) {
    forall a, b :: 0 <= a < i && a < b < |sets| ==> !(sets[b] <= sets[a])
  }

  // `removeSubsets`: exactly the maximal sets, each once, the largest first.
  method RemoveSubsets(input: seq<Group>) returns (answer: seq<Group>)
    ensures forall g :: g in answer <==> Maximal(g, input)
    ensures Descending(answer) && (forall a, b :: 0 <= a < b < |answer| ==> answer[a] != answer[b])
    ensures Covers(input, answer)
  {
    hide SortBySize, Covers, Remains, Descending, NoSubsetAfter;
    SortedFacts(input, map[]);
    Sorted(input, map[]);
    answer := [];
    var sets := SortBySize(input);
    var i := 0;
    CoversItself(input, sets);
    NothingDone(sets);
    while i < |sets|
      invariant i <= |sets| && answer == sets[..i] && Descending(sets) && NoSubsetAfter(sets, i)
      invariant Remains(input, sets)
      decreases |sets| - i
    {
      answer := answer + [sets[i]];
      var j := |sets|;
      ghost var before := sets;
      while j > i + 1
        invariant i < j <= |sets| <= |before| && sets[..j] == before[..j] && Descending(sets) && NoSubsetAfter(sets, i)
        invariant forall b :: j <= b < |sets| ==> !(sets[b] <= sets[i])
        invariant Remains(input, sets)
      {
        j := j - 1;
        if sets[j] <= sets[i] {
          DroppedStaysCovered(input, sets, i, j);
          DropKeepsOrder(sets, i, j);
          sets := sets[..j] + sets[j + 1..];
        }
      }
      assert sets[i] == before[i];
      OneMoreDone(sets, i);
      i := i + 1;
    }
    assert answer == sets;
    MaximalExactly(input, sets);
  }

  lemma CoversItself(input: seq<Group>, sets: seq<Group>)
    requires forall s :: s in input ==> s in sets
    requires forall s :: s in sets ==> s in input
    ensures Remains(input, sets)
  {
  }

  lemma NothingDone(sets: seq<Group>)
    ensures NoSubsetAfter(sets, 0)
  {
  }

  // What is left still covers the input.
  ghost predicate Remains(input: seq<Group>, sets: seq<Group>) {
    Covers(input, sets) && forall s :: s in sets ==> s in input
  }

  lemma DropKeepsOrder(sets: seq<Group>, i: nat, j: nat)
    requires i < j < |sets| && Descending(sets) && NoSubsetAfter(sets, i)
    ensures Descending(sets[..j] + sets[j + 1..]) && NoSubsetAfter(sets[..j] + sets[j + 1..], i)
  {
  }

  lemma OneMoreDone(sets: seq<Group>, i: nat)
    requires i < |sets| && NoSubsetAfter(sets, i) && forall b :: i < b < |sets| ==> !(sets[b] <= sets[i])
    ensures NoSubsetAfter(sets, i + 1)
  {
  }

  lemma DroppedStaysCovered(input: seq<Group>, sets: seq<Group>, i: nat, j: nat)
    requires i < j < |sets| && sets[j] <= sets[i] && Remains(input, sets)
    ensures Remains(input, sets[..j] + sets[j + 1..])
  {
    var r := sets[..j] + sets[j + 1..];
    forall g | g in sets
      ensures Covered(g, r)
    {
      var k :| 0 <= k < |sets| && sets[k] == g;
      assert r[i] == sets[i] && (k != j ==> sets[k] == r[if k < j then k else k - 1]);
      if k == j {
        assert g <= sets[i] && sets[i] in r;
      } else {
        assert g in r;
      }
    }
    CoversTransitive(input, sets, r);
  }

  lemma MaximalExactly(input: seq<Group>, sets: seq<Group>)
    requires Descending(sets) && NoSubsetAfter(sets, |sets|) && Remains(input, sets)
    ensures forall g :: g in sets <==> Maximal(g, input)
    ensures forall a, b :: 0 <= a < b < |sets| ==> sets[a] != sets[b]
    ensures Covers(input, sets)
  {
    hide Descending, NoSubsetAfter;
    forall g | g in sets
      ensures Maximal(g, input)
    {
      forall s | s in input && g <= s
        ensures s == g
      {
        assert Covered(s, sets);
        var t :| t in sets && s <= t;
        NoProperSuperset(sets, g, t);
      }
    }
    forall g | Maximal(g, input)
      ensures g in sets
    {
      assert Covered(g, sets);
      var t :| t in sets && g <= t;
    }
    forall a, b | 0 <= a < b < |sets|
      ensures sets[a] != sets[b]
    {
      NotAmongLater(sets, a, b);
    }
  }

  lemma NotAmongLater(sets: seq<Group>, a: nat, b: nat)
    requires NoSubsetAfter(sets, |sets|) && a < b < |sets|
    ensures !(sets[b] <= sets[a])
  {
  }

  lemma NoProperSuperset(sets: seq<Group>, g: Group, t: Group)
    requires Descending(sets) && NoSubsetAfter(sets, |sets|) && g in sets && t in sets && g <= t
    ensures g == t
  {
    var a :| 0 <= a < |sets| && sets[a] == g;
    var b :| 0 <= b < |sets| && sets[b] == t;
    SubsetSize(g, t);
  }

  // ---- best_ss_to_expand_greedy ----

  function SetOf(s: seq<Part>): Group {
    set p | p in s
  }

  ghost predicate CanHold(newSet: Group, superset: seq<Part>, maxMask: int) {
    |newSet + SetOf(superset)| <= maxMask
  }

  ghost function ExpansionCost(newSet: Group, superset: seq<Part>, weights: RuleCounts): nat {
    RulesOf(newSet - SetOf(superset), weights)
  }

  // Among the first n supersets, the first one that can be expanded within the mask at the least cost.
  ghost predicate CheapestOf(newSet: Group, supersets: seq<seq<Part>>, weights: RuleCounts, maxMask: int, n: nat,
                             r: nat) {
    && r < n <= |supersets| && CanHold(newSet, supersets[r], maxMask)
    && forall i {:trigger CanHold(newSet, supersets[i], maxMask)} ::
         0 <= i < n && CanHold(newSet, supersets[i], maxMask) ==>
         var c, best := ExpansionCost(newSet, supersets[i], weights), ExpansionCost(newSet, supersets[r], weights);
         best <= c && (i < r ==> best < c)
  }

  ghost predicate CheapestExpansion(newSet: Group, supersets: seq<seq<Part>>, weights: RuleCounts, maxMask: int,
                                    r: nat) {
    CheapestOf(newSet, supersets, weights, maxMask, |supersets|, r)
  }

  // `supersets.index(x)`.
  method IndexOf(supersets: seq<seq<Part>>, x: seq<Part>) returns (k: nat)
    requires x in supersets
    ensures k < |supersets| && supersets[k] == x && x !in supersets[..k]
  {
    k := 0;
    while supersets[k] != x
      invariant k < |supersets| && x !in supersets[..k]
      decreases |supersets| - k
    {
      k := k + 1;
    }
  }

  lemma NextCandidate(newSet: Group, supersets: seq<seq<Part>>, weights: RuleCounts, maxMask: int, n: nat, r: nat)
    requires n < |supersets|
    ensures CanHold(newSet, supersets[n], maxMask) <==> |newSet + SetOf(supersets[n])| <= maxMask
    ensures ExpansionCost(newSet, supersets[n], weights) == RulesOf(newSet - SetOf(supersets[n]), weights)
    ensures CheapestOf(newSet, supersets, weights, maxMask, n, r) ==>
              CheapestOf(newSet, supersets, weights, maxMask, n + 1,
                         if CanHold(newSet, supersets[n], maxMask) &&
                            ExpansionCost(newSet, supersets[n], weights) < ExpansionCost(newSet, supersets[r], weights)
                         then n else r)
    ensures (forall i :: 0 <= i < n ==> !CanHold(newSet, supersets[i], maxMask)) &&
            CanHold(newSet, supersets[n], maxMask) ==>
              CheapestOf(newSet, supersets, weights, maxMask, n + 1, n)
  {
    hide RulesOf, SetOf, ExpansionCost, CanHold;
    CostAt(newSet, supersets[n], weights, maxMask);
  }

  lemma CostAt(newSet: Group, s: seq<Part>, weights: RuleCounts, maxMask: int)
    ensures CanHold(newSet, s, maxMask) <==> |newSet + SetOf(s)| <= maxMask
    ensures ExpansionCost(newSet, s, weights) == RulesOf(newSet - SetOf(s), weights)
  {
  }

  // An equal superset further to the left would have been chosen itself.
  lemma FirstOfItsKind(newSet: Group, supersets: seq<seq<Part>>, weights: RuleCounts, maxMask: int, r: nat, k: nat)
    requires CheapestExpansion(newSet, supersets, weights, maxMask, r)
    requires k < |supersets| && supersets[k] == supersets[r] && supersets[r] !in supersets[..k]
    ensures k == r && CanHold(newSet, supersets[r], maxMask)
  {
  }

  // `best_ss_to_expand_greedy`: -1 exactly if no superset can be expanded.
  method BestSsToExpandGreedy(newSet: Group, supersets: seq<seq<Part>>, weights: RuleCounts, maxMask: int)
    returns (r: int)
    requires newSet <= weights.Keys
    ensures r == -1 || (r >= 0 && CheapestExpansion(newSet, supersets, weights, maxMask, r))
    ensures r == -1 <==> forall i :: 0 <= i < |supersets| ==> !CanHold(newSet, supersets[i], maxMask)
  {
    hide ExpansionCost, CheapestOf, CanHold;
    var best: nat := 0;
    var bestCost: int := -1;
    var i := 0;
    while i < |supersets|
      invariant i <= |supersets| && bestCost >= -1 && (bestCost >= 0 ==> best < i)
      invariant bestCost == -1 ==> forall k :: 0 <= k < i ==> !CanHold(newSet, supersets[k], maxMask)
      invariant bestCost >= 0 ==> CheapestOf(newSet, supersets, weights, maxMask, i, best)
      invariant bestCost >= 0 ==> bestCost == ExpansionCost(newSet, supersets[best], weights)
    {
      NextCandidate(newSet, supersets, weights, maxMask, i, best);
      if |newSet + SetOf(supersets[i])| <= maxMask {
        var cost := SumOf(newSet - SetOf(supersets[i]), weights);
        if bestCost == -1 || cost < bestCost {
          bestCost, best := cost, i;
        }
      }
      i := i + 1;
    }
    if bestCost == -1 {
      return -1;
    }
    var k := IndexOf(supersets, supersets[best]);
    FirstOfItsKind(newSet, supersets, weights, maxMask, best, k);
    return k;
  }

  // In plain terms: the first superset that can be chosen at the least sum of the rules of the
  // members it would gain.
  lemma CheapestPlain(newSet: Group, supersets: seq<seq<Part>>, weights: RuleCounts, maxMask: int, r: nat, i: nat)
    requires CheapestExpansion(newSet, supersets, weights, maxMask, r) && i < |supersets|
    ensures r < |supersets| && |newSet + SetOf(supersets[r])| <= maxMask
    ensures |newSet + SetOf(supersets[i])| <= maxMask ==>
              && RulesOf(newSet - SetOf(supersets[r]), weights) <= RulesOf(newSet - SetOf(supersets[i]), weights)
              && (i < r ==>
                    RulesOf(newSet - SetOf(supersets[r]), weights) < RulesOf(newSet - SetOf(supersets[i]), weights))
  {
    hide RulesOf;
    assert CanHold(newSet, supersets[i], maxMask) <==> |newSet + SetOf(supersets[i])| <= maxMask;
  }

  // A member with one rule costs less than one with ten.
  lemma CheaperIsChosen(r: nat)
    ensures CheapestExpansion({1, 2}, [[2], [1]], map[1 := 10, 2 := 1], 2, r) <==> r == 1
  {
    hide CanHold, ExpansionCost;
    var supersets: seq<seq<Part>> := [[2], [1]];
    TenAndOne();
    assert CanHold({1, 2}, supersets[0], 2) && CanHold({1, 2}, supersets[1], 2);
  }

  lemma TenAndOne()
    ensures var weights := map[1 := 10, 2 := 1];
            && CanHold({1, 2}, [2], 2) && ExpansionCost({1, 2}, [2], weights) == 10
            && CanHold({1, 2}, [1], 2) && ExpansionCost({1, 2}, [1], weights) == 1
  {
    var weights: RuleCounts := map[1 := 10, 2 := 1];
    RulesAddUp({}, weights, 1);
    RulesAddUp({}, weights, 2);
    hide RulesOf;
    var g: Group := {1, 2};
    assert SetOf([2]) == {2} && SetOf([1]) == {1};
    assert g + {2} == g && g + {1} == g && g - {2} == {1} && g - {1} == {2};
  }

  // `is_subset_of_superset`.
  method IsSubsetOfSuperset(subset: Group, supersets: seq<seq<Part>>) returns (r: bool)
    ensures r <==> exists i :: 0 <= i < |supersets| && subset <= SetOf(supersets[i])
  {
    var i := 0;
    while i < |supersets|
      invariant i <= |supersets|
      invariant forall k :: 0 <= k < i ==> !(subset <= SetOf(supersets[k]))
    {
      if subset <= SetOf(supersets[i]) {
        return true;
      }
      i := i + 1;
    }
    return false;
  }

  // `clear_inactive_parts`.
  function ClearInactiveParts(prefixSets: seq<Group>, active: Group): (r: seq<Group>)
    ensures |r| == |prefixSets| && forall i :: 0 <= i < |r| ==> r[i] == active * prefixSets[i]
  {
    seq(|prefixSets|, i requires 0 <= i < |prefixSets| => active * prefixSets[i])
  }
}
