// Small graphs on which what `compute_encoding` of xrs/encoding.py leaves behind is worked
// out to the last code.
module EncoderExamples {
  import opened AsLinkEncoding
  import opened AsPaths
  import opened AsTopology
  import opened BitStrings
  import opened BudgetRun
  import opened CodeMapping
  import opened Collections
  import opened EncoderSteps
  import opened EncodingState
  import opened RefreshRun
  import opened SortedLinks
  import opened TurnOrder

  // From depth 2 on the graph has the link from 2 to 3 at depth 2, with w prefixes, and, if
  // v is positive, the link from 4 to 5 at depth 2 with v prefixes.
  ghost predicate Links(edges: Edges, w: int, v: int) {
    && (forall d: nat, l: Link {:trigger Live(edges, d, l)} :: d >= 2 ==>
          (Live(edges, d, l) <==> d == 2 && (l == Link(2, 3) || (v > 0 && l == Link(4, 5)))))
    && (Live(edges, 2, Link(2, 3)) ==> Weight(edges, 2, Link(2, 3)) == w)
    && (Live(edges, 2, Link(4, 5)) ==> Weight(edges, 2, Link(4, 5)) == v)
  }

  // A space of that many bits with one owner, of code 1.
  ghost function OneOwner(width: nat, owner: Asn, from: int, to: int, blocked: bool): Codes {
    Codes(width, Range(2, Pow2(width)), map[-1 := Entry(0, -1, -1), owner := Entry(1, from, to)], blocked)
  }

  lemma FirstBits()
    ensures Grow(EMPTY) == Codes(1, {1}, map[-1 := Entry(0, -1, -1)], false)
    ensures Grow(Grow(EMPTY)) == Codes(2, Range(1, 4), map[-1 := Entry(0, -1, -1)], false)
  {
    assert Pow2(0) == 1 && Pow2(1) == 2 && Pow2(2) == 4;
    assert Range(1, 2) == {1};
    assert {1} + Range(2, 4) == Range(1, 4);
  }

  lemma CodeOne(owner: Asn, fromAs: bool)
    ensures Assign(Codes(2, Range(1, 4), map[-1 := Entry(0, -1, -1)], false), owner, fromAs) ==
            OneOwner(2, owner, if fromAs then 1 else 0, if fromAs then 0 else 1, false)
  {
    hide Assign;
    var m := Codes(2, Range(1, 4), map[-1 := Entry(0, -1, -1)], false);
    assert 1 in m.free;
    AssignPlain(m, owner, fromAs);
    assert Pow2(2) == 4;
    assert Range(1, 4) - {1} == Range(2, 4);
  }

  // The first AS of a mapping costs two bits and gets code 1.
  lemma FirstCode(a: Asn, fromAs: bool)
    ensures Available(EMPTY, a, true, 0) == 2
    ensures Added(EMPTY, a, fromAs, true) ==
            (OneOwner(2, a, if fromAs then 1 else 0, if fromAs then 0 else 1, false), 2, true)
  {
    hide Assign, Grow, OneOwner;
    FirstBits();
    CodeOne(a, fromAs);
    assert |{1}| == 1;
    var one: map<int, Entry> := map[-1 := Entry(0, -1, -1)];
    assert one.Keys == {-1};
  }

  // The encoder with the link from 2 to 3 encoded and nothing else.
  ghost function OneLink(width2: nat, width3: nat, blocked: bool): Enc {
    Enc(2, map[2 := OneOwner(width2, 2, 1, 0, blocked), 3 := OneOwner(width3, 3, 0, 1, blocked)],
        map[2 := {Link(2, 3)}], map[])
  }

  lemma StartOf()
    ensures Empty(2, {2}) == Enc(2, map[2 := EMPTY, 3 := EMPTY], map[2 := {}], map[])
  {
    assert MappingDepths(2) == {2, 3};
  }

  lemma FirstTurnTaken(w: int, maxBytes: int)
    requires maxBytes >= 6
    ensures TakeTurn(Empty(2, {2}), 0, Turn(2, Item(w, Link(2, 3))), maxBytes) ==
            (OneLink(2, 2, maxBytes == 6), 4)
  {
    hide Added, Available, OneOwner, Empty;
    StartOf();
    FirstCode(2, true);
    FirstCode(3, false);
    BlockedOwner(2, 1, 0);
    BlockedOwner(3, 0, 1);
    var e := Enc(2, map[2 := EMPTY, 3 := EMPTY], map[2 := {}], map[]);
    assert Encode(e, 2, Link(2, 3), true).maps == OneLink(2, 2, false).maps;
    assert e.links[2] + {Link(2, 3)} == {Link(2, 3)};
    assert Encode(e, 2, Link(2, 3), true).links == OneLink(2, 2, false).links;
    if maxBytes == 6 {
      assert Spend(e, 2, Link(2, 3), true).maps == OneLink(2, 2, true).maps;
    } else {
      assert Spend(e, 2, Link(2, 3), false).maps == OneLink(2, 2, false).maps;
    }
  }

  lemma BlockedOwner(a: Asn, from: int, to: int)
    ensures Blocked(OneOwner(2, a, from, to, false), true) == OneOwner(2, a, from, to, true)
  {
  }

  lemma SecondDoesNotFit(v: int)
    ensures TakeTurn(OneLink(2, 2, true), 4, Turn(2, Item(v, Link(4, 5))), 6) == (OneLink(2, 2, true), 4)
  {
    OneOwnerSizes(2, 2, 1, 0, true);
    OneOwnerSizes(2, 3, 0, 1, true);
  }

  lemma OneOwnerSizes(width: nat, owner: Asn, from: int, to: int, blocked: bool)
    requires width >= 1
    ensures var m := OneOwner(width, owner, from, to, blocked);
            && |m.free| == Pow2(width) - 2 && |m.table.Keys| == 2 && m.table.Keys == {SENTINEL, owner as int}
            && Pow2(1) == 2 && Pow2(2) == 4
  {
    Pow2Monotone(1, width);
    assert OneOwner(width, owner, from, to, blocked).table.Keys == {SENTINEL, owner as int};
  }

  lemma OneMoreBitEach(width: nat, owner: Asn, from: int, to: int, blocked: bool)
    requires width >= 1
    ensures Grow(OneOwner(width, owner, from, to, blocked)) == OneOwner(width + 1, owner, from, to, blocked)
  {
    Pow2Monotone(1, width);
    assert 2 <= Pow2(width) && Pow2(width + 1) == 2 * Pow2(width);
    hide Pow2;
    assert Range(2, Pow2(width)) + Range(Pow2(width), Pow2(width + 1)) == Range(2, Pow2(width + 1));
  }

  lemma WidenedLink(a: nat, b: nat, blocked: bool)
    requires a >= 1 && b >= 1
    ensures Widen(OneLink(a, b, blocked), 2) == OneLink(a + 1, b, blocked)
    ensures Widen(OneLink(a, b, blocked), 3) == OneLink(a, b + 1, blocked)
    ensures LastBits(OneLink(a, b, blocked)) == OneLink(a + 1, b + 1, blocked)
  {
    hide Grow, OneOwner;
    OneMoreBitEach(a, 2, 1, 0, blocked);
    OneMoreBitEach(b, 3, 0, 1, blocked);
    assert Widen(OneLink(a, b, blocked), 2).maps == OneLink(a + 1, b, blocked).maps;
    assert Widen(OneLink(a, b, blocked), 3).maps == OneLink(a, b + 1, blocked).maps;
    assert Widen(OneLink(a + 1, b, blocked), 3).maps == OneLink(a + 1, b + 1, blocked).maps;
  }

  // Two links and six bits: the heavier one takes four of them, the lighter one does not fit,
  // and the last two bits go to the depths 2 and 3.
  lemma HeavierLinkFirst(e: Enc, edges: Edges, percentile: seq<int> -> real, w: int, v: int)
    requires JustComputed(e, edges, 2, 6, percentile) && Links(edges, w, v) && w > v
    ensures e.links == map[2 := {Link(2, 3)}]
    ensures e.maps == map[2 := OneOwner(3, 2, 1, 0, true), 3 := OneOwner(3, 3, 0, 1, true)]
    ensures e.minimum == map[2 := percentile([w])]
  {
    hide Sound, Calibrated, Live, HeaviestFirst, OneOwner, Empty, Allocates;
    OneDepth(e, edges, w, v);
    var turns: seq<Turn>, depths: seq<nat> :|
      Examines(turns, edges, 2) && Allocates(Empty(2, {2}), e, turns, depths, 6);
    TurnsOf(turns, edges, w, v);
    SixBits(e, turns, depths, w, v);
    assert e.links == OneLink(3, 3, true).links && e.maps == OneLink(3, 3, true).maps;
    OneThreshold(e, edges, percentile, w);
  }

  lemma SixBits(e: Enc, turns: seq<Turn>, depths: seq<nat>, w: int, v: int)
    requires turns == [Turn(2, Item(w, Link(2, 3)))] + if v > 0 then [Turn(2, Item(v, Link(4, 5)))] else []
    requires Allocates(Empty(2, {2}), e, turns, depths, 6)
    ensures e.(minimum := map[]) == OneLink(3, 3, true)
  {
    hide TakeTurns, FewestFirst, OneLink, TakeTurn, LastBits, WidenAll;
    var filled :| Fills(Empty(2, {2}), filled, turns, depths, 6) && e.(minimum := map[]) == LastBits(filled);
    FirstTurnTaken(w, 6);
    SecondDoesNotFit(v);
    TurnsTaken(Empty(2, {2}), turns, 6);
    StartOf();
    assert depths == [];
    NothingWidened(OneLink(2, 2, true));
    WidenedLink(2, 2, true);
  }

  lemma NothingWidened(e: Enc)
    ensures WidenAll(e, []) == e
  {
  }

  // One link and eight bits: two are left over, one for each mapping, because the one that
  // has just grown has more free codes.
  lemma LeftOverIsSpread(e: Enc, edges: Edges, percentile: seq<int> -> real, w: int)
    requires JustComputed(e, edges, 2, 8, percentile) && Links(edges, w, 0) && w > 0
    ensures e.links == map[2 := {Link(2, 3)}]
    ensures e.maps == map[2 := OneOwner(4, 2, 1, 0, false), 3 := OneOwner(4, 3, 0, 1, false)]
    ensures e.minimum == map[2 := percentile([w])]
  {
    hide Sound, Calibrated, Live, HeaviestFirst, OneOwner, Empty, Allocates;
    OneDepth(e, edges, w, 0);
    var turns: seq<Turn>, depths: seq<nat> :|
      Examines(turns, edges, 2) && Allocates(Empty(2, {2}), e, turns, depths, 8);
    TurnsOf(turns, edges, w, 0);
    EightBits(e, turns, depths, w);
    assert e.links == OneLink(4, 4, false).links && e.maps == OneLink(4, 4, false).maps;
    OneThreshold(e, edges, percentile, w);
  }

  lemma EightBits(e: Enc, turns: seq<Turn>, depths: seq<nat>, w: int)
    requires turns == [Turn(2, Item(w, Link(2, 3)))] && Allocates(Empty(2, {2}), e, turns, depths, 8)
    ensures e.(minimum := map[]) == OneLink(4, 4, false)
  {
    hide TakeTurns, FewestFirst, OneLink, TakeTurn, LastBits, WidenAll;
    var filled :| Fills(Empty(2, {2}), filled, turns, depths, 8) && e.(minimum := map[]) == LastBits(filled);
    FirstTurnTaken(w, 8);
    TurnsTaken(Empty(2, {2}), turns, 8);
    StartOf();
    assert |depths| == 2;
    BothWiden(depths);
    WidenedLink(3, 3, false);
  }

  lemma BothWiden(depths: seq<nat>)
    requires |depths| == 2 && FewestFirst(OneLink(2, 2, false), depths)
    ensures WidenAll(OneLink(2, 2, false), depths) == OneLink(3, 3, false)
  {
    hide LeastFree, OneOwner, Widen;
    var e := OneLink(2, 2, false);
    assert depths[..0] == [] && depths[..1][..0] == [] && depths[..2] == depths;
    assert LeastFree(WidenAll(e, depths[..0]), depths[0]) && LeastFree(WidenAll(e, depths[..1]), depths[1]);
    LeastIsThere(e, depths[0]);
    WidenedLink(2, 2, false);
    assert WidenAll(e, depths[..1]) == Widen(e, depths[0]);
    SmallerFirst();
    LeastIsThere(WidenAll(e, depths[..1]), depths[1]);
    WidenedLink(2, 3, false);
    WidenedLink(3, 2, false);
  }

  lemma LeastIsThere(e: Enc, d: nat)
    requires LeastFree(e, d)
    ensures d in e.maps && forall k :: k in e.maps ==> |e.maps[d].free| <= |e.maps[k].free|
  {
  }

  lemma SmallerFirst()
    ensures |OneOwner(2, 2, 1, 0, false).free| == |OneOwner(2, 3, 0, 1, false).free| == 2
    ensures |OneOwner(3, 2, 1, 0, false).free| == |OneOwner(3, 3, 0, 1, false).free| == 6
  {
    assert Pow2(2) == 4 && Pow2(3) == 8;
  }

  lemma OneDepth(e: Enc, edges: Edges, w: int, v: int)
    requires Sound(e) && Links(edges, w, v) && forall d :: d in e.links <==> 2 <= d <= 2 && InUse(edges, d)
    ensures e.top == 2 && e.links.Keys == {2} && InUse(edges, 2)
  {
    hide SoundAt;
    assert Live(edges, 2, Link(2, 3));
    assert 2 in e.links && 3 !in e.links;
  }

  lemma TurnsOf(turns: seq<Turn>, edges: Edges, w: int, v: int)
    requires Examines(turns, edges, 2) && Links(edges, w, v) && w > v
    ensures turns == [Turn(2, Item(w, Link(2, 3)))] + if v > 0 then [Turn(2, Item(v, Link(4, 5)))] else []
  {
    var first, second := Turn(2, Item(w, Link(2, 3))), Turn(2, Item(v, Link(4, 5)));
    assert Live(edges, 2, Link(2, 3));
    assert first in turns;
    assert forall i :: 0 <= i < |turns| ==> turns[i] in turns && turns[i] == Turn(turns[i].depth, turns[i].item);
    assert forall i :: 0 <= i < |turns| ==> turns[i] == first || (v > 0 && turns[i] == second);
    if v > 0 {
      assert Live(edges, 2, Link(4, 5));
      assert second in turns;
    }
    AtMostTwo(turns, first, second, v > 0);
  }

  lemma AtMostTwo(turns: seq<Turn>, first: Turn, second: Turn, both: bool)
    requires HeaviestFirst(turns) && first in turns && (both ==> second in turns)
    requires forall i :: 0 <= i < |turns| ==> turns[i] == first || (both && turns[i] == second)
    requires first.item.weight > second.item.weight
    ensures turns == if both then [first, second] else [first]
  {
    var all := if both then [first, second] else [first];
    assert forall t :: t in turns <==> t in all;
    FewerElements(turns, all);
    FewerElements(all, turns);
  }

  lemma TurnsTaken(start: Enc, turns: seq<Turn>, maxBytes: int)
    requires 1 <= |turns| <= 2
    ensures var first := TakeTurn(start, 0, turns[0], maxBytes);
            TakeTurns(start, turns, maxBytes) ==
            if |turns| == 1 then first else TakeTurn(first.0, first.1, turns[1], maxBytes)
  {
    hide TakeTurn;
    assert TakeTurns(start, [], maxBytes) == (start, 0);
    assert turns[..1][..0] == [];
    assert TakeTurns(start, turns[..1], maxBytes) == TakeTurn(start, 0, turns[0], maxBytes);
    assert |turns| == 1 ==> turns == turns[..1];
  }

  lemma OneThreshold(e: Enc, edges: Edges, percentile: seq<int> -> real, w: int)
    requires Sound(e) && Calibrated(e, edges, percentile) && e.links == map[2 := {Link(2, 3)}]
    requires Live(edges, 2, Link(2, 3)) && Weight(edges, 2, Link(2, 3)) == w
    ensures e.minimum == map[2 := percentile([w])]
  {
    hide SoundAt, Calibrated;
    CalibratedPlain(e, edges, percentile, 2);
    var v: seq<int>, order: seq<Link> :|
      && |order| == |v| && (forall i, j :: 0 <= i < j < |order| ==> order[i] != order[j])
      && (forall l :: l in order <==> l in e.links[2])
      && (forall i :: 0 <= i < |v| ==>
            order[i] in edges && 2 in edges[order[i]].depth && v[i] == edges[order[i]].depth[2])
      && e.minimum[2] == percentile(v);
    assert forall l :: l in order <==> l == Link(2, 3);
    OnlyOne(order, Link(2, 3));
    assert v == [w];
  }

  lemma OnlyOne(order: seq<Link>, l: Link)
    requires forall i, j :: 0 <= i < j < |order| ==> order[i] != order[j]
    requires forall k :: k in order <==> k == l
    ensures order == [l]
  {
    FewerElements(order, [l]);
    assert l in order && order[0] in order;
  }
}
