// The order in which `compute_encoding` of xrs/encoding.py takes up the links, and what it
// does with each at its turn.
module TurnOrder {
  import opened AsTopology
  import opened BitStrings
  import opened BudgetRun
  import opened CodeMapping
  import opened Collections
  import opened EncodingState
  import opened SortedLinks

  datatype Turn = Turn(depth: nat, item: Item)

  // One turn: the link is encoded exactly if its predicted cost fits what is left.
  ghost function TakeTurn(e: Enc, total: int, t: Turn, maxBytes: int): (Enc, int) {
    var d, l := t.depth, t.item.link;
    if d in e.maps && d + 1 in e.maps && d in e.links
       && total + Available(e.maps[d], l.from, true, 0) + Available(e.maps[d + 1], l.to, true, 0) <= maxBytes - 2 then
      var total' := total + Added(e.maps[d], l.from, true, true).1 + Added(e.maps[d + 1], l.to, false, true).1;
      (Spend(e, d, l, total' >= maxBytes - 2), total')
    else (e, total)
  }

  // All turns, from a state in which no bit is spent.
  ghost function TakeTurns(e: Enc, turns: seq<Turn>, maxBytes: int): (Enc, int) {
    if turns == [] then (e, 0)
    else
      var before := TakeTurns(e, turns[..|turns| - 1], maxBytes);
      TakeTurn(before.0, before.1, turns[|turns| - 1], maxBytes)
  }

  // Each turn once, the heaviest link first, links of one depth against the order of the lists.
  ghost predicate HeaviestFirst(turns: seq<Turn>) {
    forall i, j :: 0 <= i < j < |turns| ==> ComesFirst(turns[i], turns[j])
  }

  predicate ComesFirst(t: Turn, u: Turn) {
    && t != u && t.item.weight >= u.item.weight
    && (t.depth == u.depth ==> Less(u.item, t.item))
  }

  // The turns of all live links of the depths the encoder handles.
  ghost predicate Examines(turns: seq<Turn>, edges: Edges, maxDepth: nat) {
    && HeaviestFirst(turns)
    && forall d: nat, x: Item :: Turn(d, x) in turns <==>
         2 <= d <= maxDepth && Live(edges, d, x.link) && x.weight == Weight(edges, d, x.link)
  }

  // The turns taken so far are those of the links no longer listed.
  ghost predicate TurnsSoFar(turns: seq<Turn>, all: Lists, lists: Lists) {
    && HeaviestFirst(turns) && lists.Keys == all.Keys
    && (forall d :: d in lists ==> Ascending(lists[d]))
    && (forall d, x :: Turn(d, x) in turns <==> d in all && x in all[d] && x !in lists[d])
    && (forall d, x :: d in lists && x in lists[d] ==> x in all[d])
    && (forall i, d, x :: 0 <= i < |turns| && d in lists && x in lists[d] ==>
          turns[i].item.weight >= x.weight && (turns[i].depth == d ==> Less(x, turns[i].item)))
  }

  // In plain terms: every link of the depths the encoder handles has its turn with its number of
  // prefixes, no two turns are the same, no later turn is for more prefixes, and of links of one
  // depth with equal numbers the one with the higher ASes comes first.
  lemma ExaminesPlain(turns: seq<Turn>, edges: Edges, maxDepth: nat)
    requires Examines(turns, edges, maxDepth)
    ensures forall t :: t in turns <==>
              && 2 <= t.depth <= maxDepth && t.item.link in edges && t.depth in edges[t.item.link].depth
              && t.item.weight == edges[t.item.link].depth[t.depth]
    ensures forall i, j :: 0 <= i < j < |turns| ==>
              var t, u := turns[i], turns[j];
              && t != u && t.item.weight >= u.item.weight
              && (t.depth == u.depth && t.item.weight == u.item.weight ==>
                    u.item.link.from < t.item.link.from ||
                    (u.item.link.from == t.item.link.from && u.item.link.to < t.item.link.to))
  {
    forall t
      ensures t in turns <==>
              && 2 <= t.depth <= maxDepth && t.item.link in edges && t.depth in edges[t.item.link].depth
              && t.item.weight == edges[t.item.link].depth[t.depth]
    {
      assert t == Turn(t.depth, t.item);
    }
    assert forall i, j :: 0 <= i < j < |turns| ==> ComesFirst(turns[i], turns[j]);
  }

  // ---- the bits left over ----

  // One bit more at each depth of the list.
  ghost function WidenAll(e: Enc, depths: seq<nat>): Enc {
    if depths == [] then e
    else
      var before := WidenAll(e, depths[..|depths| - 1]);
      if depths[|depths| - 1] in before.maps then Widen(before, depths[|depths| - 1]) else before
  }

  ghost predicate LeastFree(e: Enc, d: nat) {
    d in e.maps && forall k :: k in e.maps ==> |e.maps[d].free| <= |e.maps[k].free|
  }

  // Each time a mapping with the fewest free codes gets the bit.
  ghost predicate FewestFirst(e: Enc, depths: seq<nat>) {
    forall i {:trigger depths[i]} :: 0 <= i < |depths| ==> LeastFree(WidenAll(e, depths[..i]), depths[i])
  }

  lemma OneMoreBit(e: Enc, depths: seq<nat>, d: nat)
    requires FewestFirst(e, depths) && LeastFree(WidenAll(e, depths), d)
    ensures FewestFirst(e, depths + [d]) && WidenAll(e, depths + [d]) == Widen(WidenAll(e, depths), d)
  {
    hide Widen, LeastFree;
    LeastFreeIsThere(WidenAll(e, depths), d);
    var more := depths + [d];
    assert more[..|depths|] == depths;
    forall i {:trigger more[i]} | 0 <= i < |more|
      ensures LeastFree(WidenAll(e, more[..i]), more[i])
    {
      if i < |depths| {
        assert more[..i] == depths[..i] && more[i] == depths[i];
      }
    }
  }

  lemma LeastFreeIsThere(e: Enc, d: nat)
    requires LeastFree(e, d)
    ensures d in e.maps
  {
  }

  // One bit more at the depths 2 and 3.
  ghost function LastBits(e: Enc): Enc {
    if 2 in e.maps && 3 in e.maps then Widen(Widen(e, 2), 3) else e
  }

  // Both depths get one bit, with the upper half of their new space free; no other changes.
  lemma LastBitsGoTo(e: Enc)
    requires 2 in e.maps <==> 3 in e.maps
    ensures LastBits(e).links == e.links && LastBits(e).minimum == e.minimum && LastBits(e).maps.Keys == e.maps.Keys
    ensures forall d :: d in e.maps ==>
              var m, m' := e.maps[d], LastBits(e).maps[d];
              && m'.blocked == m.blocked
              && (d == 2 || d == 3 ==>
                    && m'.width == m.width + 1 && m'.free == m.free + Range(Pow2(m.width), Pow2(m.width + 1))
                    && m'.table == if m.width == 0 then m.table[-1 := Entry(0, -1, -1)] else m.table)
              && (d != 2 && d != 3 ==> m' == m)
  {
    hide Range;
  }

  // The bits that are left once a number of them is spent, if there is a mapping to take them.
  function LeftOver(start: Enc, total: int, maxBytes: int): nat {
    if start.maps.Keys == {} || total >= maxBytes - 2 then 0 else maxBytes - 2 - total
  }

  // The greedy part, and the bits left over.
  ghost predicate Fills(start: Enc, filled: Enc, turns: seq<Turn>, depths: seq<nat>, maxBytes: int) {
    var (taken, total) := TakeTurns(start, turns, maxBytes);
    && FewestFirst(taken, depths) && |depths| == LeftOver(start, total, maxBytes)
    && filled == WidenAll(taken, depths)
  }

  // The same for the links of a graph.
  ghost predicate Filled(start: Enc, filled: Enc, edges: Edges, maxDepth: nat, maxBytes: int) {
    exists turns, depths :: Examines(turns, edges, maxDepth) && Fills(start, filled, turns, depths, maxBytes)
  }

  // What `compute_encoding` leaves behind, up to the thresholds.
  ghost predicate Computed(start: Enc, e: Enc, edges: Edges, maxDepth: nat, maxBytes: int) {
    exists turns, depths :: Examines(turns, edges, maxDepth) && Allocates(start, e, turns, depths, maxBytes)
  }

  ghost predicate Allocates(start: Enc, e: Enc, turns: seq<Turn>, depths: seq<nat>, maxBytes: int) {
    exists filled :: Fills(start, filled, turns, depths, maxBytes) && e.(minimum := map[]) == LastBits(filled)
  }

  lemma LastIsHeaviest(s: seq<Item>, x: Item)
    requires Ascending(s) && x in s
    ensures x.weight <= Last(s).weight && Last(s) in s && (x in Init(s) <==> x != Last(s)) && Ascending(Init(s))
    ensures x == Last(s) || Less(x, Last(s))
  {
  }

  lemma NextTurn(turns: seq<Turn>, all: Lists, lists: Lists, d: nat)
    requires TurnsSoFar(turns, all, lists) && d in lists && lists[d] != []
    requires forall k :: k in lists && lists[k] != [] ==> Last(lists[k]).weight <= Last(lists[d]).weight
    ensures TurnsSoFar(turns + [Turn(d, Last(lists[d]))], all, lists[d := Init(lists[d])])
  {
    hide Ascending, HeaviestFirst, Less;
    var t := Turn(d, Last(lists[d]));
    var turns', lists' := turns + [t], lists[d := Init(lists[d])];
    LastIsHeaviest(lists[d], Last(lists[d]));
    forall k, x | k in lists && x in lists[k]
      ensures x.weight <= t.item.weight && (x in lists'[k] <==> Turn(k, x) != t)
      ensures k == d && x != t.item ==> Less(x, t.item)
    {
      LastIsHeaviest(lists[k], x);
    }
    forall k, x | k in lists' && x in lists'[k]
      ensures x in lists[k]
    {
    }
    assert t !in turns;
    HeaviestNext(turns, t);
    forall k, x
      ensures Turn(k, x) in turns' <==> k in all && x in all[k] && x !in lists'[k]
    {
      assert Turn(k, x) in turns' <==> Turn(k, x) in turns || Turn(k, x) == t;
    }
  }

  lemma HeaviestNext(turns: seq<Turn>, t: Turn)
    requires HeaviestFirst(turns) && t !in turns
    requires forall i :: 0 <= i < |turns| ==>
               turns[i].item.weight >= t.item.weight && (turns[i].depth == t.depth ==> Less(t.item, turns[i].item))
    ensures HeaviestFirst(turns + [t])
  {
  }

  lemma AllTurnsTaken(turns: seq<Turn>, all: Lists, lists: Lists, edges: Edges, maxDepth: nat)
    requires TurnsSoFar(turns, all, lists) && Complete(all, edges, None, maxDepth)
    requires forall d :: d in lists ==> lists[d] == []
    ensures Examines(turns, edges, maxDepth)
  {
  }
}
