// The AS-link encoder of one peer: class `Encoding` of xrs/encoding.py.
module AsLinkEncoding {
  import opened AsPaths
  import opened AsTopology
  import opened BitStrings
  import opened BudgetRun
  import opened CodeMapping
  import opened Collections
  import opened EncodingState
  import opened RefreshRun
  import opened SortedLinks
  import opened TurnOrder

  class Encoding {
    const g: ASTopology
    const maxBytes: int
    const maxDepth: nat
    const percentile: seq<int> -> real  // numpy.percentile(vec, min_percentile)

    var mapping: map<nat, Mapping>
    var minimum: map<nat, real>
    var encodedAslinks: Links

    ghost var top: nat
    ghost var Repr: set<Mapping>

    ghost function State(): Enc
      requires Owned()
      reads this, Repr
    {
      Enc(top, map d | d in mapping :: mapping[d].Value(), encodedAslinks, minimum)
    }

    // Every depth has a mapping object of its own.
    ghost predicate Owned()
      reads `mapping, `Repr
    {
      && (forall d :: d in mapping ==> mapping[d] in Repr)
      && (forall d, k :: d in mapping && k in mapping && d != k ==> mapping[d] != mapping[k])
    }

    ghost predicate Valid()
      reads this, Repr
    {
      Owned() && Sound(State()) && (top == 1 || top <= maxDepth)
    }

    constructor (g: ASTopology, maxBytes: int, maxDepth: nat, percentile: seq<int> -> real)
      ensures this.g == g && this.maxBytes == maxBytes && this.maxDepth == maxDepth && this.percentile == percentile
      ensures Valid() && State() == Enc(1, map[], map[], map[])
    {
      this.g, this.maxBytes, this.maxDepth, this.percentile := g, maxBytes, maxDepth, percentile;
      mapping, minimum, encodedAslinks := map[], map[], map[];
      top, Repr := 1, {};
    }

    // ---- `compute_encoding` ----

    // The state while the mappings are still being created on demand.
    ghost predicate Forms(e: Enc)
      reads `top, `mapping, `encodedAslinks, `Repr, Repr
    {
      && Owned()
      && e.top == top && e.links == encodedAslinks && e.minimum == map[]
      && mapping.Keys <= e.maps.Keys == MappingDepths(top)
      && forall d :: d in e.maps ==> e.maps[d] == if d in mapping then mapping[d].Value() else EMPTY
    }

    lemma FormsState(e: Enc)
      requires Forms(e) && mapping.Keys == MappingDepths(top)
      ensures Owned() && State() == e.(minimum := minimum) && e.top == top && e.links == encodedAslinks
      ensures e.minimum == map[]
    {
    }

    lemma FormsFacts(e: Enc)
      requires Forms(e)
      ensures e.top == top && e.links == encodedAslinks && e.maps.Keys == MappingDepths(top)
      ensures forall d :: d in mapping ==> d in e.maps && mapping[d].Value() == e.maps[d]
    {
    }

    // Given a link at depth 2 and at least two bits, the widths add up to `maxBytes`. The
    // links are taken up from the heaviest on, each encoded exactly if it still fits.
    // The ghost result is the state before the last two bits: they go to the depths 2 and 3.
    method ComputeEncoding() returns (ghost filled: Enc)
      requires Contiguous(g.edge, maxDepth)
      modifies this
      ensures Valid() && fresh(Repr) && LinksLive(State(), g.edge)
      ensures BitsBelow(State().maps, maxDepth + 2) ==
              if InUse(g.edge, 2) && maxDepth >= 2 then Spendable(maxBytes) + 2 else 0
      ensures forall d :: d in encodedAslinks <==> 2 <= d <= maxDepth && InUse(g.edge, d)
      ensures Calibrated(State(), g.edge, percentile)
      ensures Computed(Empty(top, encodedAslinks.Keys), State(), g.edge, maxDepth, maxBytes)
      ensures Filled(Empty(top, encodedAslinks.Keys), filled, g.edge, maxDepth, maxBytes)
      ensures filled.maps.Keys == mapping.Keys && filled.links == encodedAslinks
      ensures forall d :: d in mapping ==>
                && mapping[d].nbBytes == filled.maps[d].width + (if d == 2 || d == 3 then 1 else 0)
                && mapping[d].free ==
                   if d == 2 || d == 3 then
                     filled.maps[d].free + Range(Pow2(filled.maps[d].width), Pow2(filled.maps[d].width + 1))
                   else filled.maps[d].free
    {
      hide *;
      var all := ComputeSortedList(g.edge, None, maxDepth);
      ghost var t := CompleteTop(all, g.edge, maxDepth);
      DepthsInUse(all, g.edge, maxDepth);
      ghost var e := Empty(t, all.Keys);
      FormingStarts(t, g.edge, all, maxDepth, maxBytes);
      encodedAslinks := map d | d in all :: {};
      mapping := map[];
      top, Repr := t, {};
      FormsEmpty(all, e);
      assert 2 in all <==> 2 <= t;
      CompleteIsAscending(all, g.edge, maxDepth);
      ghost var turns, lists, depths;
      turns, lists, depths, filled := Allocate(all, e);
      AllTurnsTaken(turns, all, lists, g.edge, maxDepth);
      IsComputed(e, State(), turns, depths, g.edge, maxDepth, maxBytes);
      IsFilled(e, filled, turns, depths, g.edge, maxDepth, maxBytes);
      WidenedAt(filled);
    }

    lemma FormsEmpty(all: Lists, e: Enc)
      requires mapping == map[] && Repr == {} && encodedAslinks == (map d | d in all :: {}) && e == Empty(top, all.Keys)
      ensures Forms(e)
    {
    }

    // `compute_encoding` once its lists are there.
    method Allocate(all: Lists, ghost e0: Enc)
      returns (ghost turns: seq<Turn>, ghost lists: Lists, ghost depths: seq<nat>, ghost filled: Enc)
      requires Forms(e0) && mapping == map[] && Repr == {} && InBudget(e0, 0, maxBytes) && LinksLive(e0, g.edge)
      requires Greedy(e0, g.edge, all, all, NoWeights(all), NoLinks(all), {})
      requires forall d :: d in all ==> d <= maxDepth && all[d] != []
      requires TurnsSoFar([], all, all)
      requires top == 1 || top <= maxDepth
      modifies `mapping, `encodedAslinks, `minimum, `Repr
      ensures Valid() && fresh(Repr) && LinksLive(State(), g.edge)
      ensures BitsBelow(State().maps, maxDepth + 2) == if 2 <= top then Spendable(maxBytes) + 2 else 0
      ensures encodedAslinks.Keys == all.Keys
      ensures Calibrated(State(), g.edge, percentile)
      ensures TurnsSoFar(turns, all, lists) && forall d :: d in lists ==> lists[d] == []
      ensures Owned() && Allocates(e0, State(), turns, depths, maxBytes)
      ensures Fills(e0, filled, turns, depths, maxBytes)
      ensures State().maps == LastBits(filled).maps && Sound(filled) && filled.links == encodedAslinks
      ensures top == old(top)
    {
      hide TakeTurns, TurnsSoFar, FewestFirst, WidenAll, LastBits, Forms, InBudget, Greedy, BitsBelow, Sound,
        Calibrated, Weighed, LinksLive, Fills, Allocates, MappingDepths;
      FormsFacts(e0);
      SomeDepthIff(top);
      var vecs, total;
      ghost var kept, e1, e2, e3;
      vecs, total, kept, e1, turns, lists := EncodeGreedily(all, e0);
      e2, depths := FillUp(total, e1);
      filled := e2;
      FilledUp(e0, e1, total, e2, turns, depths, top, maxBytes);
      e3 := AddLastBits(e2);
      minimum := map[];
      UpdateMinimum(vecs);
      FormsState(e3);
      SameLinks(e1, e3, g.edge, vecs, kept);
      Calibration(e3, State(), g.edge, vecs, kept, percentile);
      TopBits(State(), maxDepth);
      AllocatedFrom(e0, filled, State(), turns, depths, maxBytes);
    }

    // What the last two bits did to the mappings.
    lemma WidenedAt(filled: Enc)
      requires Owned() && State().maps == LastBits(filled).maps && Sound(filled)
      ensures filled.maps.Keys == mapping.Keys
      ensures forall d :: d in mapping ==>
                && mapping[d].nbBytes == filled.maps[d].width + (if d == 2 || d == 3 then 1 else 0)
                && mapping[d].free ==
                   if d == 2 || d == 3 then
                     filled.maps[d].free + Range(Pow2(filled.maps[d].width), Pow2(filled.maps[d].width + 1))
                   else filled.maps[d].free
    {
      hide LastBits, Range, SoundAt;
      LastBitsGoTo(filled);
      assert State().maps.Keys == mapping.Keys;
      assert forall d :: d in mapping ==> mapping[d].Value() == State().maps[d];
    }

    // The main loop.
    method EncodeGreedily(all: Lists, ghost e0: Enc)
      returns (vecs: map<nat, seq<int>>, total: nat, ghost kept: Kept, ghost e: Enc, ghost turns: seq<Turn>,
               ghost rest: Lists)
      requires Forms(e0) && mapping == map[] && Repr == {} && InBudget(e0, 0, maxBytes) && LinksLive(e0, g.edge)
      requires Greedy(e0, g.edge, all, all, NoWeights(all), NoLinks(all), {})
      requires forall d :: d in all ==> d <= maxDepth && all[d] != []
      requires TurnsSoFar([], all, all)
      modifies `mapping, `encodedAslinks, `Repr
      ensures Forms(e) && fresh(Repr) && mapping.Keys == MappingDepths(top)
      ensures InBudget(e, total, maxBytes) && LinksLive(e, g.edge)
      ensures Weighed(e, g.edge, vecs, kept) && e.links.Keys == all.Keys
      ensures TurnsSoFar(turns, all, rest) && forall d :: d in rest ==> rest[d] == []
      ensures (e, total) == TakeTurns(e0, turns, maxBytes)
    {
      hide *;
      assert mapping.Keys == {};
      var lists := all;
      vecs, total, kept, e := NoWeights(all), 0, NoLinks(all), e0;
      turns := [];
      FirstTurn(e0, maxBytes);
      while true
        invariant Forms(e) && fresh(Repr) && InBudget(e, total, maxBytes) && LinksLive(e, g.edge)
        invariant Greedy(e, g.edge, all, lists, vecs, kept, mapping.Keys)
        invariant forall d :: d in lists ==> d <= maxDepth && d in all
        invariant TurnsSoFar(turns, all, lists) && (e, total) == TakeTurns(e0, turns, maxBytes)
        decreases ListsSize(lists, maxDepth + 1)
      {
        var next := PickHeaviest(lists);
        if next == None {
          break;
        }
        ListsShrinkBy(lists, next.value, Init(lists[next.value]), maxDepth + 1);
        LastIs(lists);
        NextTurn(turns, all, lists, next.value);
        OneMoreTurn(e0, turns, Turn(next.value, Last(lists[next.value])), maxBytes);
        turns := turns + [Turn(next.value, Last(lists[next.value]))];
        vecs, total, kept, e := EncodeOnce(all, lists, next.value, vecs, total, kept, e);
        lists := lists[next.value := Init(lists[next.value])];
      }
      rest := lists;
      FormsFacts(e);
      AllExamined(e, g.edge, all, lists, vecs, kept, mapping.Keys, total, maxBytes);
    }

    // One iteration of the main loop, on the last link of depth d.
    method EncodeOnce(all: Lists, lists: Lists, d: nat, vecs: map<nat, seq<int>>, total: nat, ghost kept: Kept,
                      ghost e: Enc)
      returns (vecs': map<nat, seq<int>>, total': nat, ghost kept': Kept, ghost e': Enc)
      requires Forms(e) && InBudget(e, total, maxBytes) && LinksLive(e, g.edge)
      requires Greedy(e, g.edge, all, lists, vecs, kept, mapping.Keys)
      requires d in lists && lists[d] != []
      modifies `mapping, `encodedAslinks, `Repr, Repr
      ensures Forms(e') && fresh(Repr - old(Repr))
      ensures InBudget(e', total', maxBytes) && LinksLive(e', g.edge)
      ensures Greedy(e', g.edge, all, lists[d := Init(lists[d])], vecs', kept', mapping.Keys)
      ensures (e', total') == TakeTurn(e, total, Turn(d, Last(lists[d])), maxBytes)
    {
      hide *;
      FormsFacts(e);
      GreedyFacts(e, g.edge, all, lists, vecs, kept, mapping.Keys, total, maxBytes, d);
      var x := Last(lists[d]);
      Create(d, e);
      Create(d + 1, e);
      GreedyCreated(e, g.edge, all, lists, vecs, kept, old(mapping.Keys), mapping.Keys);
      var encoded;
      encoded, total', e' := TryEncode(d, x.link, total, e);
      if encoded {
        vecs', kept' := vecs[d := vecs[d] + [x.weight]], kept[d := kept[d] + [x.link]];
        TakeStep(e, e', g.edge, all, lists, vecs, kept, mapping.Keys, d);
        TakenLive(e, e', g.edge, d, x.link);
      } else {
        vecs', kept' := vecs, kept;
        SkipStep(e, g.edge, all, lists, vecs, kept, mapping.Keys, d);
      }
    }

    method Create(d: nat, ghost e: Enc)
      requires Forms(e) && d in e.maps
      modifies `mapping, `Repr
      ensures Forms(e) && fresh(Repr - old(Repr)) && old(Repr) <= Repr
      ensures mapping.Keys == old(mapping.Keys) + {d}
    {
      if d !in mapping {
        label Before:
        var m := new Mapping();
        assert forall k :: k in mapping ==> mapping[k] != m && mapping[k].Value() == old@Before(mapping[k].Value());
        mapping := mapping[d := m];
        Repr := Repr + {m};
      }
    }

    // Encodes the link exactly if its predicted cost fits the budget.
    method TryEncode(d: nat, l: Link, total: nat, ghost e: Enc) returns (encoded: bool, total': nat, ghost e': Enc)
      requires Forms(e) && d in mapping && d + 1 in mapping && d in encodedAslinks
      requires InBudget(e, total, maxBytes) && l !in encodedAslinks[d]
      modifies `encodedAslinks, Repr
      ensures Forms(e') && InBudget(e', total', maxBytes)
      ensures encoded <==> total + Available(e.maps[d], l.from, true, 0) + Available(e.maps[d + 1], l.to, true, 0)
                           <= maxBytes - 2
      ensures encoded ==> e'.top == e.top && e'.links == e.links[d := e.links[d] + {l}]
      ensures forall w :: (e', total') == TakeTurn(e, total, Turn(d, Item(w, l)), maxBytes)
      ensures !encoded ==> e' == e && total' == total
    {
      hide *;
      FormsFacts(e);
      var cost := mapping[d].IsAvailable(l.from, true, 0);
      var cost2 := mapping[d + 1].IsAvailable(l.to, true, 0);
      cost := cost + cost2;
      encoded, total', e' := total + cost <= maxBytes - 2, total, e;
      if encoded {
        SpendStep(e, total, maxBytes, d, l);
        total', e' := SpendOn(d, l, total, e);
      }
      TurnOf(e, total, d, l, maxBytes);
    }

    method SpendOn(d: nat, l: Link, total: nat, ghost e: Enc) returns (total': nat, ghost e': Enc)
      requires Forms(e) && d in mapping && d + 1 in mapping && d in encodedAslinks
      requires Added(e.maps[d], l.from, true, true).1 >= 0 && Added(e.maps[d + 1], l.to, false, true).1 >= 0
      modifies `encodedAslinks, Repr
      ensures Forms(e')
      ensures total' == total + Added(e.maps[d], l.from, true, true).1 + Added(e.maps[d + 1], l.to, false, true).1
      ensures e' == Spend(e, d, l, total' >= maxBytes - 2)
      ensures e'.top == e.top && e'.links == e.links[d := e.links[d] + {l}]
    {
      hide Added, Forms;
      total' := total;
      var tmp1, tmp2;
      tmp1, tmp2, e' := AddBoth(d, l, e);
      if tmp1 >= 1 {
        total' := total' + tmp1;
      }
      if tmp2 >= 1 {
        total' := total' + tmp2;
      }
      if total' >= maxBytes - 2 {
        e' := Block(d, e');
      }
    }

    method AddBoth(d: nat, l: Link, ghost e: Enc) returns (tmp1: int, tmp2: int, ghost e': Enc)
      requires Forms(e) && d in mapping && d + 1 in mapping && d in encodedAslinks
      modifies `encodedAslinks, Repr
      ensures Forms(e') && e' == Encode(e, d, l, true)
      ensures tmp1 == Added(e.maps[d], l.from, true, true).1 && tmp2 == Added(e.maps[d + 1], l.to, false, true).1
    {
      hide Added, Forms;
      ghost var e1, e2;
      FormsFacts(e);
      tmp1, e1 := AddTo(d, l.from, true, e);
      tmp2, e2 := AddTo(d + 1, l.to, false, e1);
      e' := NoteLink(d, l, e2);
      assert e' == Encode(e, d, l, true);
    }

    // The link counts as encoded.
    method NoteLink(d: nat, l: Link, ghost e: Enc) returns (ghost e': Enc)
      requires Forms(e) && d in encodedAslinks
      modifies `encodedAslinks
      ensures d in e.links && Forms(e') && e' == e.(links := e.links[d := e.links[d] + {l}])
    {
      encodedAslinks := encodedAslinks[d := encodedAslinks[d] + {l}];
      e' := e.(links := e.links[d := e.links[d] + {l}]);
    }

    // One mapping takes in an AS.
    method AddTo(d: nat, asn: Asn, fromAs: bool, ghost e: Enc) returns (tmp: int, ghost e': Enc)
      requires Forms(e) && d in mapping
      modifies Repr
      ensures d in e.maps && Forms(e') && e' == e.(maps := e.maps[d := Added(e.maps[d], asn, fromAs, true).0])
      ensures tmp == Added(e.maps[d], asn, fromAs, true).1
    {
      hide Added;
      var added;
      tmp, added := mapping[d].Add(asn, fromAs, true);
      e' := e.(maps := e.maps[d := Added(e.maps[d], asn, fromAs, true).0]);
    }

    // The budget is spent: neither mapping may grow any more.
    method Block(d: nat, ghost e: Enc) returns (ghost e': Enc)
      requires Forms(e) && d in mapping && d + 1 in mapping
      modifies Repr
      ensures d in e.maps && d + 1 in e.maps
      ensures Forms(e')
      ensures e' == e.(maps := e.maps[d := Blocked(e.maps[d], true)][d + 1 := Blocked(e.maps[d + 1], true)])
    {
      hide Forms;
      FormsFacts(e);
      e' := BlockAt(d, e);
      FormsFacts(e');
      e' := BlockAt(d + 1, e');
    }

    method BlockAt(d: nat, ghost e: Enc) returns (ghost e': Enc)
      requires Forms(e) && d in mapping
      modifies Repr
      ensures d in e.maps && Forms(e') && e' == e.(maps := e.maps[d := Blocked(e.maps[d], true)])
    {
      mapping[d].blocked := true;
      e' := e.(maps := e.maps[d := Blocked(e.maps[d], true)]);
    }

    // All links examined: the bits still unspent go to the mappings with the fewest free codes.
    method FillUp(total: nat, ghost e: Enc) returns (ghost e': Enc, ghost depths: seq<nat>)
      requires Forms(e) && mapping.Keys == MappingDepths(top)
      requires InBudget(e, total, maxBytes) && LinksLive(e, g.edge)
      modifies Repr
      ensures Forms(e') && Sound(e') && LinksLive(e', g.edge) && e'.links == e.links
      ensures BitsBelow(e'.maps, top + 2) == if top >= 2 then Spendable(maxBytes) else 0
      ensures FewestFirst(e, depths) && e' == WidenAll(e, depths)
      ensures |depths| == if top < 2 || total >= maxBytes - 2 then 0 else maxBytes - 2 - total
    {
      hide LeastFree, FewestFirst, WidenAll, Forms, Sound, InBudget, Widen, BitsBelow, LinksLive, MappingDepths, Live;
      ghost var edges := g.edge;
      FormsFacts(e);
      FillStarts(e, total, maxBytes);
      SomeDepthIff(top);
      var spent := total;
      e', depths := e, [];
      NoBitYet(e);
      while spent < maxBytes - 2
        invariant Forms(e') && Sound(e') && e'.links == e.links
        invariant BitsBelow(e'.maps, top + 2) == spent <= Spendable(maxBytes)
        invariant top < 2 ==> BitsBelow(e'.maps, top + 2) == 0
        invariant FewestFirst(e, depths) && e' == WidenAll(e, depths)
        invariant |depths| == spent - total && (spent > total ==> spent <= maxBytes - 2)
      {
        var next := FewestFree();
        if next == None {
          break;
        }
        FewestIsLeast(e', next.value);
        OneMoreBit(e, depths, next.value);
        depths := depths + [next.value];
        e' := WidenAt(next.value, e');
        FormsFacts(e');
        spent := spent + 1;
      }
      assert g.edge == edges;
      SameLinksLive(e, e', edges);
    }

    lemma FewestIsLeast(e: Enc, d: nat)
      requires Forms(e) && mapping.Keys == MappingDepths(top) && d in mapping
      requires forall k :: k in mapping ==> |mapping[d].free| <= |mapping[k].free|
      ensures LeastFree(e, d)
    {
    }

    method FewestFree() returns (depth: Option<nat>)
      ensures depth == None <==> mapping.Keys == {}
      ensures depth.Some? ==>
                && depth.value in mapping
                && forall d :: d in mapping ==> |mapping[depth.value].free| <= |mapping[d].free|
    {
      depth := None;
      var todo := mapping.Keys;
      while todo != {}
        invariant todo <= mapping.Keys
        invariant depth == None ==> todo == mapping.Keys
        invariant depth.Some? ==>
                    && depth.value in mapping
                    && forall d :: d in mapping && d !in todo ==> |mapping[depth.value].free| <= |mapping[d].free|
        decreases todo
      {
        var d :| d in todo;
        if depth == None || |mapping[depth.value].free| > |mapping[d].free| {
          depth := Some(d);
        }
        todo := todo - {d};
      }
    }

    method WidenAt(d: nat, ghost e: Enc) returns (ghost e': Enc)
      requires Forms(e) && d in mapping && Sound(e)
      modifies Repr
      ensures Forms(e') && Sound(e') && e' == Widen(e, d) && e'.links == e.links
      ensures BitsBelow(e'.maps, top + 2) == BitsBelow(e.maps, top + 2) + 1
    {
      hide Sound, BitsBelow, Grow;
      WidenSound(e, d);
      mapping[d].AddByte();
      e' := Widen(e, d);
    }

    // One more bit at the second depth and one at the third.
    method AddLastBits(ghost e: Enc) returns (ghost e': Enc)
      requires Forms(e) && mapping.Keys == MappingDepths(top) && Sound(e) && LinksLive(e, g.edge)
      modifies Repr
      ensures Forms(e') && Sound(e') && LinksLive(e', g.edge) && e'.links == e.links
      ensures BitsBelow(e'.maps, top + 2) == BitsBelow(e.maps, top + 2) + (if top >= 2 then 2 else 0)
      ensures e' == LastBits(e)
    {
      hide Forms, Sound, BitsBelow, Widen, LinksLive;
      ghost var edges := g.edge;
      FormsFacts(e);
      assert 2 in mapping <==> 3 in mapping;
      e' := e;
      if 2 in mapping {
        e' := WidenAt(2, e');
      }
      if 3 in mapping {
        e' := WidenAt(3, e');
      }
      assert g.edge == edges;
      SameLinksLive(e, e', edges);
    }

    // `remove`: the exit on a counter below zero is not taken.
    method Remove(depth: nat, prevAs: Asn, nextAs: Asn) returns (overhead: int)
      requires Valid()
      modifies `encodedAslinks, Repr
      ensures Valid()
      ensures State() == Unlink(old(State()), depth, Link(prevAs, nextAs))
      ensures overhead ==
              if depth in old(encodedAslinks) && Link(prevAs, nextAs) in old(encodedAslinks)[depth]
                 && Live(g.edge, depth, Link(prevAs, nextAs))
              then Weight(g.edge, depth, Link(prevAs, nextAs)) else 0
    {
      overhead := 0;
      if depth in mapping && depth + 1 in mapping {
        var l := Link(prevAs, nextAs);
        assert depth in State().maps && depth + 1 in State().maps;
        if l in encodedAslinks[depth] {
          hide Sound;
          UnlinkSound(State(), depth, l);
          Unencode(depth, l);
          if Live(g.edge, depth, l) {
            overhead := g.edge[l].depth[depth];
          }
        }
      }
    }

    // Both references and the link itself.
    method Unencode(depth: nat, l: Link)
      requires Owned() && depth in mapping && depth + 1 in mapping && depth in encodedAslinks &&
               l in encodedAslinks[depth]
      requires Removed(State().maps[depth], l.from, true).1 != Underflow
      requires Removed(State().maps[depth + 1], l.to, false).1 != Underflow
      modifies `encodedAslinks, Repr
      ensures Owned() && State() == Unlink(old(State()), depth, l)
    {
      hide Removed;
      ghost var before := State();
      var p := mapping[depth].Remove(l.from, true);
      var n := mapping[depth + 1].Remove(l.to, false);
      assert p != Underflow && n != Underflow;
      encodedAslinks := encodedAslinks[depth := encodedAslinks[depth] - {l}];
      assert State().maps == Unlink(before, depth, l).maps;
    }

    // `withdraw`: exactly the encoded links that no longer carry a prefix go.
    method Withdraw(oldAsPath: Path)
      requires Valid() && LinksLiveExcept(State(), g.edge, oldAsPath)
      modifies `encodedAslinks, Repr
      ensures Valid() && LinksLive(State(), g.edge)
      ensures OnlyLiveKept(old(State()), State(), g.edge)
    {
      hide Sound, DeadRemoved, LinksLiveExcept, LinksLive, OnlyLiveKept;
      NoneDeadYet(State(), g.edge, oldAsPath);
      var i := 0;
      while i < |oldAsPath| - 1
        invariant 0 <= i <= LinkCount(oldAsPath)
        invariant Valid()
        invariant DeadRemoved(old(State()), State(), g.edge, oldAsPath, i)
      {
        var l := LinkAt(oldAsPath, i);
        ghost var before := State();
        if !Live(g.edge, i + 1, l) {
          var overhead := Remove(i + 1, oldAsPath[i], oldAsPath[i + 1]);
        }
        DeadRemovedStep(old(State()), before, State(), g.edge, oldAsPath, i);
        i := i + 1;
      }
      AllDeadRemoved(old(State()), State(), g.edge, oldAsPath);
    }

    // `add`. The two ghost results are the states after the two possible refreshes.
    method Add(depth: nat, prevAs: Asn, nextAs: Asn) returns (added: bool, ghost mid: Enc, ghost ready: Enc)
      requires Valid() && LinksLive(State(), g.edge) && Live(g.edge, depth, Link(prevAs, nextAs))
      modifies `encodedAslinks, `minimum, Repr
      ensures Valid() && LinksLive(State(), g.edge)
      ensures Widths(State()) == old(Widths(State()))
      ensures AddOutcome(old(State()), mid, ready, State(), g.edge, depth, Link(prevAs, nextAs), added, percentile)
      ensures var e, e' := old(State()), State();
              depth in e.maps && depth + 1 in e.maps && |e.maps[depth].free| > 0 && |e.maps[depth + 1].free| > 0 ==>
                && (forall k :: k in e.links ==> k in e'.links && e.links[k] <= e'.links[k])
                && forall k, a :: k in e.maps && a in e.maps[k].table ==>
                     k in e'.maps && a in e'.maps[k].table && e'.maps[k].table[a].code == e.maps[k].table[a].code
    {
      mid, ready := State(), State();
      added := false;
      if depth in mapping && depth + 1 in mapping && depth in minimum {
        if prevAs !in mapping[depth].mapping || nextAs !in mapping[depth + 1].mapping {
          added, mid, ready := AddMissing(depth, prevAs, nextAs);
        }
      }
      hide Sound, AddedAfterRoom;
      KeptWithRoom(old(State()), mid, ready, State(), g.edge, depth, Link(prevAs, nextAs), added, percentile);
    }

    // `add` of a link with a code missing.
    method AddMissing(depth: nat, prevAs: Asn, nextAs: Asn) returns (added: bool, ghost mid: Enc, ghost ready: Enc)
      requires Valid() && LinksLive(State(), g.edge) && Live(g.edge, depth, Link(prevAs, nextAs))
      requires depth in minimum && AddsCode(State(), depth, Link(prevAs, nextAs))
      modifies `encodedAslinks, `minimum, Repr
      ensures Valid() && LinksLive(State(), g.edge)
      ensures Widths(State()) == old(Widths(State()))
      ensures AddedAfterRoom(old(State()), mid, ready, State(), g.edge, depth, Link(prevAs, nextAs), added, percentile)
    {
      hide Sound, LinksLive, MaybeRefreshed;
      mid := MakeRoom(depth, depth);
      RefreshKeeps(old(State()), mid, g.edge, depth, percentile);
      ready := MakeRoom(depth + 1, depth);
      RoomAtBoth(old(State()), mid, ready, g.edge, depth, percentile);
      LinkStillMissing(old(State()), ready, depth, Link(prevAs, nextAs));
      added := AddIfHeavier(depth, prevAs, nextAs);
    }

    // `add` refreshes a mapping without a free code.
    method MakeRoom(t: nat, depth: nat) returns (ghost after: Enc)
      requires Valid() && LinksLive(State(), g.edge) && depth in minimum && t in {depth, depth + 1}
      modifies `encodedAslinks, `minimum, Repr
      ensures Valid() && LinksLive(State(), g.edge) && after == State()
      ensures MaybeRefreshed(old(State()), State(), g.edge, t, percentile)
    {
      assert depth in State().minimum && State().maps[t].width > 0;
      hide Sound, LinksLive;
      if |mapping[t].free| == 0 {
        Refresh(t);
      }
      after := State();
    }

    // The last part of `add`. With a free code at both depths, neither of the checks
    // before the two insertions can fail, and no bit is spent.
    method AddIfHeavier(depth: nat, prevAs: Asn, nextAs: Asn) returns (added: bool)
      requires Valid() && LinksLive(State(), g.edge) && Live(g.edge, depth, Link(prevAs, nextAs))
      requires depth in minimum && Room(State(), depth) && Link(prevAs, nextAs) !in encodedAslinks[depth]
      modifies `encodedAslinks, Repr
      ensures Valid() && LinksLive(State(), g.edge)
      ensures Widths(State()) == old(Widths(State()))
      ensures State() == AddedIfHeavier(old(State()), g.edge, depth, Link(prevAs, nextAs))
      ensures added == (minimum[depth] < Weight(g.edge, depth, Link(prevAs, nextAs)) as real &&
                        AddsCode(old(State()), depth, Link(prevAs, nextAs)))
    {
      hide Sound, SoundAt, LinksLive, Added, Available, Encode;
      ghost var e := State();
      var l := Link(prevAs, nextAs);
      RoomSound(e, g.edge, depth, l);
      var m := g.edge[l].depth[depth];
      if minimum[depth] < m as real {
        var canBeAdded := true;
        if prevAs !in mapping[depth].mapping {
          var need := mapping[depth].IsAvailable(prevAs, false, 0);
          if need > 0 {
            canBeAdded := false;
          }
        }
        if nextAs !in mapping[depth + 1].mapping {
          var need := mapping[depth + 1].IsAvailable(nextAs, false, 0);
          if need > 0 {
            canBeAdded := false;
          }
        }
        assert canBeAdded;
        if canBeAdded {
          added := InsertLink(depth, prevAs, nextAs);
          return;
        }
      }
      return false;
    }

    // The two insertions of `add`.
    method InsertLink(depth: nat, prevAs: Asn, nextAs: Asn) returns (added: bool)
      requires Owned() && Room(State(), depth)
      modifies `encodedAslinks, Repr
      ensures Owned() && State() == Encode(old(State()), depth, Link(prevAs, nextAs), false)
      ensures added == AddsCode(old(State()), depth, Link(prevAs, nextAs))
    {
      ghost var e := State();
      var l := Link(prevAs, nextAs);
      var p, addedP := mapping[depth].Add(prevAs, true, false);
      var n, addedN := mapping[depth + 1].Add(nextAs, false, false);
      encodedAslinks := encodedAslinks[depth := encodedAslinks[depth] + {l}];
      assert State().maps == Encode(e, depth, l, false).maps;
      return addedP || addedN;
    }

    // `advertisement`: dead links of the old path go, links of the new path are offered. The
    // ghost result is the state after the withdrawal and after each offer.
    method Advertisement(oldAsPath: Path, newAsPath: Path) returns (ghost chain: seq<Enc>)
      requires Valid() && LinksLiveExcept(State(), g.edge, oldAsPath)
      requires forall i :: 0 <= i < LinkCount(newAsPath) ==> Live(g.edge, i + 1, LinkAt(newAsPath, i))
      modifies `encodedAslinks, `minimum, Repr
      ensures Valid() && LinksLive(State(), g.edge)
      ensures Widths(State()) == old(Widths(State()))
      ensures OnlyPathAdded(old(State()), State(), newAsPath, LinkCount(newAsPath))
      ensures Advertised(old(State()), State(), g.edge, newAsPath, percentile)
      ensures |chain| == LinkCount(newAsPath) + 1 && OnlyLiveKept(old(State()), chain[0], g.edge)
      ensures chain[|chain| - 1] == State() && forall i {:trigger chain[i]} :: 0 <= i < |newAsPath| - 1 ==>
                OfferedToAdd(chain[i], chain[i + 1], g.edge, i + 1, Link(newAsPath[i], newAsPath[i + 1]), percentile)
      ensures (forall t :: t in old(State()).maps && t <= |newAsPath| ==> |old(State()).maps[t].free| >= 2) ==>
                && minimum == old(minimum)
                && forall k, l :: k in old(encodedAslinks) && l in old(encodedAslinks)[k]
                                  && l in g.edge && k in g.edge[l].depth ==>
                     k in encodedAslinks && l in encodedAslinks[k]
    {
      hide Sound, AddOutcome, OfferedToAdd;
      Withdraw(oldAsPath);
      chain := [State()];
      var i := 0;
      while i < |newAsPath| - 1
        invariant 0 <= i <= LinkCount(newAsPath)
        invariant Valid() && LinksLive(State(), g.edge)
        invariant Widths(State()) == old(Widths(State()))
        invariant OnlyPathAdded(old(State()), State(), newAsPath, i)
        invariant AdvertisedBy(old(State()), State(), chain, i, g.edge, newAsPath, percentile)
      {
        assert Live(g.edge, i + 1, LinkAt(newAsPath, i));
        hide Sound, LinksLive, OnlyPathAdded, AdvertisedBy, AddOutcome, Live;
        ghost var e := State();
        var added;
        ghost var mid, ready;
        added, mid, ready := Add(i + 1, newAsPath[i], newAsPath[i + 1]);
        OneMoreOffer(old(State()), e, State(), chain, i, g.edge, newAsPath, percentile, mid, ready, added);
        chain := chain + [State()];
        AddOnPath(old(State()), e, mid, ready, State(), g.edge, newAsPath, i, added, percentile);
        i := i + 1;
      }
      NothingLostWithRoom(old(State()), State(), g.edge, newAsPath, percentile);
      ChainOfOffers(old(State()), State(), chain, g.edge, newAsPath, percentile);
    }

    // `refresh`.
    method Refresh(t: nat)
      requires Valid() && LinksLive(State(), g.edge)
      requires t in mapping && mapping[t].nbBytes > 0
      modifies `encodedAslinks, `minimum, Repr
      ensures Valid() && LinksLive(State(), g.edge)
      ensures Refreshed(old(State()), State(), g.edge, t, percentile)
    {
      hide During, Sound, Refreshed, LinksLive;
      ghost var e0 := State();
      MappingsFromTwo(e0, t);
      var all := ComputeSortedList(g.edge, Some({t - 1, t}), maxDepth);
      RefreshStarts(e0, g.edge, t, all, maxDepth);
      EligibleDepths(all, g.edge, t, maxDepth);
      RefreshOver(t, all);
    }

    // `refresh` once its lists are there.
    method RefreshOver(t: nat, all: Lists)
      requires Valid() && forall d :: d in all ==> d <= maxDepth
      requires LinksLive(State(), g.edge) && During(State(), State(), g.edge, t, all, NoLinks(all), NoWeights(all))
      modifies `encodedAslinks, `minimum, Repr
      ensures Valid() && LinksLive(State(), g.edge)
      ensures Refreshed(old(State()), State(), g.edge, t, percentile)
    {
      hide During, Sound, Refreshed, LinksLive;
      ghost var e0 := State();
      var vecs;
      ghost var lists, kept;
      vecs, lists, kept := RefreshLinks(t, all);
      ghost var e1 := State();
      DuringFacts(e0, e1, g.edge, t, lists, kept, vecs);
      UpdateMinimum(vecs);
      RefreshEnds(e0, e1, State(), g.edge, t, lists, kept, vecs, percentile);
    }

    // The loop of `refresh`: removes links and collects the weights of those that stay.
    method RefreshLinks(t: nat, all: Lists) returns (vecs: map<nat, seq<int>>, ghost lists: Lists, ghost kept: Kept)
      requires Valid() && forall d :: d in all ==> d <= maxDepth
      requires During(State(), State(), g.edge, t, all, NoLinks(all), NoWeights(all))
      modifies `encodedAslinks, Repr
      ensures Owned() && During(old(State()), State(), g.edge, t, lists, kept, vecs)
      ensures forall d :: d in lists ==> lists[d] == []
    {
      hide During, Sound;
      ghost var e0 := State();
      var rest := all;
      vecs, kept := NoWeights(all), NoLinks(all);
      while true
        invariant Owned() && During(e0, State(), g.edge, t, rest, kept, vecs)
        invariant forall d :: d in rest ==> d <= maxDepth
        decreases ListsSize(rest, maxDepth + 1)
      {
        var next := PickLightest(rest);
        if next == None {
          break;
        }
        ListsShrinkBy(rest, next.value, rest[next.value][1..], maxDepth + 1);
        vecs, kept := RefreshOnce(t, rest, next.value, vecs, kept, e0);
        rest := rest[next.value := rest[next.value][1..]];
      }
      lists := rest;
    }

    // One iteration of the loop of `refresh`, on the first link of depth d.
    method RefreshOnce(t: nat, lists: Lists, d: nat, vecs: map<nat, seq<int>>, ghost kept: Kept, ghost e0: Enc)
      returns (vecs': map<nat, seq<int>>, ghost kept': Kept)
      requires Owned() && During(e0, State(), g.edge, t, lists, kept, vecs)
      requires d in lists && lists[d] != []
      requires forall k :: k in lists && lists[k] != [] ==> lists[d][0].weight <= lists[k][0].weight
      requires top == 1 || top <= maxDepth
      modifies `encodedAslinks, Repr
      ensures Owned()
      ensures During(e0, State(), g.edge, t, lists[d := lists[d][1..]], kept', vecs')
    {
      hide During, Sound;
      ghost var e := State();
      DuringFacts(e0, e, g.edge, t, lists, kept, vecs);
      var x := lists[d][0];
      vecs', kept' := vecs, kept;
      if |mapping[t].mapping.Keys| > Pow2(mapping[t].nbBytes - 1) {
        RemoveStep(e0, e, g.edge, t, lists, kept, vecs, d);
        var overhead := Remove(d, x.link.from, x.link.to);
      } else {
        KeepStep(e0, e, g.edge, t, lists, kept, vecs, d);
        if d in encodedAslinks && x.link in encodedAslinks[d] {
          vecs' := vecs[d := vecs[d] + [x.weight]];
          kept' := kept[d := kept[d] + [x.link]];
        }
      }
    }

    // The thresholds that have at least one weight are recomputed.
    method UpdateMinimum(vecs: map<nat, seq<int>>)
      modifies `minimum
      ensures minimum == NewMinimum(old(minimum), vecs, percentile)
    {
      var todo := vecs.Keys;
      while todo != {}
        invariant todo <= vecs.Keys
        invariant forall d :: d in minimum <==> d in old(minimum) || (d in vecs && d !in todo && vecs[d] != [])
        invariant forall d :: d in minimum ==>
                    minimum[d] ==
                    if d in vecs && d !in todo && vecs[d] != [] then percentile(vecs[d]) else old(minimum)[d]
        decreases todo
      {
        var d :| d in todo;
        if |vecs[d]| > 0 {
          minimum := minimum[d := percentile(vecs[d])];
        }
        todo := todo - {d};
      }
    }
  }

  function NewMinimum(minimum: map<nat, real>, vecs: map<nat, seq<int>>, percentile: seq<int> -> real): map<nat, real> {
    map d | d in minimum.Keys + vecs.Keys && (d in minimum || vecs[d] != []) ::
      if d in vecs && vecs[d] != [] then percentile(vecs[d]) else minimum[d]
  }

  // The items left in the lists of the depths below n.
  function ListsSize(lists: Lists, n: nat): nat {
    if n == 0 then 0 else ListsSize(lists, n - 1) + if n - 1 in lists then |lists[n - 1]| else 0
  }

  lemma {:induction false} ListsShrinkBy(lists: Lists, d: nat, s: seq<Item>, n: nat)
    requires d in lists
    ensures ListsSize(lists[d := s], n) == ListsSize(lists, n) + if d < n then |s| - |lists[d]| else 0
  {
    if n > 0 {
      ListsShrinkBy(lists, d, s, n - 1);
    }
  }

  lemma EligibleDepths(lists: Lists, edges: Edges, t: nat, maxDepth: nat)
    requires t >= 1 && Complete(lists, edges, Some({t - 1, t}), maxDepth)
    ensures forall d :: d in lists ==> d <= maxDepth
  {
  }

  function NoWeights(lists: Lists): map<nat, seq<int>> {
    map d | d in lists :: []
  }

  function NoLinks(lists: Lists): Kept {
    map d | d in lists :: []
  }

  lemma MappingsFromTwo(e: Enc, t: nat)
    requires Sound(e) && t in e.maps
    ensures t >= 2
  {
  }

  lemma RefreshStarts(e: Enc, edges: Edges, t: nat, lists: Lists, maxDepth: nat)
    requires Sound(e) && LinksLive(e, edges) && t in e.maps && e.maps[t].width > 0
    requires e.top == 1 || e.top <= maxDepth
    requires t >= 1 && Complete(lists, edges, Some({t - 1, t}), maxDepth)
    ensures During(e, e, edges, t, lists, NoLinks(lists), NoWeights(lists))
  {
    hide Sound, Thinned, LightestFirst, NoneMissed, ListsOk, KeptOk, Complete;
    NothingRemoved(e, edges, t);
    AllPending(e, edges, t, lists, maxDepth);
    CompleteIsOk(lists, edges, t, maxDepth);
    NoneKeptYet(e, edges, lists);
  }

  lemma CompleteIsOk(lists: Lists, edges: Edges, t: nat, maxDepth: nat)
    requires t >= 1 && Complete(lists, edges, Some({t - 1, t}), maxDepth)
    ensures ListsOk(lists, edges, t)
  {
    hide Ascending;
  }

  lemma NoneKeptYet(e: Enc, edges: Edges, lists: Lists)
    ensures forall d :: d in lists ==> KeptOk(e, edges, lists, NoLinks(lists), NoWeights(lists), d)
  {
  }

  lemma NothingRemoved(e: Enc, edges: Edges, t: nat)
    ensures Thinned(e, e, t) && LightestFirst(e, e, edges, t)
  {
  }

  lemma AllPending(e: Enc, edges: Edges, t: nat, lists: Lists, maxDepth: nat)
    requires Sound(e) && LinksLive(e, edges) && (e.top == 1 || e.top <= maxDepth)
    requires t >= 1 && Complete(lists, edges, Some({t - 1, t}), maxDepth)
    ensures NoneMissed(e, edges, lists, NoLinks(lists), t)
  {
    hide SoundAt, Ascending;
    forall d, l | d in e.links && Touches(d, t) && l in e.links[d]
      ensures d in lists && Pending(lists, edges, d, l)
    {
      assert Live(edges, d, l) && Eligible(Some({t - 1, t}), maxDepth, d);
    }
  }

  lemma DuringFacts(e0: Enc, e: Enc, edges: Edges, t: nat, lists: Lists, kept: Kept, vecs: map<nat, seq<int>>)
    requires During(e0, e, edges, t, lists, kept, vecs)
    ensures Sound(e) && e.top == e0.top && lists.Keys == kept.Keys == vecs.Keys
    ensures t in e0.maps && t in e.maps && e.maps[t].width == e0.maps[t].width > 0
  {
    hide Sound;
    WidthOf(e0, e, t);
  }

  lemma RefreshEnds(e0: Enc, e1: Enc, e2: Enc, edges: Edges, t: nat, lists: Lists, kept: Kept, vecs: map<nat, seq<int>>,
                    percentile: seq<int> -> real)
    requires During(e0, e1, edges, t, lists, kept, vecs) && LinksLive(e0, edges)
    requires forall d :: d in lists ==> lists[d] == []
    requires e2 == e1.(minimum := NewMinimum(e0.minimum, vecs, percentile))
    ensures Sound(e2) && LinksLive(e2, edges)
    ensures Refreshed(e0, e2, edges, t, percentile)
  {
    ExhaustedMeansHalf(e0, e1, edges, t, lists, kept, vecs);
    NewMinimumSound(e1, e2, t, lists, kept, vecs, edges);
    RefreshThresholds(e0, e1, e2, edges, t, lists, kept, vecs, percentile);
    hide Sound, KeptOk, NoneMissed, ListsOk, Thresholds, LightestFirst;
    assert Thinned(e0, e2.(minimum := e0.minimum), t) by {
      assert Widths(e2.(minimum := e0.minimum)) == Widths(e1);
    }
    SameLightest(e0, e1, e2, edges, t);
  }

  lemma SameLightest(e0: Enc, e1: Enc, e2: Enc, edges: Edges, t: nat)
    requires LightestFirst(e0, e1, edges, t) && e2.links == e1.links
    ensures LightestFirst(e0, e2, edges, t)
  {
    hide Less;
  }

  lemma RefreshThresholds(e0: Enc, e1: Enc, e2: Enc, edges: Edges, t: nat, lists: Lists, kept: Kept,
                          vecs: map<nat, seq<int>>, percentile: seq<int> -> real)
    requires During(e0, e1, edges, t, lists, kept, vecs)
    requires forall d :: d in lists ==> lists[d] == []
    requires e2 == e1.(minimum := NewMinimum(e0.minimum, vecs, percentile))
    ensures Thresholds(e2, e0.minimum, edges, t, percentile)
  {
    hide Sound, LightestFirst, NoneMissed, WeightsOf;
    forall d | d in e1.links && Touches(d, t) && e1.links[d] != {}
      ensures d in vecs && vecs[d] != [] && WeightsOf(vecs[d], e1.links[d], kept[d], edges, d)
    {
      Finished(e0, e1, edges, t, lists, kept, vecs, d);
      WeightsNonempty(vecs[d], e1.links[d], kept[d], edges, d);
    }
    forall d | d in vecs && (d !in e1.links || !Touches(d, t) || e1.links[d] == {})
      ensures vecs[d] == []
    {
      assert d in lists && Touches(d, t);
      if vecs[d] != [] {
        SomethingKept(e1, edges, lists, kept, vecs, d);
      }
    }
    ThresholdsFrom(e1, e2, e0.minimum, edges, t, kept, vecs, percentile);
  }

  lemma ThresholdsFrom(e1: Enc, e2: Enc, before: map<nat, real>, edges: Edges, t: nat, kept: Kept,
                       vecs: map<nat, seq<int>>, percentile: seq<int> -> real)
    requires kept.Keys == vecs.Keys
    requires forall d :: d in e1.links && Touches(d, t) && e1.links[d] != {} ==>
               d in vecs && vecs[d] != [] && WeightsOf(vecs[d], e1.links[d], kept[d], edges, d)
    requires forall d :: d in vecs && (d !in e1.links || !Touches(d, t) || e1.links[d] == {}) ==> vecs[d] == []
    requires e2 == e1.(minimum := NewMinimum(before, vecs, percentile))
    ensures Thresholds(e2, before, edges, t, percentile)
  {
    hide WeightsOf;
  }

  lemma SomethingKept(e: Enc, edges: Edges, lists: Lists, kept: Kept, vecs: map<nat, seq<int>>, d: nat)
    requires d in lists && d in kept && d in vecs && KeptOk(e, edges, lists, kept, vecs, d)
    requires vecs[d] != []
    ensures d in e.links && e.links[d] != {}
  {
    var l := kept[d][0];
    assert d in e.links && l in e.links[d];
  }

  lemma WeightsNonempty(v: seq<int>, s: set<Link>, order: seq<Link>, edges: Edges, d: nat)
    requires WeightsOf(v, s, order, edges, d)
    ensures v != [] <==> s != {}
  {
    if s != {} {
      var l :| l in s;
      assert l in order;
    }
    if v != [] {
      var l := order[0];
      assert l in order && l in s;
    }
  }

  // A depth gets a threshold only while links are encoded there.
  lemma NewMinimumSound(e1: Enc, e2: Enc, t: nat, lists: Lists, kept: Kept, vecs: map<nat, seq<int>>, edges: Edges)
    requires Sound(e1) && e2 == e1.(minimum := e2.minimum) && lists.Keys == kept.Keys == vecs.Keys
    requires forall d :: d in lists ==> KeptOk(e1, edges, lists, kept, vecs, d)
    requires forall d :: d in e2.minimum ==> d in e1.minimum || (d in vecs && vecs[d] != [])
    ensures Sound(e2)
  {
    hide SoundAt;
    forall d | d in e2.minimum
      ensures d in e2.links && e2.maps[d].width > 0 && e2.maps[d + 1].width > 0
    {
      if d !in e1.minimum {
        assert KeptOk(e1, edges, lists, kept, vecs, d);
        EncodedHasBits(e1, d, kept[d][0]);
      }
    }
    forall d | d in e2.maps
      ensures SoundAt(e2.maps[d], e2.links, d)
    {
      assert SoundAt(e1.maps[d], e1.links, d);
    }
  }

  lemma EncodedHasBits(e: Enc, d: nat, l: Link)
    requires Sound(e) && d in e.links && l in e.links[d]
    ensures e.maps[d].width > 0 && e.maps[d + 1].width > 0
  {
    EncodedIsCounted(e, d, l);
    assert SoundAt(e.maps[d], e.links, d) && SoundAt(e.maps[d + 1], e.links, d + 1);
  }

  // ---- `compute_encoding` ----

  lemma IsComputed(start: Enc, e: Enc, turns: seq<Turn>, depths: seq<nat>, edges: Edges, maxDepth: nat, maxBytes: int)
    requires Examines(turns, edges, maxDepth) && Allocates(start, e, turns, depths, maxBytes)
    ensures Computed(start, e, edges, maxDepth, maxBytes)
  {
  }

  lemma FilledUp(start: Enc, taken: Enc, total: nat, filled: Enc, turns: seq<Turn>, depths: seq<nat>, top: nat,
                 maxBytes: int)
    requires (taken, total) == TakeTurns(start, turns, maxBytes) && (start.maps.Keys == {} <==> top < 2)
    requires FewestFirst(taken, depths) && filled == WidenAll(taken, depths)
    requires |depths| == if top < 2 || total >= maxBytes - 2 then 0 else maxBytes - 2 - total
    ensures Fills(start, filled, turns, depths, maxBytes)
  {
    hide TakeTurns, FewestFirst, WidenAll;
  }

  lemma AllocatedFrom(start: Enc, filled: Enc, e: Enc, turns: seq<Turn>, depths: seq<nat>, maxBytes: int)
    requires Fills(start, filled, turns, depths, maxBytes) && e.(minimum := map[]) == LastBits(filled)
    ensures Allocates(start, e, turns, depths, maxBytes)
  {
    hide Fills, LastBits;
  }

  lemma IsFilled(start: Enc, filled: Enc, turns: seq<Turn>, depths: seq<nat>, edges: Edges, maxDepth: nat,
                 maxBytes: int)
    requires Examines(turns, edges, maxDepth) && Fills(start, filled, turns, depths, maxBytes)
    ensures Filled(start, filled, edges, maxDepth, maxBytes)
  {
  }

  lemma NoBitYet(e: Enc)
    ensures FewestFirst(e, []) && WidenAll(e, []) == e
  {
  }

  lemma CompleteIsAscending(all: Lists, edges: Edges, maxDepth: nat)
    requires Complete(all, edges, None, maxDepth)
    ensures TurnsSoFar([], all, all)
  {
  }

  lemma LastIs(lists: Lists)
    ensures forall d :: d in lists && lists[d] != [] ==> Last(lists[d]) == lists[d][|lists[d]| - 1]
  {
  }

  lemma FirstTurn(e: Enc, maxBytes: int)
    ensures TakeTurns(e, [], maxBytes) == (e, 0)
  {
  }

  lemma OneMoreTurn(e: Enc, turns: seq<Turn>, t: Turn, maxBytes: int)
    ensures var before := TakeTurns(e, turns, maxBytes);
            TakeTurns(e, turns + [t], maxBytes) == TakeTurn(before.0, before.1, t, maxBytes)
  {
  }

  lemma TurnOf(e: Enc, total: nat, d: nat, l: Link, maxBytes: int)
    requires d in e.maps && d + 1 in e.maps && d in e.links
    ensures var a, b := Added(e.maps[d], l.from, true, true).1, Added(e.maps[d + 1], l.to, false, true).1;
            forall w :: TakeTurn(e, total, Turn(d, Item(w, l)), maxBytes) ==
                        if total + Available(e.maps[d], l.from, true, 0) +
                            Available(e.maps[d + 1], l.to, true, 0) <= maxBytes - 2
                        then (Spend(e, d, l, total + a + b >= maxBytes - 2), total + a + b) else (e, total)
  {
    hide Added, Available, Spend;
  }

  // The recorded weights are those of exactly the encoded links.
  ghost predicate Weighed(e: Enc, edges: Edges, vecs: map<nat, seq<int>>, kept: Kept) {
    && vecs.Keys == e.links.Keys && kept.Keys == e.links.Keys
    && forall d :: d in e.links ==> WeightsOf(vecs[d], e.links[d], kept[d], edges, d)
  }

  // A depth has a threshold exactly if a link is encoded there, taken from the weights.
  ghost predicate Calibrated(e: Enc, edges: Edges, percentile: seq<int> -> real) {
    forall d :: d in e.links ==>
      && (d in e.minimum <==> e.links[d] != {})
      && (d in e.minimum ==>
          exists v, order :: WeightsOf(v, e.links[d], order, edges, d) && e.minimum[d] == percentile(v))
  }

  // In plain terms: the threshold is the percentile of the numbers of prefixes, at this depth,
  // of the encoded links, each taken once.
  lemma CalibratedPlain(e: Enc, edges: Edges, percentile: seq<int> -> real, d: nat)
    requires Calibrated(e, edges, percentile) && d in e.links && e.links[d] != {}
    ensures d in e.minimum && exists v: seq<int>, order: seq<Link> ::
              && |order| == |v| && (forall i, j :: 0 <= i < j < |order| ==> order[i] != order[j])
              && (forall l :: l in order <==> l in e.links[d])
              && (forall i :: 0 <= i < |v| ==>
                    order[i] in edges && d in edges[order[i]].depth && v[i] == edges[order[i]].depth[d])
              && e.minimum[d] == percentile(v)
  {
  }

  // In plain terms: a refresh of t leaves half of the codes in use, or all if they were not
  // more, and the links it removes leave or enter t.
  lemma RefreshUsesHalf(e: Enc, e': Enc, edges: Edges, t: nat, percentile: seq<int> -> real)
    requires Refreshed(e, e', edges, t, percentile)
    ensures t in e.maps && t in e'.maps && e.maps[t].width > 0
    ensures var half, used := Pow2(e.maps[t].width - 1), |e.maps[t].table.Keys|;
            |e'.maps[t].table.Keys| == if used > half then half else used
    ensures forall d :: d in e.links ==>
              d in e'.links && e'.links[d] <= e.links[d] && (d != t && d + 1 != t ==> e'.links[d] == e.links[d])
  {
    hide Sound, CodesKept, Widths, LightestFirst, Thresholds;
  }

  // They carry no more prefixes than those it keeps.
  lemma RefreshDropsLightest(e: Enc, e': Enc, edges: Edges, t: nat, percentile: seq<int> -> real, d: nat, l: Link,
                             k: nat, m: Link)
    requires Refreshed(e, e', edges, t, percentile)
    requires d in e.links && l in e.links[d] && !(d in e'.links && l in e'.links[d])
    requires l in edges && d in edges[l].depth && m in edges && k in edges[m].depth
    requires (k == t || k + 1 == t) && k in e'.links && m in e'.links[k]
    ensures edges[l].depth[d] <= edges[m].depth[k]
    ensures k == d && edges[l].depth[d] == edges[m].depth[k] ==>
              l.from < m.from || (l.from == m.from && l.to < m.to)
  {
    hide Sound, CodesKept, Widths, Thresholds;
    assert Live(edges, d, l) && Live(edges, k, m) && Touches(k, t);
  }

  // The thresholds of t and the depth before are taken from the links kept there.
  lemma RefreshTakesThresholds(e: Enc, e': Enc, edges: Edges, t: nat, percentile: seq<int> -> real, d: nat)
    requires Refreshed(e, e', edges, t, percentile)
    ensures d in e'.links && (d == t || d + 1 == t) && e'.links[d] != {} ==>
              d in e'.minimum && exists v: seq<int>, order: seq<Link> ::
                && |order| == |v| && (forall i, j :: 0 <= i < j < |order| ==> order[i] != order[j])
                && (forall l :: l in order <==> l in e'.links[d])
                && (forall i :: 0 <= i < |v| ==>
                      order[i] in edges && d in edges[order[i]].depth && v[i] == edges[order[i]].depth[d])
                && e'.minimum[d] == percentile(v)
    ensures d in e.minimum && (d !in e'.links || (d != t && d + 1 != t) || e'.links[d] == {}) ==>
              d in e'.minimum && e'.minimum[d] == e.minimum[d]
  {
    hide Sound, Thinned, LightestFirst;
  }

  lemma DepthsInUse(all: Lists, edges: Edges, maxDepth: nat)
    requires Complete(all, edges, None, maxDepth)
    ensures forall d :: d in all <==> 2 <= d <= maxDepth && InUse(edges, d)
  {
    forall d: nat
      ensures d in all <==> 2 <= d <= maxDepth && InUse(edges, d)
    {
      if d in all {
        var x := all[d][0];
        assert x in all[d];
        assert Live(edges, d, x.link);
      } else if 2 <= d <= maxDepth && InUse(edges, d) {
        var l :| Live(edges, d, l);
        assert Eligible(None, maxDepth, d);
      }
    }
  }

  // Nothing encoded, no mapping created.
  ghost function Empty(top: nat, depths: set<nat>): Enc {
    Enc(top, map d | d in MappingDepths(top) :: EMPTY, map d | d in depths :: {}, map[])
  }

  lemma FormingStarts(top: nat, edges: Edges, all: Lists, maxDepth: nat, maxBytes: int)
    requires Complete(all, edges, None, maxDepth) && top >= 1
    requires forall d :: d in all <==> 2 <= d <= top
    ensures InBudget(Empty(top, all.Keys), 0, maxBytes) && LinksLive(Empty(top, all.Keys), edges)
    ensures Greedy(Empty(top, all.Keys), edges, all, all, NoWeights(all), NoLinks(all), {})
    ensures forall d :: d in all ==> all[d] != []
  {
    hide InBudget;
    var e := Empty(top, all.Keys);
    StartInBudget(e.top, e.links, e.maps, maxBytes);
    GreedyStarts(e, edges, all, maxDepth);
  }

  lemma GreedyFacts(e: Enc, edges: Edges, all: Lists, lists: Lists, vecs: map<nat, seq<int>>, kept: Kept,
                    created: set<nat>, total: nat, maxBytes: int, d: nat)
    requires Greedy(e, edges, all, lists, vecs, kept, created) && InBudget(e, total, maxBytes)
    requires d in lists && lists[d] != []
    ensures d in e.links && d in vecs && d in kept && vecs.Keys == lists.Keys == kept.Keys
    ensures d in MappingDepths(e.top) && d + 1 in MappingDepths(e.top)
    ensures Live(edges, d, Last(lists[d]).link) && Last(lists[d]).link !in e.links[d]
  {
  }

  lemma GreedyCreated(e: Enc, edges: Edges, all: Lists, lists: Lists, vecs: map<nat, seq<int>>, kept: Kept,
                      created: set<nat>, created': set<nat>)
    requires Greedy(e, edges, all, lists, vecs, kept, created)
    requires created <= created' <= MappingDepths(e.top)
    ensures Greedy(e, edges, all, lists, vecs, kept, created')
  {
  }

  lemma TakenLive(e: Enc, e': Enc, edges: Edges, d: nat, l: Link)
    requires LinksLive(e, edges) && Live(edges, d, l)
    requires d in e.links && e'.links == e.links[d := e.links[d] + {l}]
    ensures LinksLive(e', edges)
  {
  }

  lemma AllExamined(e: Enc, edges: Edges, all: Lists, lists: Lists, vecs: map<nat, seq<int>>, kept: Kept,
                    created: set<nat>, total: nat, maxBytes: int)
    requires Greedy(e, edges, all, lists, vecs, kept, created) && InBudget(e, total, maxBytes)
    requires forall d :: d in lists ==> lists[d] == [] && all[d] != []
    ensures created == MappingDepths(e.top) && Weighed(e, edges, vecs, kept) && e.links.Keys == all.Keys
  {
    hide WeightsOf, SoundAt, BitsBelow, AllRoomy;
    assert Examined(lists, all, created);
    forall d | d in MappingDepths(e.top)
      ensures d in created
    {
      if d <= e.top {
        assert d in e.links && lists[d] == [];
      } else {
        assert d - 1 in e.links && lists[d - 1] == [];
      }
    }
    forall d | d in e.links
      ensures WeightsOf(vecs[d], e.links[d], kept[d], edges, d)
    {
      assert GreedyAt(e, edges, lists[d], vecs[d], kept[d], d);
    }
  }

  lemma SameLinksLive(e: Enc, e': Enc, edges: Edges)
    requires e'.links == e.links && LinksLive(e, edges)
    ensures LinksLive(e', edges)
  {
  }

  lemma SameLinks(e: Enc, e': Enc, edges: Edges, vecs: map<nat, seq<int>>, kept: Kept)
    requires e'.links == e.links && Weighed(e, edges, vecs, kept)
    ensures Weighed(e', edges, vecs, kept)
  {
    hide WeightsOf;
  }

  lemma SomeDepthIff(top: nat)
    ensures MappingDepths(top) == {} <==> top < 2
  {
    if top >= 2 {
      assert 2 in MappingDepths(top);
    }
  }

  lemma FillStarts(e: Enc, total: nat, maxBytes: int)
    requires InBudget(e, total, maxBytes)
    ensures Sound(e) && BitsBelow(e.maps, e.top + 2) == total <= Spendable(maxBytes)
    ensures e.top < 2 ==> total == 0
  {
    hide SoundAt, AllRoomy;
    if e.top < 2 {
      NoBits(e.maps, e.top + 2);
    }
  }

  lemma TopBits(e: Enc, maxDepth: nat)
    requires Sound(e) && (e.top == 1 || e.top <= maxDepth)
    ensures BitsBelow(e.maps, maxDepth + 2) == BitsBelow(e.maps, e.top + 2)
  {
    hide SoundAt;
    if e.top == 1 {
      NoBits(e.maps, e.top + 2);
      NoBits(e.maps, maxDepth + 2);
    } else {
      BitsBeyond(e.maps, e.top + 2, maxDepth + 2);
    }
  }

  lemma Calibration(e: Enc, e': Enc, edges: Edges, vecs: map<nat, seq<int>>, kept: Kept, percentile: seq<int> -> real)
    requires Sound(e) && e.minimum == map[] && e' == e.(minimum := NewMinimum(map[], vecs, percentile))
    requires Weighed(e, edges, vecs, kept) && LinksLive(e, edges)
    ensures Sound(e') && Calibrated(e', edges, percentile)
    ensures LinksLive(e', edges) && e'.maps == e.maps && e'.top == e.top
  {
    hide Sound;
    forall d | d in e.links
      ensures vecs[d] != [] <==> e.links[d] != {}
    {
      WeightsNonempty(vecs[d], e.links[d], kept[d], edges, d);
    }
    hide WeightsOf;
    CalibratedIsSound(e, e');
  }

  lemma CalibratedIsSound(e: Enc, e': Enc)
    requires Sound(e) && e' == e.(minimum := e'.minimum)
    requires forall d :: d in e'.minimum ==> d in e.links && e.links[d] != {}
    ensures Sound(e')
  {
    hide SoundAt;
    forall d | d in e'.minimum
      ensures d in e'.links && e'.maps[d].width > 0 && e'.maps[d + 1].width > 0
    {
      var l :| l in e.links[d];
      EncodedHasBits(e, d, l);
    }
    forall d | d in e'.maps
      ensures SoundAt(e'.maps[d], e'.links, d)
    {
      assert SoundAt(e.maps[d], e.links, d);
    }
  }

  // ---- `add` ----

  ghost predicate MaybeRefreshed(e: Enc, e': Enc, edges: Edges, t: nat, percentile: seq<int> -> real) {
    t in e.maps && if e.maps[t].free == {} then Refreshed(e, e', edges, t, percentile) else e' == e
  }

  // Both mappings of a depth have a free code.
  ghost predicate Room(e: Enc, d: nat) {
    && d in e.maps && d + 1 in e.maps && d in e.links
    && e.maps[d].free != {} && e.maps[d + 1].free != {}
  }

  ghost predicate AddsCode(e: Enc, d: nat, l: Link)
    requires d in e.maps && d + 1 in e.maps
  {
    l.from !in e.maps[d].table || l.to !in e.maps[d + 1].table
  }

  ghost function AddedIfHeavier(e: Enc, edges: Edges, d: nat, l: Link): Enc
    requires Room(e, d) && d in e.minimum && Live(edges, d, l)
  {
    if e.minimum[d] < Weight(edges, d, l) as real then Encode(e, d, l, false) else e
  }

  ghost predicate AddedAfterRoom(e: Enc, mid: Enc, ready: Enc, e': Enc, edges: Edges, d: nat, l: Link, added: bool,
                                 percentile: seq<int> -> real)
    requires Live(edges, d, l)
  {
    && MaybeRefreshed(e, mid, edges, d, percentile)
    && MaybeRefreshed(mid, ready, edges, d + 1, percentile)
    && Room(ready, d) && d in ready.minimum && l !in ready.links[d]
    && e' == AddedIfHeavier(ready, edges, d, l)
    && added == (ready.minimum[d] < Weight(edges, d, l) as real && AddsCode(ready, d, l))
  }

  // The contract of `add`.
  ghost predicate AddOutcome(e: Enc, mid: Enc, ready: Enc, e': Enc, edges: Edges, d: nat, l: Link, added: bool,
                             percentile: seq<int> -> real)
    requires Live(edges, d, l)
  {
    if !(d in e.maps && d + 1 in e.maps && d in e.minimum) || !AddsCode(e, d, l) then
      e' == e && !added
    else
      AddedAfterRoom(e, mid, ready, e', edges, d, l, added, percentile)
  }

  // With a free code at both depths nothing is refreshed: the link is encoded exactly if one
  // of its codes is missing and it carries more prefixes than the threshold; otherwise nothing
  // changes.
  lemma RoomMeansNoRefresh(e: Enc, mid: Enc, ready: Enc, e': Enc, edges: Edges, d: nat, l: Link, added: bool,
                           percentile: seq<int> -> real)
    requires Live(edges, d, l) && Sound(e) && AddOutcome(e, mid, ready, e', edges, d, l, added, percentile)
    requires d in e.maps && d + 1 in e.maps && |e.maps[d].free| > 0 && |e.maps[d + 1].free| > 0
    ensures if d in e.minimum && (l.from !in e.maps[d].table || l.to !in e.maps[d + 1].table)
               && e.minimum[d] < edges[l].depth[d] as real then
              && added && d in e.links && e'.links == e.links[d := e.links[d] + {l}] && e'.minimum == e.minimum
              && d in e'.maps && l.from in e'.maps[d].table && d + 1 in e'.maps && l.to in e'.maps[d + 1].table
            else e' == e && !added
    ensures e'.maps.Keys == e.maps.Keys && forall k :: k in e.links ==> k in e'.links && e.links[k] <= e'.links[k]
    ensures forall k, a :: k in e.maps && a in e.maps[k].table ==>
              && k in e'.maps && a in e'.maps[k].table && e'.maps[k].table[a].code == e.maps[k].table[a].code
    ensures forall k :: k in e.maps ==>
              && k in e'.maps && |e'.maps[k].free| + 1 >= |e.maps[k].free|
              && (k != d && k != d + 1 ==> e'.maps[k] == e.maps[k])
  {
    hide Sound, Refreshed;
    if e' != e {
      EncodedOverFree(e, d, l);
    }
  }

  lemma KeptWithRoom(e: Enc, mid: Enc, ready: Enc, e': Enc, edges: Edges, d: nat, l: Link, added: bool,
                     percentile: seq<int> -> real)
    requires Live(edges, d, l) && Sound(e) && AddOutcome(e, mid, ready, e', edges, d, l, added, percentile)
    ensures d in e.maps && d + 1 in e.maps && |e.maps[d].free| > 0 && |e.maps[d + 1].free| > 0 ==>
              && (forall k :: k in e.links ==> k in e'.links && e.links[k] <= e'.links[k])
              && forall k, a :: k in e.maps && a in e.maps[k].table ==>
                   k in e'.maps && a in e'.maps[k].table && e'.maps[k].table[a].code == e.maps[k].table[a].code
  {
    hide Sound, AddOutcome;
    if d in e.maps && d + 1 in e.maps && |e.maps[d].free| > 0 && |e.maps[d + 1].free| > 0 {
      RoomMeansNoRefresh(e, mid, ready, e', edges, d, l, added, percentile);
    }
  }

  lemma EncodedOverFree(e: Enc, d: nat, l: Link)
    requires Room(e, d)
    ensures var e' := Encode(e, d, l, false);
            && e'.maps.Keys == e.maps.Keys && d in e'.maps && l.from in e'.maps[d].table
            && d + 1 in e'.maps && l.to in e'.maps[d + 1].table
            && (forall k, a :: k in e.maps && a in e.maps[k].table ==>
                  && k in e'.maps && a in e'.maps[k].table && e'.maps[k].table[a].code == e.maps[k].table[a].code)
            && forall k :: k in e.maps ==>
                 && k in e'.maps && |e'.maps[k].free| + 1 >= |e.maps[k].free|
                 && (k != d && k != d + 1 ==> e'.maps[k] == e.maps[k])
  {
    hide Added;
    OverFree(e.maps[d], l.from, true);
    OverFree(e.maps[d + 1], l.to, false);
  }

  lemma OverFree(m: Codes, asn: Asn, fromAs: bool)
    requires m.free != {}
    ensures var m' := Added(m, asn, fromAs, false).0;
            && asn in m'.table && |m'.free| + 1 >= |m.free|
            && forall a :: a in m.table ==> a in m'.table && m'.table[a].code == m.table[a].code
  {
  }

  // A mapping is refreshed by `add` exactly if a code of the link is missing, the depth has a
  // threshold and the mapping, when its turn comes, has no free code; half of its space is then
  // in use. The link is encoded exactly if it exceeds the threshold found after that.
  lemma OnlyFullIsRefreshed(e: Enc, mid: Enc, ready: Enc, e': Enc, edges: Edges, d: nat, l: Link, added: bool,
                            percentile: seq<int> -> real)
    requires Live(edges, d, l) && Sound(e) && AddOutcome(e, mid, ready, e', edges, d, l, added, percentile)
    ensures if d in e.maps && d + 1 in e.maps && d in e.minimum
               && (l.from !in e.maps[d].table || l.to !in e.maps[d + 1].table) then
              && d in mid.maps && d + 1 in mid.maps && d + 1 in ready.maps && d in ready.minimum
              && (|e.maps[d].free| > 0 ==> mid == e)
              && (|e.maps[d].free| == 0 ==> |mid.maps[d].table.Keys| == Pow2(e.maps[d].width - 1))
              && (|mid.maps[d + 1].free| > 0 ==> ready == mid)
              && (|mid.maps[d + 1].free| == 0 ==>
                    |ready.maps[d + 1].table.Keys| == Pow2(mid.maps[d + 1].width - 1))
              && d in ready.links
              && (added <==> ready.minimum[d] < edges[l].depth[d] as real &&
                             (l.from !in ready.maps[d].table || l.to !in ready.maps[d + 1].table))
              && (if ready.minimum[d] < edges[l].depth[d] as real then
                    e'.links == ready.links[d := ready.links[d] + {l}]
                  else e' == ready)
            else e' == e && !added
  {
    hide SoundAt, LightestFirst, Thresholds, Thinned, Added;
    if AddsAnything(e, d, l) {
      if |e.maps[d].free| == 0 {
        FullIsHalved(e, mid, edges, d, percentile);
      }
      if |mid.maps[d + 1].free| == 0 {
        FullIsHalved(mid, ready, edges, d + 1, percentile);
      }
    }
  }

  ghost predicate AddsAnything(e: Enc, d: nat, l: Link) {
    && d in e.maps && d + 1 in e.maps && d in e.minimum
    && (l.from !in e.maps[d].table || l.to !in e.maps[d + 1].table)
  }

  lemma FullIsHalved(e: Enc, e': Enc, edges: Edges, t: nat, percentile: seq<int> -> real)
    requires Sound(e) && Refreshed(e, e', edges, t, percentile) && |e.maps[t].free| == 0
    ensures |e'.maps[t].table.Keys| == Pow2(e.maps[t].width - 1)
  {
    hide LightestFirst, Thresholds, Thinned;
    assert SoundAt(e.maps[t], e.links, t);
  }

  // Refreshing a full mapping leaves exactly half of its codes free.
  lemma RefreshFreesHalf(e: Enc, e': Enc, edges: Edges, t: nat, percentile: seq<int> -> real)
    requires Sound(e) && Sound(e') && Refreshed(e, e', edges, t, percentile)
    ensures |e'.maps[t].free| >= Half(e.maps[t]) >= 1
    ensures |e.maps[t].free| < Half(e.maps[t]) ==> |e'.maps[t].free| == Half(e.maps[t])
  {
    assert SoundAt(e.maps[t], e.links, t) && SoundAt(e'.maps[t], e'.links, t);
    WidthOf(e, e'.(minimum := e.minimum), t);
  }

  // With fewer links encoded, an AS that owns a code owned one before.
  lemma FewerLinksMoreRoom(e: Enc, e': Enc, d: nat)
    requires Sound(e) && Sound(e') && d in e.maps && d in e'.maps && e'.maps[d].width == e.maps[d].width
    requires e'.links.Keys == e.links.Keys && forall k :: k in e.links ==> e'.links[k] <= e.links[k]
    ensures e'.maps[d].table.Keys <= e.maps[d].table.Keys
    ensures e.maps[d].free != {} ==> e'.maps[d].free != {}
  {
    assert SoundAt(e.maps[d], e.links, d) && SoundAt(e'.maps[d], e'.links, d);
    forall a | a in e'.maps[d].table
      ensures a in e.maps[d].table
    {
      if a != SENTINEL {
        OwnsCodeIffTouched(e, d, a);
        OwnsCodeIffTouched(e', d, a);
        assert Leaving(e'.links, d, a) <= Leaving(e.links, d, a);
        assert Entering(e'.links, d, a) <= Entering(e.links, d, a);
      }
    }
    SubsetSize(e'.maps[d].table.Keys, e.maps[d].table.Keys);
  }

  // What a possible refresh keeps: widths, thresholds' depths, and no link is added.
  lemma RefreshKeeps(e: Enc, e': Enc, edges: Edges, t: nat, percentile: seq<int> -> real)
    requires Sound(e) && Sound(e') && MaybeRefreshed(e, e', edges, t, percentile)
    ensures Widths(e') == Widths(e) && e'.maps.Keys == e.maps.Keys && e'.links.Keys == e.links.Keys
    ensures forall k :: k in e.links ==> e'.links[k] <= e.links[k]
    ensures forall k :: k in e.minimum ==> k in e'.minimum
    ensures e'.maps[t].free != {}
  {
    hide Sound, LightestFirst;
    if e.maps[t].free == {} {
      RefreshFreesHalf(e, e', edges, t, percentile);
      assert Widths(e') == Widths(e'.(minimum := e.minimum));
    }
  }

  lemma RoomAtBoth(e: Enc, mid: Enc, ready: Enc, edges: Edges, d: nat, percentile: seq<int> -> real)
    requires Sound(e) && Sound(mid) && Sound(ready) && d in e.minimum
    requires MaybeRefreshed(e, mid, edges, d, percentile)
    requires MaybeRefreshed(mid, ready, edges, d + 1, percentile)
    ensures Room(ready, d) && d in ready.minimum && Widths(ready) == Widths(e)
    ensures ready.links.Keys == e.links.Keys && forall k :: k in e.links ==> ready.links[k] <= e.links[k]
  {
    RefreshKeeps(e, mid, edges, d, percentile);
    RefreshKeeps(mid, ready, edges, d + 1, percentile);
    WidthOf(mid, ready, d);
    FewerLinksMoreRoom(mid, ready, d);
  }

  // A link that has a code missing is not encoded, and no refresh encodes it.
  lemma LinkStillMissing(e: Enc, ready: Enc, d: nat, l: Link)
    requires Sound(e) && d in e.links && d in ready.links && ready.links[d] <= e.links[d]
    requires AddsCode(e, d, l)
    ensures l !in ready.links[d]
  {
    if l in e.links[d] {
      EncodedIsCounted(e, d, l);
    }
  }

  lemma RoomSound(e: Enc, edges: Edges, d: nat, l: Link)
    requires Sound(e) && LinksLive(e, edges) && Live(edges, d, l)
    requires Room(e, d) && l !in e.links[d]
    ensures Sound(Encode(e, d, l, false)) && LinksLive(Encode(e, d, l, false), edges)
    ensures Widths(Encode(e, d, l, false)) == Widths(e)
    ensures Added(e.maps[d], l.from, true, false).1 == 0 && Added(e.maps[d + 1], l.to, false, false).1 == 0
    ensures Available(e.maps[d], l.from, false, 0) == 0 && Available(e.maps[d + 1], l.to, false, 0) == 0
    ensures Added(e.maps[d], l.from, true, false).2 == (l.from !in e.maps[d].table)
    ensures Added(e.maps[d + 1], l.to, false, false).2 == (l.to !in e.maps[d + 1].table)
  {
    hide Sound;
    EncodeSound(e, d, l, false);
    assert Encode(e, d, l, false).maps.Keys == e.maps.Keys;
  }

  // ---- `advertisement` ----

  // A link encoded afterwards was encoded before, or the path crosses it at that depth.
  ghost predicate OnlyPathAdded(e: Enc, e': Enc, path: Path, i: nat)
    requires i <= LinkCount(path)
  {
    && e'.links.Keys == e.links.Keys
    && forall d, l :: d in e'.links && l in e'.links[d] ==> l in e.links[d] || (OnPath(path, d, l) && d <= i)
  }

  // The link was offered to `add`.
  ghost predicate OfferedToAdd(e: Enc, e': Enc, edges: Edges, d: nat, l: Link, percentile: seq<int> -> real) {
    Live(edges, d, l) && exists mid, ready, added :: AddOutcome(e, mid, ready, e', edges, d, l, added, percentile)
  }

  // After the withdrawal of the old path, the first n links of the new one were offered in order.
  ghost predicate AdvertisedBy(e: Enc, e': Enc, chain: seq<Enc>, n: nat, edges: Edges, path: Path,
                               percentile: seq<int> -> real)
    requires n <= LinkCount(path)
  {
    && |chain| == n + 1 && OnlyLiveKept(e, chain[0], edges) && e' == chain[n]
    && forall i {:trigger chain[i]} :: 0 <= i < n ==>
         OfferedToAdd(chain[i], chain[i + 1], edges, i + 1, LinkAt(path, i), percentile)
  }

  ghost predicate Advertised(e: Enc, e': Enc, edges: Edges, path: Path, percentile: seq<int> -> real) {
    exists chain :: AdvertisedBy(e, e', chain, LinkCount(path), edges, path, percentile)
  }

  lemma OneMoreOffer(e0: Enc, e: Enc, e': Enc, chain: seq<Enc>, i: nat, edges: Edges, path: Path,
                     percentile: seq<int> -> real, mid: Enc, ready: Enc, added: bool)
    requires i < LinkCount(path) && AdvertisedBy(e0, e, chain, i, edges, path, percentile)
    requires Live(edges, i + 1, LinkAt(path, i))
    requires AddOutcome(e, mid, ready, e', edges, i + 1, LinkAt(path, i), added, percentile)
    ensures AdvertisedBy(e0, e', chain + [e'], i + 1, edges, path, percentile)
  {
    hide AddOutcome, OnlyLiveKept;
    var more := chain + [e'];
    assert OfferedToAdd(e, e', edges, i + 1, LinkAt(path, i), percentile);
    forall k {:trigger more[k]} | 0 <= k < i + 1
      ensures OfferedToAdd(more[k], more[k + 1], edges, k + 1, LinkAt(path, k), percentile)
    {
      assert k < i ==> more[k] == chain[k] && more[k + 1] == chain[k + 1];
    }
  }

  lemma AddOnPath(e0: Enc, e: Enc, mid: Enc, ready: Enc, e': Enc, edges: Edges, path: Path, i: nat, added: bool,
                  percentile: seq<int> -> real)
    requires i < LinkCount(path) && Live(edges, i + 1, LinkAt(path, i))
    requires Sound(e) && OnlyPathAdded(e0, e, path, i)
    requires AddOutcome(e, mid, ready, e', edges, i + 1, LinkAt(path, i), added, percentile)
    ensures OnlyPathAdded(e0, e', path, i + 1)
  {
    hide Sound, AddOutcome, Live;
    OnlyLinkAdded(e, mid, ready, e', edges, i + 1, LinkAt(path, i), added, percentile);
  }

  lemma OnlyLinkAdded(e: Enc, mid: Enc, ready: Enc, e': Enc, edges: Edges, d: nat, l: Link, added: bool,
                      percentile: seq<int> -> real)
    requires Live(edges, d, l) && Sound(e) && AddOutcome(e, mid, ready, e', edges, d, l, added, percentile)
    ensures e'.links.Keys == e.links.Keys
    ensures forall k, m :: k in e'.links && m in e'.links[k] ==> m in e.links[k] || (k == d && m == l)
  {
    hide Sound, MaybeRefreshed, Added, Live, Weight;
    if e' != e {
      OnlyLinksGo(e, mid, edges, d, percentile);
      OnlyLinksGo(mid, ready, edges, d + 1, percentile);
    }
  }

  lemma OnlyLinksGo(e: Enc, e': Enc, edges: Edges, t: nat, percentile: seq<int> -> real)
    requires MaybeRefreshed(e, e', edges, t, percentile)
    ensures e'.links.Keys == e.links.Keys && forall k :: k in e.links ==> e'.links[k] <= e.links[k]
  {
    hide Sound, LightestFirst, Thresholds, CodesKept, Used, Half, Widths, Live;
  }

  // Of the encoded links exactly the live ones are kept; widths, codes and thresholds stay.
  ghost predicate OnlyLiveKept(e: Enc, e': Enc, edges: Edges) {
    && Sound(e') && e'.top == e.top && e'.minimum == e.minimum && Widths(e') == Widths(e) && CodesKept(e, e')
    && e'.links.Keys == e.links.Keys
    && forall d, l :: d in e.links ==> (l in e'.links[d] <==> l in e.links[d] && Live(edges, d, l))
  }

  // The same for the links of the first i positions of the path; the others are untouched.
  ghost predicate DeadRemoved(e: Enc, e': Enc, edges: Edges, path: Path, i: nat)
    requires i <= LinkCount(path)
  {
    && e'.top == e.top && e'.minimum == e.minimum && Widths(e') == Widths(e) && CodesKept(e, e')
    && e'.links.Keys == e.links.Keys
    && forall d, l :: d in e.links ==>
                        (l in e'.links[d] <==>
                         l in e.links[d] && (d > i || !OnPath(path, d, l) || Live(edges, d, l)))
  }

  lemma NoneDeadYet(e: Enc, edges: Edges, path: Path)
    ensures DeadRemoved(e, e, edges, path, 0)
  {
  }

  lemma DeadRemovedStep(e0: Enc, e: Enc, e': Enc, edges: Edges, path: Path, i: nat)
    requires i < LinkCount(path) && Sound(e) && DeadRemoved(e0, e, edges, path, i)
    requires e' == if Live(edges, i + 1, LinkAt(path, i)) then e else Unlink(e, i + 1, LinkAt(path, i))
    ensures DeadRemoved(e0, e', edges, path, i + 1)
  {
    hide Sound, Removed, CodesKept, Widths, OnPath, Live;
    UnlinkWidths(e, i + 1, LinkAt(path, i));
    UnlinkKeepsCodes(e, i + 1, LinkAt(path, i));
    CodesKeptTransitive(e0, e, Unlink(e, i + 1, LinkAt(path, i)));
    DeadLinksStep(e0, e, e', edges, path, i);
  }

  lemma DeadLinksStep(e0: Enc, e: Enc, e': Enc, edges: Edges, path: Path, i: nat)
    requires i < LinkCount(path) && Sound(e) && DeadRemoved(e0, e, edges, path, i)
    requires e' == if Live(edges, i + 1, LinkAt(path, i)) then e else Unlink(e, i + 1, LinkAt(path, i))
    ensures e'.top == e.top && e'.minimum == e.minimum && e'.links.Keys == e.links.Keys
    ensures forall d, l :: d in e0.links ==>
                             (l in e'.links[d] <==>
                              l in e0.links[d] && (d > i + 1 || !OnPath(path, d, l) || Live(edges, d, l)))
  {
    hide SoundAt, Removed, CodesKept, Widths, Live;
  }

  lemma AllDeadRemoved(e: Enc, e': Enc, edges: Edges, path: Path)
    requires LinksLiveExcept(e, edges, path) && Sound(e')
    requires DeadRemoved(e, e', edges, path, LinkCount(path))
    ensures OnlyLiveKept(e, e', edges) && LinksLive(e', edges)
  {
    hide Sound;
  }

  // In plain terms: the links that stay encoded are those that still carry a prefix there.
  lemma WithdrawalPlain(e: Enc, e': Enc, edges: Edges, d: nat, l: Link)
    requires OnlyLiveKept(e, e', edges) && d in e.links
    ensures d in e'.links && (l in e'.links[d] <==> l in e.links[d] && l in edges && d in edges[l].depth)
    ensures e'.minimum == e.minimum && e'.top == e.top
  {
    hide Sound, Widths, CodesKept;
  }

  // A withdrawal has one outcome: graph and state before it determine the state after it.
  lemma WithdrawalIsDetermined(e: Enc, a: Enc, b: Enc, edges: Edges)
    requires OnlyLiveKept(e, a, edges) && OnlyLiveKept(e, b, edges)
    ensures a == b
  {
    hide SoundAt, Live;
    forall d | d in a.links
      ensures a.links[d] == b.links[d]
    {
      assert forall l :: l in a.links[d] <==> l in b.links[d];
    }
    assert a.links == b.links;
    forall d | d in a.maps
      ensures d in b.maps && a.maps[d] == b.maps[d]
    {
      assert SoundAt(a.maps[d], a.links, d) && SoundAt(b.maps[d], b.links, d);
      WidthOf(a, b, d);
      SameMapping(a.maps[d], b.maps[d], a.links, d);
    }
  }

  // The encoded links, the width and the codes say all about a mapping.
  lemma SameMapping(a: Codes, b: Codes, links: Links, d: nat)
    requires SoundAt(a, links, d) && SoundAt(b, links, d) && a.width == b.width && a.blocked == b.blocked
    requires forall x :: x in a.table && x in b.table ==> a.table[x].code == b.table[x].code
    ensures a == b
  {
    hide Leaving, Entering;
    forall x | x in a.table && x != SENTINEL
      ensures x in b.table && a.table[x] == b.table[x]
    {
      assert FromCount(a, x) == FromCount(b, x) && ToCount(a, x) == ToCount(b, x);
    }
    forall x | x in b.table && x != SENTINEL
      ensures x in a.table
    {
      assert FromCount(a, x) == FromCount(b, x) && ToCount(a, x) == ToCount(b, x);
    }
    assert a.table == b.table;
    if a.width > 0 {
      CodeSpacePartition(a);
      CodeSpacePartition(b);
      assert a.free == b.free;
    }
  }

  // ---- advertisements while there is room ----

  // The codes free after i offers, while the path has ASes at further depths.
  ghost predicate RoomAhead(e: Enc, path: Path, i: nat) {
    forall t :: t in e.maps && i < t <= |path| ==> |e.maps[t].free| >= if t == i + 1 then 1 else 2
  }

  // Nothing that was there is gone.
  ghost predicate AllKept(e: Enc, e': Enc) {
    && e'.minimum == e.minimum
    && (forall k :: k in e.links ==> k in e'.links && e.links[k] <= e'.links[k])
    && forall k, a :: k in e.maps && a in e.maps[k].table ==>
         k in e'.maps && a in e'.maps[k].table && e'.maps[k].table[a].code == e.maps[k].table[a].code
  }

  lemma OfferWithRoom(e: Enc, e': Enc, edges: Edges, path: Path, i: nat, percentile: seq<int> -> real)
    requires Sound(e) && i < LinkCount(path) && RoomAhead(e, path, i)
    requires OfferedToAdd(e, e', edges, i + 1, LinkAt(path, i), percentile)
    ensures Sound(e') && RoomAhead(e', path, i + 1) && AllKept(e, e')
  {
    hide Sound, AddOutcome;
    var d, l := i + 1, LinkAt(path, i);
    var mid, ready, added :| AddOutcome(e, mid, ready, e', edges, d, l, added, percentile);
    if d in e.maps && d + 1 in e.maps {
      RoomMeansNoRefresh(e, mid, ready, e', edges, d, l, added, percentile);
      StaysSound(e, mid, ready, e', edges, d, l, added, percentile);
    } else {
      NotHandled(e, mid, ready, e', edges, d, l, added, percentile);
    }
  }

  lemma NotHandled(e: Enc, mid: Enc, ready: Enc, e': Enc, edges: Edges, d: nat, l: Link, added: bool,
                   percentile: seq<int> -> real)
    requires Live(edges, d, l) && AddOutcome(e, mid, ready, e', edges, d, l, added, percentile)
    requires d !in e.maps || d + 1 !in e.maps
    ensures e' == e
  {
  }

  lemma StaysSound(e: Enc, mid: Enc, ready: Enc, e': Enc, edges: Edges, d: nat, l: Link, added: bool,
                   percentile: seq<int> -> real)
    requires Live(edges, d, l) && Sound(e) && AddOutcome(e, mid, ready, e', edges, d, l, added, percentile)
    requires d in e.maps && d + 1 in e.maps && |e.maps[d].free| > 0 && |e.maps[d + 1].free| > 0
    ensures Sound(e')
  {
    hide Sound, Refreshed;
    if e' != e {
      NoGrowth(e.maps[d], l.from, true);
      NoGrowth(e.maps[d + 1], l.to, false);
      EncodeSound(e, d, l, false);
    }
  }

  lemma NoGrowth(m: Codes, asn: Asn, fromAs: bool)
    requires m.free != {}
    ensures Added(m, asn, fromAs, false).1 == 0
  {
  }

  lemma WithdrawalLeavesRoom(e: Enc, e': Enc, edges: Edges, path: Path)
    requires Sound(e) && OnlyLiveKept(e, e', edges)
    requires forall t :: t in e.maps && t <= |path| ==> |e.maps[t].free| >= 2
    ensures RoomAhead(e', path, 0)
  {
    hide Live;
    forall t | t in e'.maps && t <= |path|
      ensures |e'.maps[t].free| >= 2
    {
      assert SoundAt(e.maps[t], e.links, t) && SoundAt(e'.maps[t], e'.links, t);
      WidthOf(e, e', t);
      FewerLinksMoreRoom(e, e', t);
      SubsetSize(e'.maps[t].table.Keys, e.maps[t].table.Keys);
    }
  }

  lemma {:induction false} OffersWithRoom(chain: seq<Enc>, i: nat, edges: Edges, path: Path,
                                          percentile: seq<int> -> real)
    requires i <= LinkCount(path) && i < |chain| && Sound(chain[0]) && RoomAhead(chain[0], path, 0)
    requires forall k {:trigger chain[k]} :: 0 <= k < i ==>
               OfferedToAdd(chain[k], chain[k + 1], edges, k + 1, LinkAt(path, k), percentile)
    ensures Sound(chain[i]) && RoomAhead(chain[i], path, i) && AllKept(chain[0], chain[i])
  {
    hide Sound, RoomAhead, OfferedToAdd;
    if i > 0 {
      OffersWithRoom(chain, i - 1, edges, path, percentile);
      assert OfferedToAdd(chain[i - 1], chain[i], edges, i, LinkAt(path, i - 1), percentile);
      OfferWithRoom(chain[i - 1], chain[i], edges, path, i - 1, percentile);
    }
  }

  // With two free codes at every depth of the new path, an advertisement refreshes nothing:
  // exactly the dead links go, every live one stays encoded with the codes it has, and the
  // thresholds stay.
  lemma AdvertisedWithRoom(e: Enc, e': Enc, edges: Edges, path: Path, percentile: seq<int> -> real, k: nat, l: Link)
    requires Sound(e) && Advertised(e, e', edges, path, percentile)
    requires forall t :: t in e.maps && t <= |path| ==> |e.maps[t].free| >= 2
    ensures e'.minimum == e.minimum
    ensures k in e.links && l in e.links[k] && l in edges && k in edges[l].depth ==>
              && k in e'.links && l in e'.links[k]
              && k in e.maps && k in e'.maps && l.from in e.maps[k].table && l.from in e'.maps[k].table
              && e'.maps[k].table[l.from].code == e.maps[k].table[l.from].code
              && k + 1 in e.maps && k + 1 in e'.maps && l.to in e.maps[k + 1].table && l.to in e'.maps[k + 1].table
              && e'.maps[k + 1].table[l.to].code == e.maps[k + 1].table[l.to].code
  {
    hide Sound, OfferedToAdd, OnlyLiveKept, RoomAhead, CodesKept, AllKept;
    var chain :| AdvertisedBy(e, e', chain, LinkCount(path), edges, path, percentile);
    WithdrawalLeavesRoom(e, chain[0], edges, path);
    LiveStayEncoded(e, chain[0], edges);
    OffersWithRoom(chain, LinkCount(path), edges, path, percentile);
    ThresholdsKept(chain[0], e');
    if k in e.links && l in e.links[k] && l in edges && k in edges[l].depth {
      LinkIsHeld(e, chain[0], e', k, l);
    }
  }

  lemma NothingLostWithRoom(e: Enc, e': Enc, edges: Edges, path: Path, percentile: seq<int> -> real)
    requires Sound(e) && Advertised(e, e', edges, path, percentile)
    ensures (forall t :: t in e.maps && t <= |path| ==> |e.maps[t].free| >= 2) ==>
              && e'.minimum == e.minimum
              && forall k, l :: k in e.links && l in e.links[k] && l in edges && k in edges[l].depth ==>
                   k in e'.links && l in e'.links[k]
  {
    hide Sound, Advertised;
    if forall t :: t in e.maps && t <= |path| ==> |e.maps[t].free| >= 2 {
      AdvertisedWithRoom(e, e', edges, path, percentile, 0, Link(0, 0));
      forall k, l
        ensures k in e.links && l in e.links[k] && l in edges && k in edges[l].depth ==>
                  k in e'.links && l in e'.links[k]
      {
        AdvertisedWithRoom(e, e', edges, path, percentile, k, l);
      }
    }
  }

  lemma ChainOfOffers(e: Enc, e': Enc, chain: seq<Enc>, edges: Edges, path: Path, percentile: seq<int> -> real)
    requires AdvertisedBy(e, e', chain, LinkCount(path), edges, path, percentile)
    ensures |chain| == LinkCount(path) + 1 && OnlyLiveKept(e, chain[0], edges) && chain[|chain| - 1] == e'
    ensures forall i {:trigger chain[i]} :: 0 <= i < |path| - 1 ==>
              OfferedToAdd(chain[i], chain[i + 1], edges, i + 1, Link(path[i], path[i + 1]), percentile)
  {
    hide OnlyLiveKept, OfferedToAdd;
  }

  lemma ThresholdsKept(e: Enc, e': Enc)
    requires AllKept(e, e')
    ensures e'.minimum == e.minimum
  {
  }

  lemma LinkIsHeld(e: Enc, e0: Enc, e': Enc, k: nat, l: Link)
    requires Sound(e) && Sound(e0) && CodesKept(e, e0) && AllKept(e0, e')
    requires k in e.links && l in e.links[k] && k in e0.links && l in e0.links[k]
    ensures && k in e'.links && l in e'.links[k]
            && k in e.maps && k in e'.maps && l.from in e.maps[k].table && l.from in e'.maps[k].table
            && e'.maps[k].table[l.from].code == e.maps[k].table[l.from].code
            && k + 1 in e.maps && k + 1 in e'.maps && l.to in e.maps[k + 1].table && l.to in e'.maps[k + 1].table
            && e'.maps[k + 1].table[l.to].code == e.maps[k + 1].table[l.to].code
  {
    hide Sound;
    SoundFacts(e, k);
    EncodedIsCounted(e, k, l);
    SoundFacts(e0, k);
    EncodedIsCounted(e0, k, l);
  }

  lemma LiveStayEncoded(e: Enc, e': Enc, edges: Edges)
    requires OnlyLiveKept(e, e', edges)
    ensures Sound(e') && e'.minimum == e.minimum && CodesKept(e, e')
    ensures forall k, l :: k in e.links && l in e.links[k] && l in edges && k in edges[l].depth ==>
              k in e'.links && l in e'.links[k]
  {
    hide Sound, CodesKept;
  }
}
