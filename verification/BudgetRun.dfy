// How `compute_encoding` spends its bits: links are encoded in order of weight as long as
// their predicted cost fits, then the remaining bits are handed out one by one.
module BudgetRun {
  import opened AsPaths
  import opened AsTopology
  import opened CodeMapping
  import opened Collections
  import opened EncodingState
  import opened RefreshRun
  import opened SortedLinks

  // What the greedy part may spend: all but the two bits that are added last.
  function Spendable(maxBytes: int): nat {
    if maxBytes < 2 then 0 else maxBytes - 2
  }

  // The depths that have a mapping when links are encoded at the depths 2 to top.
  ghost function MappingDepths(top: nat): set<nat> {
    if top >= 2 then Range(2, top + 2) else {}
  }

  ghost predicate Roomy(m: Codes) {
    Provisioned(m) && (m.width == 0 || (m.width >= 2 && m.free != {}))
  }

  ghost predicate InBudget(e: Enc, total: nat, maxBytes: int) {
    && Sound(e) && e.minimum == map[]
    && BitsBelow(e.maps, e.top + 2) == total <= Spendable(maxBytes)
    && AllRoomy(e.maps, total, maxBytes)
  }

  ghost predicate AllRoomy(maps: map<nat, Codes>, total: nat, maxBytes: int) {
    forall d {:trigger Roomy(maps[d])} :: d in maps ==>
      Roomy(maps[d]) && (maps[d].blocked ==> total >= maxBytes - 2)
  }

  function Blocked(m: Codes, full: bool): Codes {
    if full then m.(blocked := true) else m
  }

  // One encoded link, with both mappings closed once the budget is spent.
  ghost function Spend(e: Enc, d: nat, l: Link, full: bool): Enc
    requires d in e.maps && d + 1 in e.maps && d in e.links
  {
    var e' := Encode(e, d, l, true);
    e'.(maps := e'.maps[d := Blocked(e'.maps[d], full)][d + 1 := Blocked(e'.maps[d + 1], full)])
  }

  lemma StartInBudget(top: nat, links: Links, maps: map<nat, Codes>, maxBytes: int)
    requires top >= 1
    requires forall d :: d in links <==> 2 <= d <= top
    requires forall d :: d in links ==> links[d] == {}
    requires maps.Keys == MappingDepths(top) && forall d :: d in maps ==> maps[d] == EMPTY
    ensures InBudget(Enc(top, maps, links, map[]), 0, maxBytes)
  {
    hide SoundAt, Roomy, BitsBelow, Shape, MappingDepths, Range;
    StartShape(top, links, maps);
    EmptyIsOpen();
    forall d | d in maps
      ensures SoundAt(maps[d], links, d) && Roomy(maps[d])
    {
      EmptySound(links, d);
    }
    NoBits(maps, top + 2);
  }

  lemma StartShape(top: nat, links: Links, maps: map<nat, Codes>)
    requires top >= 1 && (forall d :: d in links <==> 2 <= d <= top) && maps.Keys == MappingDepths(top)
    ensures Shape(Enc(top, maps, links, map[]))
  {
  }

  lemma EmptyIsOpen()
    ensures !EMPTY.blocked && EMPTY.width == 0
  {
  }

  lemma EmptySound(links: Links, d: nat)
    requires forall k :: k in links ==> links[k] == {}
    ensures SoundAt(EMPTY, links, d) && Roomy(EMPTY)
  {
  }

  lemma {:induction false} NoBits(maps: map<nat, Codes>, n: nat)
    requires forall d :: d in maps ==> maps[d].width == 0
    ensures BitsBelow(maps, n) == 0
  {
    if n > 0 {
      NoBits(maps, n - 1);
    }
  }

  // What an insertion costs while the budget holds: never more than was predicted.
  lemma CostAsPredicted(m: Codes, asn: Asn, fromAs: bool)
    requires Wf(m) && Roomy(m) && (m.blocked ==> Available(m, asn, true, 0) == 0)
    ensures 0 <= Added(m, asn, fromAs, true).1 <= Available(m, asn, true, 0)
    ensures Roomy(Added(m, asn, fromAs, true).0)
    ensures Added(m, asn, fromAs, true).0.width == m.width + Added(m, asn, fromAs, true).1
    ensures Added(m, asn, fromAs, true).0.blocked == m.blocked
    ensures asn in Added(m, asn, fromAs, true).0.table
  {
    AvailableBounds(m, asn, fromAs);
    AddedProvisioned(m, asn, fromAs);
  }

  lemma BlockedSound(m: Codes, full: bool, links: Links, d: nat)
    requires SoundAt(m, links, d)
    ensures SoundAt(Blocked(m, full), links, d)
  {
    var n := Blocked(m, full);
    forall a: Asn
      ensures FromCount(n, a) == |Leaving(links, d, a)| && ToCount(n, a) == |Entering(links, d, a)|
    {
      assert FromCount(n, a) == FromCount(m, a) && ToCount(n, a) == ToCount(m, a);
    }
  }

  lemma SpendSound(e: Enc, d: nat, l: Link, full: bool)
    requires Sound(e) && d in e.links && l !in e.links[d]
    requires Added(e.maps[d], l.from, true, true).1 >= 0
    requires Added(e.maps[d + 1], l.to, false, true).1 >= 0
    ensures Sound(Spend(e, d, l, full))
  {
    hide SoundAt, Added;
    EncodeSound(e, d, l, true);
    var e' := Encode(e, d, l, true);
    var e'' := Spend(e, d, l, full);
    assert SoundAt(e'.maps[d], e'.links, d) && SoundAt(e'.maps[d + 1], e'.links, d + 1);
    BlockedSound(e'.maps[d], full, e'.links, d);
    BlockedSound(e'.maps[d + 1], full, e'.links, d + 1);
    ReplaceSound(e', e'', d);
  }

  // A link whose predicted cost fits is encoded completely, at no more than that cost.
  lemma SpendStep(e: Enc, total: nat, maxBytes: int, d: nat, l: Link)
    requires InBudget(e, total, maxBytes) && d in e.links && l !in e.links[d]
    requires total + Available(e.maps[d], l.from, true, 0) + Available(e.maps[d + 1], l.to, true, 0) <= maxBytes - 2
    ensures var a, b := Added(e.maps[d], l.from, true, true), Added(e.maps[d + 1], l.to, false, true);
            && a.1 >= 0 && b.1 >= 0 && l.from in a.0.table && l.to in b.0.table
            && InBudget(Spend(e, d, l, total + a.1 + b.1 >= maxBytes - 2), total + a.1 + b.1, maxBytes)
  {
    hide Sound, SoundAt, Added, Available, BitsBelow, AllRoomy;
    BudgetFacts(e, total, maxBytes, d);
    CostAsPredicted(e.maps[d], l.from, true);
    CostAsPredicted(e.maps[d + 1], l.to, false);
    hide Roomy, Wf;
    SpendKeeps(e, total, maxBytes, d, l);
  }

  lemma SpendKeeps(e: Enc, total: nat, maxBytes: int, d: nat, l: Link)
    requires InBudget(e, total, maxBytes) && d in e.links && l !in e.links[d]
    requires d in e.maps && d + 1 in e.maps
    requires var a, b := Added(e.maps[d], l.from, true, true), Added(e.maps[d + 1], l.to, false, true);
             && a.1 >= 0 && b.1 >= 0 && total + a.1 + b.1 <= maxBytes - 2
             && a.0.width == e.maps[d].width + a.1 && b.0.width == e.maps[d + 1].width + b.1
             && Roomy(a.0) && Roomy(b.0)
             && a.0.blocked == e.maps[d].blocked && b.0.blocked == e.maps[d + 1].blocked
    ensures var a, b := Added(e.maps[d], l.from, true, true), Added(e.maps[d + 1], l.to, false, true);
            InBudget(Spend(e, d, l, total + a.1 + b.1 >= maxBytes - 2), total + a.1 + b.1, maxBytes)
  {
    hide SoundAt, Added, BitsBelow, AllRoomy, Roomy;
    var total' := total + Added(e.maps[d], l.from, true, true).1 + Added(e.maps[d + 1], l.to, false, true).1;
    var full := total' >= maxBytes - 2;
    SpendBits(e, d, l, full);
    SpendRoomy(e, d, l, full, total, total', maxBytes);
    SpendSound(e, d, l, full);
    hide Sound;
  }

  lemma SpendBits(e: Enc, d: nat, l: Link, full: bool)
    requires Shape(e) && d in e.links
    requires Added(e.maps[d], l.from, true, true).0.width == e.maps[d].width + Added(e.maps[d], l.from, true, true).1
    requires Added(e.maps[d + 1], l.to, false, true).0.width ==
             e.maps[d + 1].width + Added(e.maps[d + 1], l.to, false, true).1
    ensures BitsBelow(Spend(e, d, l, full).maps, e.top + 2) ==
            BitsBelow(e.maps, e.top + 2) + Added(e.maps[d], l.from, true, true).1 +
                Added(e.maps[d + 1], l.to, false, true).1
  {
    hide Added;
    var m', n' := Added(e.maps[d], l.from, true, true).0, Added(e.maps[d + 1], l.to, false, true).0;
    assert Spend(e, d, l, full).maps == e.maps[d := Blocked(m', full)][d + 1 := Blocked(n', full)];
    BitsAfterUpdate(e.maps, d, Blocked(m', full), e.top + 2);
    BitsAfterUpdate(e.maps[d := Blocked(m', full)], d + 1, Blocked(n', full), e.top + 2);
  }

  lemma SpendRoomy(e: Enc, d: nat, l: Link, full: bool, total: nat, total': nat, maxBytes: int)
    requires Shape(e) && d in e.links && total <= total' && full == (total' >= maxBytes - 2)
    requires AllRoomy(e.maps, total, maxBytes)
    requires Roomy(Added(e.maps[d], l.from, true, true).0) && Roomy(Added(e.maps[d + 1], l.to, false, true).0)
    requires Added(e.maps[d], l.from, true, true).0.blocked == e.maps[d].blocked
    requires Added(e.maps[d + 1], l.to, false, true).0.blocked == e.maps[d + 1].blocked
    ensures AllRoomy(Spend(e, d, l, full).maps, total', maxBytes)
  {
    hide Added, Roomy;
    var m', n' := Added(e.maps[d], l.from, true, true).0, Added(e.maps[d + 1], l.to, false, true).0;
    var e' := Spend(e, d, l, full);
    RoomyBlocked(m', full);
    RoomyBlocked(n', full);
    forall k | k in e'.maps
      ensures Roomy(e'.maps[k]) && (e'.maps[k].blocked ==> total' >= maxBytes - 2)
    {
      assert Roomy(e.maps[k]);
    }
  }

  lemma BudgetFacts(e: Enc, total: nat, maxBytes: int, d: nat)
    requires InBudget(e, total, maxBytes) && d in e.links
    ensures Shape(e) && d in e.maps && d + 1 in e.maps
    ensures Wf(e.maps[d]) && Roomy(e.maps[d]) && (e.maps[d].blocked ==> total >= maxBytes - 2)
    ensures Wf(e.maps[d + 1]) && Roomy(e.maps[d + 1]) && (e.maps[d + 1].blocked ==> total >= maxBytes - 2)
  {
    assert SoundAt(e.maps[d], e.links, d) && SoundAt(e.maps[d + 1], e.links, d + 1);
    assert Roomy(e.maps[d]) && Roomy(e.maps[d + 1]);
  }

  lemma RoomyBlocked(m: Codes, full: bool)
    requires Roomy(m)
    ensures Roomy(Blocked(m, full))
  {
  }

  // ---- the bits handed out at the end ----

  ghost function Widen(e: Enc, d: nat): Enc
    requires d in e.maps
  {
    e.(maps := e.maps[d := Grow(e.maps[d])])
  }

  lemma GrowSound(m: Codes, links: Links, d: nat)
    requires SoundAt(m, links, d)
    ensures SoundAt(Grow(m), links, d)
  {
    GrowWf(m);
    var n := Grow(m);
    forall a: Asn
      ensures FromCount(n, a) == |Leaving(links, d, a)| && ToCount(n, a) == |Entering(links, d, a)|
    {
      assert FromCount(n, a) == FromCount(m, a) && ToCount(n, a) == ToCount(m, a);
    }
  }

  // One more bit for a mapping keeps the state sound and costs exactly one bit.
  lemma WidenSound(e: Enc, d: nat)
    requires Sound(e) && d in e.maps
    ensures Sound(Widen(e, d))
    ensures BitsBelow(Widen(e, d).maps, e.top + 2) == BitsBelow(e.maps, e.top + 2) + 1
  {
    hide SoundAt, Grow, BitsBelow;
    assert SoundAt(e.maps[d], e.links, d);
    GrowSound(e.maps[d], e.links, d);
    GrowWidth(e.maps[d]);
    BitsAfterUpdate(e.maps, d, Grow(e.maps[d]), e.top + 2);
    var e' := Widen(e, d);
    forall k | k in e'.maps
      ensures SoundAt(e'.maps[k], e'.links, k)
    {
      assert SoundAt(e.maps[k], e.links, k);
    }
  }

  lemma GrowWidth(m: Codes)
    ensures Grow(m).width == m.width + 1
  {
  }

  // ---- the depths ----

  // A depth beyond the second is only used where the depth before it is.
  ghost predicate Contiguous(edges: Edges, maxDepth: nat) {
    forall d :: 2 < d <= maxDepth && InUse(edges, d) ==> InUse(edges, d - 1)
  }

  ghost predicate InUse(edges: Edges, d: nat) {
    exists l :: Live(edges, d, l)
  }

  lemma {:induction false} FindTop(lists: Lists, n: nat) returns (top: nat)
    requires forall d :: d in lists ==> 2 <= d <= n
    requires forall d :: d in lists && d > 2 ==> d - 1 in lists
    ensures top >= 1 && (top == 1 || top <= n)
    ensures forall d :: d in lists <==> 2 <= d <= top
  {
    if n < 2 {
      top := 1;
    } else if n in lists {
      top := n;
      NoGapBelow(lists, n);
    } else {
      top := FindTop(lists, n - 1);
    }
  }

  lemma {:induction false} NoGapBelow(lists: Lists, n: nat)
    requires n in lists && n >= 2
    requires forall d :: d in lists && d > 2 ==> d - 1 in lists
    ensures forall d :: 2 <= d <= n ==> d in lists
  {
    if n > 2 {
      NoGapBelow(lists, n - 1);
    }
  }

  lemma CompleteTop(lists: Lists, edges: Edges, maxDepth: nat) returns (top: nat)
    requires Complete(lists, edges, None, maxDepth) && Contiguous(edges, maxDepth)
    ensures top >= 1 && (top == 1 || top <= maxDepth)
    ensures forall d :: d in lists <==> 2 <= d <= top
  {
    forall d | d in lists && d > 2
      ensures d - 1 in lists
    {
      var x := lists[d][0];
      assert x in lists[d];
      assert Live(edges, d, x.link);
      assert InUse(edges, d);
      var p := d - 1;
      assert InUse(edges, p);
      var k :| Live(edges, p, k);
      assert Eligible(None, maxDepth, d - 1);
    }
    top := FindTop(lists, maxDepth);
  }

  lemma {:induction false} BitsBeyond(maps: map<nat, Codes>, m: nat, n: nat)
    requires m <= n && forall d :: d in maps ==> d < m
    ensures BitsBelow(maps, n) == BitsBelow(maps, m)
    decreases n
  {
    if m < n {
      BitsBeyond(maps, m, n - 1);
    }
  }

  // ---- the greedy loop ----

  // `created` are the depths whose mapping exists already.
  ghost predicate Greedy(e: Enc, edges: Edges, all: Lists, lists: Lists, vecs: map<nat, seq<int>>, kept: Kept,
                         created: set<nat>) {
    && lists.Keys == all.Keys && vecs.Keys == all.Keys && kept.Keys == all.Keys && e.links.Keys == all.Keys
    && (forall d :: d in lists ==> GreedyAt(e, edges, lists[d], vecs[d], kept[d], d))
    && Examined(lists, all, created)
    && created <= MappingDepths(e.top)
  }

  // Where a link has been examined, both mappings exist.
  ghost predicate Examined(lists: Lists, all: Lists, created: set<nat>)
    requires lists.Keys == all.Keys
  {
    forall d {:trigger lists[d]} :: d in lists ==> lists[d] == all[d] || (d in created && d + 1 in created)
  }

  ghost predicate GreedyAt(e: Enc, edges: Edges, list: seq<Item>, vec: seq<int>, order: seq<Link>, d: nat)
    requires d in e.links
  {
    && Ascending(list)
    && (forall x :: x in list ==>
        Live(edges, d, x.link) && x.weight == Weight(edges, d, x.link) && x.link !in e.links[d])
    && WeightsOf(vec, e.links[d], order, edges, d)
  }

  lemma GreedyStarts(e: Enc, edges: Edges, all: Lists, maxDepth: nat)
    requires Complete(all, edges, None, maxDepth)
    requires e.links.Keys == all.Keys && forall d :: d in e.links ==> e.links[d] == {}
    ensures Greedy(e, edges, all, all, map d | d in all :: [], map d | d in all :: [], {})
  {
  }

  function Init(s: seq<Item>): (r: seq<Item>)
    requires s != []
    ensures |r| == |s| - 1
  {
    s[..|s| - 1]
  }

  function Last(s: seq<Item>): Item
    requires s != []
  {
    s[|s| - 1]
  }

  // The heaviest remaining link of depth d does not fit.
  lemma SkipStep(e: Enc, edges: Edges, all: Lists, lists: Lists, vecs: map<nat, seq<int>>, kept: Kept,
                 created: set<nat>, d: nat)
    requires Greedy(e, edges, all, lists, vecs, kept, created)
    requires d in lists && lists[d] != [] && d in created && d + 1 in created
    ensures Greedy(e, edges, all, lists[d := Init(lists[d])], vecs, kept, created)
  {
  }

  lemma ExaminedPop(lists: Lists, all: Lists, created: set<nat>, d: nat)
    requires lists.Keys == all.Keys && Examined(lists, all, created)
    requires d in lists && lists[d] != [] && d in created && d + 1 in created
    ensures lists[d := Init(lists[d])].Keys == all.Keys
    ensures Examined(lists[d := Init(lists[d])], all, created)
  {
  }

  // It fits, and is encoded.
  lemma TakeStep(e: Enc, e': Enc, edges: Edges, all: Lists, lists: Lists, vecs: map<nat, seq<int>>, kept: Kept,
                 created: set<nat>, d: nat)
    requires Greedy(e, edges, all, lists, vecs, kept, created)
    requires d in lists && lists[d] != [] && d in created && d + 1 in created
    requires e'.top == e.top && e'.links == e.links[d := e.links[d] + {Last(lists[d]).link}]
    ensures Greedy(e', edges, all, lists[d := Init(lists[d])], vecs[d := vecs[d] + [Last(lists[d]).weight]],
                   kept[d := kept[d] + [Last(lists[d]).link]], created)
  {
    hide GreedyAt;
    var x := Last(lists[d]);
    var lists' := lists[d := Init(lists[d])];
    var vecs', kept' := vecs[d := vecs[d] + [x.weight]], kept[d := kept[d] + [x.link]];
    forall k | k in lists'
      ensures GreedyAt(e', edges, lists'[k], vecs'[k], kept'[k], k)
    {
      assert GreedyAt(e, edges, lists[k], vecs[k], kept[k], k);
      if k == d {
        TakeAt(e, e', edges, lists[d], vecs[d], kept[d], d);
      } else {
        TakeElsewhere(e, e', edges, lists[k], vecs[k], kept[k], k);
      }
    }
    ExaminedPop(lists, all, created, d);
  }

  lemma TakeElsewhere(e: Enc, e': Enc, edges: Edges, list: seq<Item>, vec: seq<int>, order: seq<Link>, d: nat)
    requires d in e.links && d in e'.links && e'.links[d] == e.links[d]
    requires GreedyAt(e, edges, list, vec, order, d)
    ensures GreedyAt(e', edges, list, vec, order, d)
  {
    hide WeightsOf, Ascending;
  }

  lemma TakeAt(e: Enc, e': Enc, edges: Edges, list: seq<Item>, vec: seq<int>, order: seq<Link>, d: nat)
    requires d in e.links && GreedyAt(e, edges, list, vec, order, d) && list != []
    requires d in e'.links && e'.links[d] == e.links[d] + {Last(list).link}
    ensures GreedyAt(e', edges, Init(list), vec + [Last(list).weight], order + [Last(list).link], d)
  {
  }
}
