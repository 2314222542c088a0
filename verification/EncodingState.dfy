// The state of the AS-link encoder as a value: one code allocator per depth, the links
// encoded at each depth, and the invariant that ties the reference counters of the
// allocators to the encoded links and the encoded links to the AS graph.
module EncodingState {
  import opened AsPaths
  import opened AsTopology
  import opened CodeMapping

  type Links = map<nat, set<Link>>

  // `top` is the deepest depth with encoded links, 1 when there is none.
  datatype Enc = Enc(top: nat, maps: map<nat, Codes>, links: Links, minimum: map<nat, real>)

  // ---- reference counting ----

  // The encoded links that leave an AS at a depth, and those that enter it there.
  ghost function Leaving(links: Links, d: nat, a: Asn): set<Link> {
    if d in links then set l | l in links[d] && l.from == a else {}
  }

  ghost function Entering(links: Links, d: nat, a: Asn): set<Link> {
    if d >= 1 && d - 1 in links then set l | l in links[d - 1] && l.to == a else {}
  }

  function FromCount(m: Codes, a: Asn): int {
    if a in m.table then m.table[a].from else 0
  }

  function ToCount(m: Codes, a: Asn): int {
    if a in m.table then m.table[a].to else 0
  }

  ghost predicate CountsMatch(m: Codes, links: Links, d: nat) {
    forall a: Asn {:trigger FromCount(m, a)} {:trigger ToCount(m, a)} ::
      FromCount(m, a) == |Leaving(links, d, a)| && ToCount(m, a) == |Entering(links, d, a)|
  }

  // Links are encoded at the depths from 2 to `top`, each between its own mapping and
  // the one of the next depth.
  ghost predicate Shape(e: Enc) {
    && e.top >= 1
    && (forall d :: d in e.links <==> 2 <= d <= e.top)
    && (forall d :: d in e.maps <==> 2 <= d <= e.top + 1 && e.top >= 2)
    && (forall d :: d in e.minimum ==> d in e.links)
    && (forall d {:trigger d in e.minimum} :: d in e.minimum ==> e.maps[d].width > 0 && e.maps[d + 1].width > 0)
  }

  ghost predicate SoundAt(m: Codes, links: Links, d: nat) {
    Wf(m) && CountsMatch(m, links, d)
  }

  ghost predicate Sound(e: Enc) {
    && Shape(e)
    && forall d {:trigger SoundAt(e.maps[d], e.links, d)} :: d in e.maps ==> SoundAt(e.maps[d], e.links, d)
  }

  // Every encoded link still carries a prefix at its depth.
  ghost predicate LinksLive(e: Enc, edges: Edges) {
    forall d, l :: d in e.links && l in e.links[d] ==> Live(edges, d, l)
  }

  // The same, except for links the path crosses at that depth.
  ghost predicate LinksLiveExcept(e: Enc, edges: Edges, path: Path) {
    forall d, l :: d in e.links && l in e.links[d] ==> Live(edges, d, l) || OnPath(path, d, l)
  }

  predicate OnPath(path: Path, d: nat, l: Link) {
    1 <= d <= LinkCount(path) && LinkAt(path, d - 1) == l
  }

  ghost function Widths(e: Enc): map<nat, nat> {
    map d | d in e.maps :: e.maps[d].width
  }

  // An AS that owns a code afterwards owned the same code before, and no mapping opens or closes.
  ghost predicate CodesKept(e: Enc, e': Enc) {
    && (forall d, a {:trigger a in e'.maps[d].table} :: d in e'.maps && a in e'.maps[d].table ==>
          d in e.maps && a in e.maps[d].table && e'.maps[d].table[a].code == e.maps[d].table[a].code)
    && (forall d :: d in e'.maps ==> d in e.maps && e'.maps[d].blocked == e.maps[d].blocked)
  }

  lemma CodesKeptTransitive(e0: Enc, e1: Enc, e2: Enc)
    requires CodesKept(e0, e1) && CodesKept(e1, e2)
    ensures CodesKept(e0, e2)
  {
  }

  // ---- adding and removing one encoded link ----

  // `Encoding.remove`.
  ghost function Unlink(e: Enc, d: nat, l: Link): Enc {
    if d in e.maps && d + 1 in e.maps && d in e.links && l in e.links[d] then
      Enc(e.top, e.maps[d := Removed(e.maps[d], l.from, true).0][d + 1 := Removed(e.maps[d + 1], l.to, false).0],
          e.links[d := e.links[d] - {l}],
          e.minimum)
    else e
  }

  // The effect of encoding a link: two references and one more encoded link.
  ghost function Encode(e: Enc, d: nat, l: Link, over: bool): Enc
    requires d in e.maps && d + 1 in e.maps && d in e.links
  {
    Enc(e.top, e.maps[d := Added(e.maps[d], l.from, true, over).0][d + 1 := Added(e.maps[d + 1], l.to, false, over).0],
        e.links[d := e.links[d] + {l}],
        e.minimum)
  }

  lemma AddedCounts(m: Codes, x: Asn, fromAs: bool, over: bool)
    requires Added(m, x, fromAs, over).1 >= 0
    ensures var m' := Added(m, x, fromAs, over).0;
            forall a: Asn :: FromCount(m', a) == FromCount(m, a) + (if a == x && fromAs then 1 else 0)
                             && ToCount(m', a) == ToCount(m, a) + (if a == x && !fromAs then 1 else 0)
  {
  }

  lemma RemovedCounts(m: Codes, x: Asn, fromAs: bool)
    requires Wf(m) && (if fromAs then FromCount(m, x) else ToCount(m, x)) > 0
    ensures Removed(m, x, fromAs).1 != Underflow
    ensures var m' := Removed(m, x, fromAs).0;
            forall a: Asn :: FromCount(m', a) == FromCount(m, a) - (if a == x && fromAs then 1 else 0)
                             && ToCount(m', a) == ToCount(m, a) - (if a == x && !fromAs then 1 else 0)
  {
  }

  lemma LeavingPlus(links: Links, d: nat, l: Link, k: nat, a: Asn)
    requires d in links && l !in links[d]
    ensures var links' := links[d := links[d] + {l}];
            && |Leaving(links', k, a)| == |Leaving(links, k, a)| + (if k == d && l.from == a then 1 else 0)
            && |Entering(links', k, a)| == |Entering(links, k, a)| + (if k == d + 1 && l.to == a then 1 else 0)
  {
    hide Leaving, Entering;
    OneMoreLeaves(links, d, l, k, a);
    OneMoreEnters(links, d, l, k, a);
  }

  lemma OneMoreLeaves(links: Links, d: nat, l: Link, k: nat, a: Asn)
    requires d in links && l !in links[d]
    ensures var links' := links[d := links[d] + {l}];
            |Leaving(links', k, a)| == |Leaving(links, k, a)| + (if k == d && l.from == a then 1 else 0)
  {
    hide Entering;
    var links' := links[d := links[d] + {l}];
    if k == d && l.from == a {
      assert Leaving(links', k, a) == Leaving(links, k, a) + {l};
    } else {
      assert Leaving(links', k, a) == Leaving(links, k, a);
    }
  }

  lemma OneMoreEnters(links: Links, d: nat, l: Link, k: nat, a: Asn)
    requires d in links && l !in links[d]
    ensures var links' := links[d := links[d] + {l}];
            |Entering(links', k, a)| == |Entering(links, k, a)| + (if k == d + 1 && l.to == a then 1 else 0)
  {
    hide Leaving;
    var links' := links[d := links[d] + {l}];
    if k == d + 1 && l.to == a {
      assert Entering(links', k, a) == Entering(links, k, a) + {l};
    } else {
      assert Entering(links', k, a) == Entering(links, k, a);
    }
  }

  lemma LeavingMinus(links: Links, d: nat, l: Link, k: nat, a: Asn)
    requires d in links && l in links[d]
    ensures var links' := links[d := links[d] - {l}];
            && |Leaving(links', k, a)| == |Leaving(links, k, a)| - (if k == d && l.from == a then 1 else 0)
            && |Entering(links', k, a)| == |Entering(links, k, a)| - (if k == d + 1 && l.to == a then 1 else 0)
  {
    var links' := links[d := links[d] - {l}];
    assert links'[d] + {l} == links[d];
    assert links == links'[d := links'[d] + {l}];
    LeavingPlus(links', d, l, k, a);
  }

  // The states differ in the links of depth d and the two mappings these refer to.
  ghost predicate SameElsewhere(e: Enc, e': Enc, d: nat) {
    && e'.top == e.top && e'.minimum == e.minimum
    && e'.maps.Keys == e.maps.Keys && e'.links.Keys == e.links.Keys
    && (forall k :: k in e.maps && k != d && k != d + 1 ==> e'.maps[k] == e.maps[k])
    && (forall k :: k in e.links && k != d ==> e'.links[k] == e.links[k])
    && (forall k :: k in e.maps ==> e'.maps[k].width >= e.maps[k].width)
  }

  // Replacing the links of depth d touches the counters of depths d and d + 1 only.
  lemma OtherDepths(m: Codes, links: Links, links': Links, d: nat, k: nat)
    requires links'.Keys == links.Keys && k != d && k != d + 1
    requires forall j :: j in links && j != d ==> links'[j] == links[j]
    requires SoundAt(m, links, k)
    ensures SoundAt(m, links', k)
  {
  }

  lemma SoundFacts(e: Enc, d: nat)
    requires Sound(e) && d in e.links
    ensures d in e.maps && SoundAt(e.maps[d], e.links, d)
    ensures d + 1 in e.maps && SoundAt(e.maps[d + 1], e.links, d + 1)
  {
    hide SoundAt;
  }

  lemma ReplaceSound(e: Enc, e': Enc, d: nat)
    requires Sound(e) && d in e.links && SameElsewhere(e, e', d)
    requires SoundAt(e'.maps[d], e'.links, d) && SoundAt(e'.maps[d + 1], e'.links, d + 1)
    ensures Sound(e')
  {
    hide SoundAt;
    forall k | k in e'.maps
      ensures SoundAt(e'.maps[k], e'.links, k)
    {
      if k != d && k != d + 1 {
        assert SoundAt(e.maps[k], e.links, k);
        OtherDepths(e.maps[k], e.links, e'.links, d, k);
      }
    }
  }

  // Removing an encoded link never drives a counter below zero, and leaves a sound state.
  lemma UnlinkSound(e: Enc, d: nat, l: Link)
    requires Sound(e) && d in e.links && l in e.links[d]
    ensures Removed(e.maps[d], l.from, true).1 != Underflow
    ensures Removed(e.maps[d + 1], l.to, false).1 != Underflow
    ensures Sound(Unlink(e, d, l))
  {
    hide SoundAt, Removed, FromCount, ToCount;
    EncodedIsCounted(e, d, l);
    assert SoundAt(e.maps[d], e.links, d) && SoundAt(e.maps[d + 1], e.links, d + 1);
    UnlinkCounts(e.maps[d], e.links, d, l, true);
    UnlinkCounts(e.maps[d + 1], e.links, d, l, false);
    ReplaceSound(e, Unlink(e, d, l), d);
  }

  // One end of a removed link: the mapping of depth d (`fromAs`) or of depth d + 1.
  lemma UnlinkCounts(m: Codes, links: Links, d: nat, l: Link, fromAs: bool)
    requires d in links && l in links[d] && SoundAt(m, links, if fromAs then d else d + 1)
    requires if fromAs then FromCount(m, l.from) > 0 else ToCount(m, l.to) > 0
    ensures Removed(m, if fromAs then l.from else l.to, fromAs).1 != Underflow
    ensures Removed(m, if fromAs then l.from else l.to, fromAs).0.width == m.width
    ensures SoundAt(Removed(m, if fromAs then l.from else l.to, fromAs).0, links[d := links[d] - {l}],
                    if fromAs then d else d + 1)
  {
    var x := if fromAs then l.from else l.to;
    var k := if fromAs then d else d + 1;
    var m' := Removed(m, x, fromAs).0;
    RemovedCounts(m, x, fromAs);
    RemovedWf(m, x, fromAs);
    forall a: Asn
      ensures FromCount(m', a) == |Leaving(links[d := links[d] - {l}], k, a)|
      ensures ToCount(m', a) == |Entering(links[d := links[d] - {l}], k, a)|
    {
      LeavingMinus(links, d, l, k, a);
    }
  }

  // Both ends of an encoded link hold a reference for it.
  lemma EncodedIsCounted(e: Enc, d: nat, l: Link)
    requires Sound(e) && d in e.links && l in e.links[d]
    ensures FromCount(e.maps[d], l.from) > 0 && ToCount(e.maps[d + 1], l.to) > 0
    ensures l.from in e.maps[d].table && l.to in e.maps[d + 1].table
  {
    assert SoundAt(e.maps[d], e.links, d) && SoundAt(e.maps[d + 1], e.links, d + 1);
    assert l in Leaving(e.links, d, l.from) && l in Entering(e.links, d + 1, l.to);
  }

  lemma EncodeSound(e: Enc, d: nat, l: Link, over: bool)
    requires Sound(e) && d in e.links && l !in e.links[d]
    requires Added(e.maps[d], l.from, true, over).1 >= 0
    requires Added(e.maps[d + 1], l.to, false, over).1 >= 0
    ensures Sound(Encode(e, d, l, over))
  {
    hide Sound, SoundAt, Added;
    SoundFacts(e, d);
    EncodeCounts(e.maps[d], e.links, d, l, true, over);
    EncodeCounts(e.maps[d + 1], e.links, d, l, false, over);
    ReplaceSound(e, Encode(e, d, l, over), d);
  }

  lemma EncodeCounts(m: Codes, links: Links, d: nat, l: Link, fromAs: bool, over: bool)
    requires d in links && l !in links[d] && SoundAt(m, links, if fromAs then d else d + 1)
    requires Added(m, if fromAs then l.from else l.to, fromAs, over).1 >= 0
    ensures Added(m, if fromAs then l.from else l.to, fromAs, over).0.width >= m.width
    ensures SoundAt(Added(m, if fromAs then l.from else l.to, fromAs, over).0, links[d := links[d] + {l}],
                    if fromAs then d else d + 1)
  {
    var x := if fromAs then l.from else l.to;
    var k := if fromAs then d else d + 1;
    var m' := Added(m, x, fromAs, over).0;
    AddedCounts(m, x, fromAs, over);
    AddedWf(m, x, fromAs, over);
    forall a: Asn
      ensures FromCount(m', a) == |Leaving(links[d := links[d] + {l}], k, a)|
      ensures ToCount(m', a) == |Entering(links[d := links[d] + {l}], k, a)|
    {
      LeavingPlus(links, d, l, k, a);
    }
  }

  // An AS owns a code at a depth exactly while an encoded link leaves or enters it there.
  lemma OwnsCodeIffTouched(e: Enc, d: nat, a: Asn)
    requires Sound(e) && d in e.maps
    ensures a in e.maps[d].table <==> Leaving(e.links, d, a) != {} || Entering(e.links, d, a) != {}
  {
    assert SoundAt(e.maps[d], e.links, d);
    assert FromCount(e.maps[d], a) == |Leaving(e.links, d, a)|;
    assert ToCount(e.maps[d], a) == |Entering(e.links, d, a)|;
  }

  // With no encoded link leaving or entering a depth, its mapping holds the sentinel only.
  lemma UntouchedMapping(e: Enc, t: nat)
    requires Sound(e) && t in e.maps && e.maps[t].width > 0
    requires t in e.links ==> e.links[t] == {}
    requires t - 1 in e.links ==> e.links[t - 1] == {}
    ensures e.maps[t].table.Keys == {SENTINEL}
    ensures |e.maps[t].table.Keys| == 1
  {
    var m := e.maps[t];
    assert SoundAt(m, e.links, t);
    forall a | a in m.table && a != SENTINEL
      ensures false
    {
      OwnsCodeIffTouched(e, t, a);
    }
    assert m.table.Keys == {SENTINEL};
  }

  // Unlinking keeps every width.
  lemma UnlinkKeepsCodes(e: Enc, d: nat, l: Link)
    ensures CodesKept(e, Unlink(e, d, l))
  {
  }

  lemma UnlinkWidths(e: Enc, d: nat, l: Link)
    ensures Widths(Unlink(e, d, l)) == Widths(e)
  {
  }

  // ---- widths laid end to end ----

  function WidthAt(maps: map<nat, Codes>, d: nat): nat {
    if d in maps then maps[d].width else 0
  }

  // The bits of the fields of the depths below n.
  function BitsBelow(maps: map<nat, Codes>, n: nat): nat {
    if n == 0 then 0 else BitsBelow(maps, n - 1) + WidthAt(maps, n - 1)
  }

  lemma {:induction false} BitsAfterUpdate(maps: map<nat, Codes>, d: nat, m: Codes, n: nat)
    ensures BitsBelow(maps[d := m], n) ==
            BitsBelow(maps, n) + if d < n then m.width - WidthAt(maps, d) else 0
  {
    if n > 0 {
      BitsAfterUpdate(maps, d, m, n - 1);
    }
  }

  lemma {:induction false} BitsDependOnWidths(e: Enc, e': Enc, n: nat)
    requires Widths(e) == Widths(e')
    ensures BitsBelow(e.maps, n) == BitsBelow(e'.maps, n)
  {
    if n > 0 {
      BitsDependOnWidths(e, e', n - 1);
      assert (n - 1 in Widths(e)) == (n - 1 in e.maps) && (n - 1 in Widths(e')) == (n - 1 in e'.maps);
      if n - 1 in e.maps {
        assert Widths(e)[n - 1] == Widths(e')[n - 1];
      }
    }
  }
}
