// What one `refresh` of a full mapping does: links are taken in order of growing weight
// and removed from the encoding until half of the code space is free.
module RefreshRun {
  import opened AsPaths
  import opened AsTopology
  import opened BitStrings
  import opened CodeMapping
  import opened EncodingState
  import opened SortedLinks

  function Half(m: Codes): nat
    requires m.width > 0
  {
    Pow2(m.width - 1)
  }

  function Used(e: Enc, t: nat): nat
    requires t in e.maps
  {
    |e.maps[t].table.Keys|
  }

  // Links touch mapping t at depth t, where they leave, and at t - 1, where they enter.
  predicate Touches(d: nat, t: nat) {
    d == t || d + 1 == t
  }

  // `v` lists the weights of the links in `s`, each link once.
  ghost predicate WeightsOf(v: seq<int>, s: set<Link>, order: seq<Link>, edges: Edges, d: nat) {
    && |order| == |v|
    && (forall i, j :: 0 <= i < j < |order| ==> order[i] != order[j])
    && (forall l :: l in order <==> l in s)
    && (forall i :: 0 <= i < |v| ==> Live(edges, d, order[i]) && v[i] == Weight(edges, d, order[i]))
  }

  // From e to e' some encoded links were removed, at depths touching t only.
  ghost predicate Thinned(e: Enc, e': Enc, t: nat) {
    && e'.top == e.top && e'.minimum == e.minimum
    && e'.maps.Keys == e.maps.Keys && e'.links.Keys == e.links.Keys
    && (forall d :: d in e.links ==> e'.links[d] <= e.links[d])
    && (forall d :: d in e.links && !Touches(d, t) ==> e'.links[d] == e.links[d])
    && Widths(e') == Widths(e) && CodesKept(e, e')
  }

  // No removed link carries more prefixes than an encoded link that was kept, and one of the
  // same depth comes before it in the order of the lists.
  ghost predicate LightestFirst(e: Enc, e': Enc, edges: Edges, t: nat) {
    forall d, l, k, m ::
      d in e.links && d in e'.links && l in e.links[d] && l !in e'.links[d] && Live(edges, d, l) &&
      k in e'.links && Touches(k, t) && m in e'.links[k] && Live(edges, k, m)
      ==> Weight(edges, d, l) <= Weight(edges, k, m)
          && (k == d ==> Less(Item(Weight(edges, d, l), l), Item(Weight(edges, k, m), m)))
  }

  // The new thresholds: for a depth with links left, from the weights of exactly those.
  ghost predicate Thresholds(e': Enc, before: map<nat, real>, edges: Edges, t: nat,
                             percentile: seq<int> -> real) {
    && (forall d :: d in e'.links && Touches(d, t) && e'.links[d] != {} ==>
          && d in e'.minimum
          && exists v, order :: WeightsOf(v, e'.links[d], order, edges, d) && e'.minimum[d] == percentile(v))
    && (forall d :: d in before && (d !in e'.links || !Touches(d, t) || e'.links[d] == {}) ==>
          d in e'.minimum && e'.minimum[d] == before[d])
    && (forall d :: d in e'.minimum && (d !in e'.links || !Touches(d, t) || e'.links[d] == {}) ==> d in before)
  }

  // The contract of `refresh(t)`. If more than half of the space was used, exactly half is
  // used afterwards; otherwise no link is removed.
  ghost predicate Refreshed(e: Enc, e': Enc, edges: Edges, t: nat, percentile: seq<int> -> real) {
    && t in e.maps && t in e'.maps && e.maps[t].width > 0 && Sound(e')
    && Thinned(e, e'.(minimum := e.minimum), t)
    && (Used(e, t) > Half(e.maps[t]) ==> Used(e', t) == Half(e.maps[t]))
    && (Used(e, t) <= Half(e.maps[t]) ==> e'.maps == e.maps && e'.links == e.links)
    && LightestFirst(e, e', edges, t)
    && Thresholds(e', e.minimum, edges, t, percentile)
  }

  // ---- the loop ----

  // Popped links that stayed in the encoding, per depth, in the order of `vecs`.
  type Kept = map<nat, seq<Link>>

  ghost predicate Pending(lists: Lists, edges: Edges, d: nat, l: Link) {
    d in lists && Live(edges, d, l) && Item(Weight(edges, d, l), l) in lists[d]
  }

  // `v` holds the weights of the encoded links in `order`.
  ghost predicate Recorded(e: Enc, edges: Edges, order: seq<Link>, v: seq<int>, d: nat) {
    && |v| == |order|
    && (forall i, j :: 0 <= i < j < |order| ==> order[i] != order[j])
    && (forall i :: 0 <= i < |order| ==>
          && d in e.links && order[i] in e.links[d]
          && Live(edges, d, order[i]) && v[i] == Weight(edges, d, order[i]))
  }

  ghost predicate NonePending(lists: Lists, edges: Edges, order: seq<Link>, d: nat) {
    forall l :: l in order ==> !Pending(lists, edges, d, l)
  }

  ghost predicate KeptAt(e: Enc, edges: Edges, lists: Lists, order: seq<Link>, v: seq<int>, d: nat) {
    Recorded(e, edges, order, v, d) && NonePending(lists, edges, order, d)
  }

  ghost predicate KeptOk(e: Enc, edges: Edges, lists: Lists, kept: Kept, vecs: map<nat, seq<int>>, d: nat)
    requires d in lists && d in kept && d in vecs
  {
    KeptAt(e, edges, lists, kept[d], vecs[d], d)
  }

  ghost predicate ListsOk(lists: Lists, edges: Edges, t: nat) {
    forall d :: d in lists ==>
      && Touches(d, t) && Ascending(lists[d])
      && forall x :: x in lists[d] ==> Live(edges, d, x.link) && x.weight == Weight(edges, d, x.link)
  }

  // Every encoded link touching t is still to come or was kept.
  ghost predicate NoneMissed(e: Enc, edges: Edges, lists: Lists, kept: Kept, t: nat) {
    forall d, l :: d in e.links && Touches(d, t) && l in e.links[d] ==>
                     d in lists && d in kept && (Pending(lists, edges, d, l) || l in kept[d])
  }

  ghost predicate During(e0: Enc, e: Enc, edges: Edges, t: nat, lists: Lists, kept: Kept, vecs: map<nat, seq<int>>) {
    && Sound(e) && t in e0.maps && t in e.maps && e0.maps[t].width > 0
    && Thinned(e0, e, t)
    && lists.Keys == kept.Keys == vecs.Keys
    && ListsOk(lists, edges, t)
    && (forall d :: d in lists ==> KeptOk(e, edges, lists, kept, vecs, d))
    && NoneMissed(e, edges, lists, kept, t)
    && (Used(e, t) > Half(e0.maps[t]) ==> forall d :: d in kept ==> kept[d] == [])
    && (Used(e0, t) > Half(e0.maps[t]) ==> Used(e, t) >= Half(e0.maps[t]))
    && (Used(e0, t) <= Half(e0.maps[t]) ==> e == e0)
    && LightestFirst(e0, e, edges, t)
  }

  lemma WidthOf(e: Enc, e': Enc, d: nat)
    requires Widths(e) == Widths(e') && d in e.maps && d in e'.maps
    ensures e.maps[d].width == e'.maps[d].width
  {
    assert Widths(e)[d] == e.maps[d].width && Widths(e')[d] == e'.maps[d].width;
  }

  // Removing one link frees at most one code of a mapping.
  lemma UnlinkUsed(e: Enc, d: nat, l: Link, t: nat)
    requires Sound(e) && t in e.maps
    ensures t in Unlink(e, d, l).maps
    ensures Used(e, t) - 1 <= Used(Unlink(e, d, l), t) <= Used(e, t)
  {
  }

  lemma NothingLeft(e: Enc, edges: Edges, t: nat, lists: Lists, kept: Kept)
    requires NoneMissed(e, edges, lists, kept, t)
    requires forall d :: d in lists ==> lists[d] == []
    requires forall d :: d in kept ==> kept[d] == []
    ensures forall d :: d in e.links && Touches(d, t) ==> e.links[d] == {}
  {
  }

  // If every link has been examined, the mapping is at most half full.
  lemma ExhaustedMeansHalf(e0: Enc, e: Enc, edges: Edges, t: nat, lists: Lists, kept: Kept, vecs: map<nat, seq<int>>)
    requires During(e0, e, edges, t, lists, kept, vecs)
    requires forall d :: d in lists ==> lists[d] == []
    ensures Used(e, t) <= Half(e0.maps[t])
  {
    if Used(e, t) > Half(e0.maps[t]) {
      WidthOf(e0, e, t);
      NothingLeft(e, edges, t, lists, kept);
      UntouchedMapping(e, t);
    }
  }

  // The iteration that removes the lightest remaining link.
  lemma RemoveStep(e0: Enc, e: Enc, edges: Edges, t: nat, lists: Lists, kept: Kept, vecs: map<nat, seq<int>>, d: nat)
    requires During(e0, e, edges, t, lists, kept, vecs)
    requires d in lists && lists[d] != []
    requires forall k :: k in lists && lists[k] != [] ==> lists[d][0].weight <= lists[k][0].weight
    requires Used(e, t) > Half(e0.maps[t])
    ensures During(e0, Unlink(e, d, lists[d][0].link), edges, t, lists[d := lists[d][1..]], kept, vecs)
  {
    hide SoundAt, Removed, LightestFirst, NoneMissed, Thinned;
    var x := lists[d][0];
    var e' := Unlink(e, d, x.link);
    var lists' := lists[d := lists[d][1..]];
    if d in e.links && x.link in e.links[d] {
      UnlinkSound(e, d, x.link);
    }
    UnlinkUsed(e, d, x.link, t);
    UnlinkWidths(e, d, x.link);
    UnlinkThinned(e0, e, d, x.link, t);
    RemoveLightest(e0, e, edges, t, lists, kept, d);
    PopLists(lists, edges, t, d);
    UnlinkNoneMissed(e, edges, lists, kept, t, d);
  }

  lemma UnlinkThinned(e0: Enc, e: Enc, d: nat, l: Link, t: nat)
    requires Sound(e) && Thinned(e0, e, t) && Touches(d, t)
    ensures Thinned(e0, Unlink(e, d, l), t)
  {
    hide SoundAt, Removed, CodesKept;
    UnlinkWidths(e, d, l);
    UnlinkKeepsCodes(e, d, l);
    CodesKeptTransitive(e0, e, Unlink(e, d, l));
  }

  lemma PopLists(lists: Lists, edges: Edges, t: nat, d: nat)
    requires ListsOk(lists, edges, t) && d in lists && lists[d] != []
    ensures ListsOk(lists[d := lists[d][1..]], edges, t)
    ensures forall k, l :: Pending(lists[d := lists[d][1..]], edges, k, l) ==> Pending(lists, edges, k, l)
    ensures forall k, l :: Pending(lists, edges, k, l) && !(k == d && l == lists[d][0].link) ==>
              Pending(lists[d := lists[d][1..]], edges, k, l)
    ensures !Pending(lists[d := lists[d][1..]], edges, d, lists[d][0].link)
  {
  }

  // The lightest pending link weighs no more than any encoded link touching t.
  lemma RemoveLightest(e0: Enc, e: Enc, edges: Edges, t: nat, lists: Lists, kept: Kept, d: nat)
    requires Sound(e) && Thinned(e0, e, t)
    requires ListsOk(lists, edges, t) && NoneMissed(e, edges, lists, kept, t)
    requires forall k :: k in kept ==> kept[k] == []
    requires d in lists && lists[d] != []
    requires forall k :: k in lists && lists[k] != [] ==> lists[d][0].weight <= lists[k][0].weight
    requires LightestFirst(e0, e, edges, t)
    ensures LightestFirst(e0, Unlink(e, d, lists[d][0].link), edges, t)
  {
    var x := lists[d][0];
    var e' := Unlink(e, d, x.link);
    assert x in lists[d];
    forall k, m | k in e.links && Touches(k, t) && m in e.links[k] && Live(edges, k, m)
      ensures x.weight <= Weight(edges, k, m)
      ensures k == d && m != x.link ==> Less(x, Item(Weight(edges, k, m), m))
    {
      assert Pending(lists, edges, k, m);
      HeadIsLightest(lists[k], Item(Weight(edges, k, m), m));
    }
    forall c, l, k, m |
      c in e0.links && c in e'.links && l in e0.links[c] && l !in e'.links[c] && Live(edges, c, l) &&
      k in e'.links && Touches(k, t) && m in e'.links[k] && Live(edges, k, m)
      ensures Weight(edges, c, l) <= Weight(edges, k, m)
      ensures k == c ==> Less(Item(Weight(edges, c, l), l), Item(Weight(edges, k, m), m))
    {
      assert m in e.links[k];
      if l in e.links[c] {
        assert c == d && l == x.link;
        assert x == Item(Weight(edges, c, l), l);
        assert k == d ==> m != x.link;
      }
    }
  }

  lemma HeadIsLightest(s: seq<Item>, y: Item)
    requires Ascending(s) && y in s
    ensures s[0].weight <= y.weight && (y == s[0] || Less(s[0], y))
  {
  }

  lemma UnlinkNoneMissed(e: Enc, edges: Edges, lists: Lists, kept: Kept, t: nat, d: nat)
    requires Sound(e) && ListsOk(lists, edges, t) && NoneMissed(e, edges, lists, kept, t)
    requires d in lists && lists[d] != []
    ensures NoneMissed(Unlink(e, d, lists[d][0].link), edges, lists[d := lists[d][1..]], kept, t)
  {
  }

  // The iteration that only records the weight of a link, or passes over it.
  lemma KeepStep(e0: Enc, e: Enc, edges: Edges, t: nat, lists: Lists, kept: Kept, vecs: map<nat, seq<int>>, d: nat)
    requires During(e0, e, edges, t, lists, kept, vecs)
    requires d in lists && lists[d] != []
    requires Used(e, t) <= Half(e0.maps[t])
    ensures var x := lists[d][0];
            var encoded := d in e.links && x.link in e.links[d];
            During(e0, e, edges, t, lists[d := lists[d][1..]],
                   if encoded then kept[d := kept[d] + [x.link]] else kept,
                   if encoded then vecs[d := vecs[d] + [x.weight]] else vecs)
  {
    hide Sound, LightestFirst, Thinned, KeptAt, Pending, NoneMissed;
    var x := lists[d][0];
    HeadIsPending(lists, edges, t, d);
    PopLists(lists, edges, t, d);
    var lists' := lists[d := lists[d][1..]];
    if d in e.links && x.link in e.links[d] {
      KeepOk(e, edges, t, lists, kept, vecs, d);
    } else {
      forall k | k in lists'
        ensures KeptOk(e, edges, lists', kept, vecs, k)
      {
        assert KeptOk(e, edges, lists, kept, vecs, k);
        KeptShrinks(e, edges, lists, lists', kept[k], vecs[k], k);
      }
      PassNoneMissed(e, edges, t, lists, kept, d);
    }
  }

  lemma KeepOk(e: Enc, edges: Edges, t: nat, lists: Lists, kept: Kept, vecs: map<nat, seq<int>>, d: nat)
    requires ListsOk(lists, edges, t) && lists.Keys == kept.Keys == vecs.Keys
    requires forall k :: k in lists ==> KeptOk(e, edges, lists, kept, vecs, k)
    requires NoneMissed(e, edges, lists, kept, t)
    requires d in lists && lists[d] != [] && d in e.links && lists[d][0].link in e.links[d]
    ensures var x := lists[d][0];
            var lists' := lists[d := lists[d][1..]];
            var kept' := kept[d := kept[d] + [x.link]];
            && (forall k :: k in lists' ==> KeptOk(e, edges, lists', kept', vecs[d := vecs[d] + [x.weight]], k))
            && NoneMissed(e, edges, lists', kept', t)
  {
    hide NoneMissed, KeptAt, ListsOk, Pending;
    var x := lists[d][0];
    var lists' := lists[d := lists[d][1..]];
    var kept', vecs' := kept[d := kept[d] + [x.link]], vecs[d := vecs[d] + [x.weight]];
    HeadIsPending(lists, edges, t, d);
    PopLists(lists, edges, t, d);
    forall k | k in lists'
      ensures KeptOk(e, edges, lists', kept', vecs', k)
    {
      assert KeptOk(e, edges, lists, kept, vecs, k);
      KeptShrinks(e, edges, lists, lists', kept[k], vecs[k], k);
      if k == d {
        KeptGrows(e, edges, lists, lists', kept[d], vecs[d], d, x);
      }
    }
    KeepNoneMissed(e, edges, t, lists, kept, d);
  }

  lemma HeadIsPending(lists: Lists, edges: Edges, t: nat, d: nat)
    requires ListsOk(lists, edges, t) && d in lists && lists[d] != []
    ensures var x := lists[d][0];
            Live(edges, d, x.link) && x.weight == Weight(edges, d, x.link) && Pending(lists, edges, d, x.link)
  {
    assert lists[d][0] in lists[d];
  }

  lemma KeptShrinks(e: Enc, edges: Edges, lists: Lists, lists': Lists, order: seq<Link>, v: seq<int>, d: nat)
    requires KeptAt(e, edges, lists, order, v, d)
    requires forall l :: Pending(lists', edges, d, l) ==> Pending(lists, edges, d, l)
    ensures KeptAt(e, edges, lists', order, v, d)
  {
    hide Recorded, Pending;
  }

  lemma KeptGrows(e: Enc, edges: Edges, lists: Lists, lists': Lists, order: seq<Link>, v: seq<int>, d: nat, x: Item)
    requires KeptAt(e, edges, lists, order, v, d) && KeptAt(e, edges, lists', order, v, d)
    requires Pending(lists, edges, d, x.link) && !Pending(lists', edges, d, x.link)
    requires d in e.links && x.link in e.links[d] && Live(edges, d, x.link) && x.weight == Weight(edges, d, x.link)
    ensures KeptAt(e, edges, lists', order + [x.link], v + [x.weight], d)
  {
    hide Pending;
  }

  lemma PassNoneMissed(e: Enc, edges: Edges, t: nat, lists: Lists, kept: Kept, d: nat)
    requires ListsOk(lists, edges, t) && NoneMissed(e, edges, lists, kept, t)
    requires d in lists && lists[d] != [] && !(d in e.links && lists[d][0].link in e.links[d])
    ensures NoneMissed(e, edges, lists[d := lists[d][1..]], kept, t)
  {
    hide Pending;
    PopLists(lists, edges, t, d);
  }

  lemma KeepNoneMissed(e: Enc, edges: Edges, t: nat, lists: Lists, kept: Kept, d: nat)
    requires ListsOk(lists, edges, t) && lists.Keys == kept.Keys && NoneMissed(e, edges, lists, kept, t)
    requires d in lists && lists[d] != []
    ensures NoneMissed(e, edges, lists[d := lists[d][1..]], kept[d := kept[d] + [lists[d][0].link]], t)
  {
    var lists' := lists[d := lists[d][1..]];
    var kept' := kept[d := kept[d] + [lists[d][0].link]];
    PopLists(lists, edges, t, d);
    forall k, l | k in e.links && Touches(k, t) && l in e.links[k]
      ensures k in lists' && k in kept' && (Pending(lists', edges, k, l) || l in kept'[k])
    {
      assert Pending(lists, edges, k, l) || l in kept[k];
    }
  }

  // At the end the recorded weights are those of exactly the links still encoded.
  lemma Finished(e0: Enc, e: Enc, edges: Edges, t: nat, lists: Lists, kept: Kept, vecs: map<nat, seq<int>>, d: nat)
    requires During(e0, e, edges, t, lists, kept, vecs)
    requires forall k :: k in lists ==> lists[k] == []
    requires d in e.links && Touches(d, t)
    ensures d !in lists ==> e.links[d] == {}
    ensures d in lists ==> WeightsOf(vecs[d], e.links[d], kept[d], edges, d)
  {
  }
}
