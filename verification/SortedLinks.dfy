// The per-depth sorted lists of links that `compute_encoding` and `refresh` consume:
// `compute_sortedlist` of xrs/encoding.py and the searches for the next link.
module SortedLinks {
  import opened AsPaths
  import opened AsTopology
  import opened Collections

  // The triple [nb_prefixes, from_node, to_node].
  datatype Item = Item(weight: int, link: Link)

  type Lists = map<nat, seq<Item>>

  // The order of the triples.
  predicate Less(x: Item, y: Item) {
    || x.weight < y.weight
    || (x.weight == y.weight && x.link.from < y.link.from)
    || (x.weight == y.weight && x.link.from == y.link.from && x.link.to < y.link.to)
  }

  ghost predicate Ascending(s: seq<Item>) {
    forall i, j :: 0 <= i < j < |s| ==> Less(s[i], s[j])
  }

  // Depths the caller asked for, within the depths the encoder handles at all.
  predicate Eligible(wanted: Option<set<nat>>, maxDepth: nat, d: nat) {
    (wanted == None || d in wanted.value) && 1 < d <= maxDepth
  }

  // The lists hold exactly the eligible links among `done`, each with its weight, in order.
  ghost predicate Holds(lists: Lists, edges: Edges, wanted: Option<set<nat>>, maxDepth: nat, done: set<(nat, Link)>) {
    && (forall d :: d in lists ==> Eligible(wanted, maxDepth, d) && lists[d] != [] && Ascending(lists[d]))
    && (forall d, x :: d in lists && x in lists[d] ==>
          (d, x.link) in done && Live(edges, d, x.link) && x.weight == Weight(edges, d, x.link))
    && (forall d, l :: (d, l) in done && Eligible(wanted, maxDepth, d) && Live(edges, d, l) ==>
          d in lists && Item(Weight(edges, d, l), l) in lists[d])
  }

  // The lists hold exactly the live links of the eligible depths.
  ghost predicate Complete(lists: Lists, edges: Edges, wanted: Option<set<nat>>, maxDepth: nat) {
    && (forall d :: d in lists ==> Eligible(wanted, maxDepth, d) && lists[d] != [] && Ascending(lists[d]))
    && (forall d, x :: d in lists && x in lists[d] ==>
          Live(edges, d, x.link) && x.weight == Weight(edges, d, x.link))
    && (forall d, l :: Eligible(wanted, maxDepth, d) && Live(edges, d, l) ==>
          d in lists && Item(Weight(edges, d, l), l) in lists[d])
  }

  lemma InsertedInOrder(s: seq<Item>, k: nat, x: Item)
    requires k <= |s| && Ascending(s)
    requires forall i :: 0 <= i < k ==> Less(s[i], x)
    requires k < |s| ==> Less(x, s[k])
    ensures Ascending(s[..k] + [x] + s[k..])
  {
  }

  // `sortedlist.add`.
  method Insert(s: seq<Item>, x: Item) returns (r: seq<Item>)
    requires Ascending(s) && forall y :: y in s ==> y.link != x.link
    ensures Ascending(r) && r != []
    ensures forall y :: y in r <==> y in s || y == x
  {
    var k := 0;
    while k < |s| && Less(s[k], x)
      invariant k <= |s|
      invariant forall i :: 0 <= i < k ==> Less(s[i], x)
    {
      k := k + 1;
    }
    if k < |s| {
      assert s[k] in s;
    }
    InsertedInOrder(s, k, x);
    r := s[..k] + [x] + s[k..];
    assert s == s[..k] + s[k..];
  }

  lemma HoldsAll(lists: Lists, edges: Edges, wanted: Option<set<nat>>, maxDepth: nat, done: set<(nat, Link)>)
    requires Holds(lists, edges, wanted, maxDepth, done)
    requires forall d: nat, l :: Live(edges, d, l) ==> (d, l) in done
    ensures Complete(lists, edges, wanted, maxDepth)
  {
  }

  lemma HoldsMore(lists: Lists, lists': Lists, edges: Edges, wanted: Option<set<nat>>, maxDepth: nat,
                  done: set<(nat, Link)>, d: nat, l: Link)
    requires Holds(lists, edges, wanted, maxDepth, done)
    requires Live(edges, d, l)
    requires !Eligible(wanted, maxDepth, d) ==> lists' == lists
    requires Eligible(wanted, maxDepth, d) ==>
               && lists'.Keys == lists.Keys + {d}
               && (forall k :: k in lists && k != d ==> lists'[k] == lists[k])
               && Ascending(lists'[d]) && lists'[d] != []
               && (forall y :: y in lists'[d] <==>
                               (d in lists && y in lists[d]) || y == Item(Weight(edges, d, l), l))
    ensures Holds(lists', edges, wanted, maxDepth, done + {(d, l)})
  {
    hide Ascending;
  }

  // In plain terms: the lists of the wanted depths from 2 on hold the links of the graph with
  // their numbers of prefixes, in ascending order, equal numbers by the ASes; none is empty.
  lemma CompletePlain(lists: Lists, edges: Edges, wanted: Option<set<nat>>, maxDepth: nat, d: nat)
    requires Complete(lists, edges, wanted, maxDepth)
    ensures d in lists ==> 1 < d <= maxDepth && (wanted == None || d in wanted.value) && lists[d] != []
    ensures d in lists ==> forall x :: x in lists[d] <==>
              x.link in edges && d in edges[x.link].depth && x.weight == edges[x.link].depth[d]
    ensures 1 < d <= maxDepth && (wanted == None || d in wanted.value) && d !in lists ==>
              forall l :: l in edges ==> d !in edges[l].depth
    ensures d in lists ==> forall i, j :: 0 <= i < j < |lists[d]| ==>
              var x, y := lists[d][i], lists[d][j];
              && x.weight <= y.weight
              && (x.weight == y.weight ==>
                    x.link.from < y.link.from || (x.link.from == y.link.from && x.link.to < y.link.to))
  {
    if 1 < d <= maxDepth && (wanted == None || d in wanted.value) {
      forall l | l in edges && d in edges[l].depth
        ensures d in lists && Item(edges[l].depth[d], l) in lists[d]
      {
        assert Eligible(wanted, maxDepth, d) && Live(edges, d, l);
      }
    }
    if d in lists {
      forall x
        ensures x in lists[d] <==> x.link in edges && d in edges[x.link].depth && x.weight == edges[x.link].depth[d]
      {
        assert x == Item(x.weight, x.link);
        assert x in lists[d] ==> Live(edges, d, x.link);
      }
    }
  }

  // `compute_sortedlist`.
  method ComputeSortedList(edges: Edges, wanted: Option<set<nat>>, maxDepth: nat) returns (lists: Lists)
    ensures Complete(lists, edges, wanted, maxDepth)
  {
    lists := map[];
    ghost var done: set<(nat, Link)> := {};
    var todo := edges.Keys;
    while todo != {}
      invariant todo <= edges.Keys
      invariant Holds(lists, edges, wanted, maxDepth, done)
      invariant forall d: nat, l :: (d, l) in done <==> Live(edges, d, l) && l !in todo
      decreases todo
    {
      var l :| l in todo;
      var depths := edges[l].depth.Keys;
      while depths != {}
        invariant depths <= edges[l].depth.Keys
        invariant Holds(lists, edges, wanted, maxDepth, done)
        invariant forall d: nat, k :: (d, k) in done <==>
                                 Live(edges, d, k) && (k !in todo || (k == l && d !in depths))
        decreases depths
      {
        var d :| d in depths;
        ghost var before := lists;
        if Eligible(wanted, maxDepth, d) {
          var s := if d in lists then lists[d] else [];
          s := Insert(s, Item(edges[l].depth[d], l));
          lists := lists[d := s];
        }
        HoldsMore(before, lists, edges, wanted, maxDepth, done, d, l);
        done := done + {(d, l)};
        depths := depths - {d};
      }
      todo := todo - {l};
    }
    HoldsAll(lists, edges, wanted, maxDepth, done);
  }

  // The search of `compute_encoding`: a depth whose last link is heaviest.
  method PickHeaviest(lists: Lists) returns (depth: Option<nat>)
    ensures depth == None ==> forall d :: d in lists ==> lists[d] == []
    ensures depth.Some? ==>
              && depth.value in lists && lists[depth.value] != []
              && forall d :: d in lists && lists[d] != [] ==>
                   lists[d][|lists[d]| - 1].weight <= lists[depth.value][|lists[depth.value]| - 1].weight
  {
    depth := None;
    var todo := lists.Keys;
    while todo != {}
      invariant todo <= lists.Keys
      invariant depth == None ==> forall d :: d in lists && d !in todo ==> lists[d] == []
      invariant depth.Some? ==>
                  && depth.value in lists && lists[depth.value] != []
                  && forall d :: d in lists && d !in todo && lists[d] != [] ==>
                       lists[d][|lists[d]| - 1].weight <= lists[depth.value][|lists[depth.value]| - 1].weight
      decreases todo
    {
      var d :| d in todo;
      todo := todo - {d};
      if |lists[d]| == 0 {
        continue;
      } else if depth == None {
        depth := Some(d);
      } else if lists[d][|lists[d]| - 1].weight > lists[depth.value][|lists[depth.value]| - 1].weight {
        depth := Some(d);
      }
    }
  }

  // The search of `refresh` (with `opti_bits` off): a depth whose first link is lightest.
  method PickLightest(lists: Lists) returns (depth: Option<nat>)
    ensures depth == None ==> forall d :: d in lists ==> lists[d] == []
    ensures depth.Some? ==>
              && depth.value in lists && lists[depth.value] != []
              && forall d :: d in lists && lists[d] != [] ==>
                   lists[depth.value][0].weight <= lists[d][0].weight
  {
    depth := None;
    var todo := lists.Keys;
    while todo != {}
      invariant todo <= lists.Keys
      invariant depth == None ==> forall d :: d in lists && d !in todo ==> lists[d] == []
      invariant depth.Some? ==>
                  && depth.value in lists && lists[depth.value] != []
                  && forall d :: d in lists && d !in todo && lists[d] != [] ==>
                       lists[depth.value][0].weight <= lists[d][0].weight
      decreases todo
    {
      var d :| d in todo;
      todo := todo - {d};
      if |lists[d]| == 0 {
        continue;
      } else if depth == None {
        depth := Some(d);
      } else if lists[d][0].weight < lists[depth.value][0].weight {
        depth := Some(d);
      }
    }
  }
}
