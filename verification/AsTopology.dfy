// The weighted AS graph of one peer: class `ASTopology` of xrs/as_topology.py.
module AsTopology {
  import opened AsPaths
  import opened Collections

  datatype Degree = Degree(outPrefixes: int, inPrefixes: int)

  // A missing 'prefixes' attribute is the empty set.
  datatype EdgeData = EdgeData(prefixCounter: int, depth: map<nat, int>, prefixes: set<Prefix>)

  type Nodes = map<Asn, Degree>
  type Edges = map<Link, EdgeData>

  // The value a counter has in the graph; absent nodes, edges and depths count 0.
  function Reading(nodes: Nodes, edges: Edges, c: Counter): int {
    match c
    case OutOf(a) => if a in nodes then nodes[a].outPrefixes else 0
    case InTo(a) => if a in nodes then nodes[a].inPrefixes else 0
    case On(l) => if l in edges then edges[l].prefixCounter else 0
    case At(l, d) => if l in edges && d in edges[l].depth then edges[l].depth[d] else 0
  }

  // Some route still crosses the link at that depth.
  predicate Live(edges: Edges, depth: nat, l: Link) {
    l in edges && depth in edges[l].depth
  }

  function Weight(edges: Edges, depth: nat, l: Link): int
    requires Live(edges, depth, l)
  {
    edges[l].depth[depth]
  }

  // A depth is recorded only while it carries a prefix.
  ghost predicate PositiveDepths(edges: Edges) {
    forall d, l :: Live(edges, d, l) ==> Weight(edges, d, l) > 0
  }

  // The two threshold sets hold exactly the nodes at or above the threshold.
  ghost predicate AtOrAbove(nodes: Nodes, threshold: int, forward: set<Asn>, backward: set<Asn>) {
    && (forall a :: a in forward <==> a in nodes && nodes[a].outPrefixes >= threshold)
    && (forall a :: a in backward <==> a in nodes && nodes[a].inPrefixes >= threshold)
  }

  // ---- one link more or less, on values ----

  function Bump(nodes: Nodes, a: Asn, dOut: int, dIn: int): Nodes {
    var n := if a in nodes then nodes[a] else Degree(0, 0);
    nodes[a := Degree(n.outPrefixes + dOut, n.inPrefixes + dIn)]
  }

  function NodesPlus(nodes: Nodes, l: Link, delta: int): Nodes {
    Bump(Bump(nodes, l.from, delta, 0), l.to, 0, delta)
  }

  function EdgePlus(edges: Edges, l: Link, depth: nat, more: set<Prefix>): Edges {
    var e := if l in edges then edges[l] else EdgeData(0, map[], {});
    edges[l := EdgeData(e.prefixCounter + 1,
                        e.depth[depth := (if depth in e.depth then e.depth[depth] else 0) + 1],
                        e.prefixes + more)]
  }

  function EdgeMinus(edges: Edges, l: Link, depth: nat, less: set<Prefix>): Edges
    requires Live(edges, depth, l)
  {
    var e := edges[l];
    edges[l := EdgeData(e.prefixCounter - 1,
                        if e.depth[depth] == 1 then e.depth - {depth} else e.depth[depth := e.depth[depth] - 1],
                        e.prefixes - less)]
  }

  lemma ReadingPlus(nodes: Nodes, edges: Edges, l: Link, depth: nat, more: set<Prefix>, c: Counter)
    ensures Reading(NodesPlus(nodes, l, 1), EdgePlus(edges, l, depth, more), c) ==
            Reading(nodes, edges, c) + Hit(c, l, depth)
  {
  }

  lemma ReadingMinus(nodes: Nodes, edges: Edges, l: Link, depth: nat, less: set<Prefix>, c: Counter)
    requires Live(edges, depth, l)
    ensures Reading(NodesPlus(nodes, l, -1), EdgeMinus(edges, l, depth, less), c) ==
            Reading(nodes, edges, c) - Hit(c, l, depth)
  {
  }

  lemma PositivePlus(edges: Edges, l: Link, depth: nat, more: set<Prefix>)
    requires PositiveDepths(edges)
    ensures PositiveDepths(EdgePlus(edges, l, depth, more))
  {
    var edges' := EdgePlus(edges, l, depth, more);
    forall d, k | Live(edges', d, k)
      ensures Weight(edges', d, k) > 0
    {
      assert Live(edges, d, k) ==> Weight(edges, d, k) > 0;
    }
  }

  lemma PositiveMinus(edges: Edges, l: Link, depth: nat, less: set<Prefix>)
    requires PositiveDepths(edges) && Live(edges, depth, l)
    ensures PositiveDepths(EdgeMinus(edges, l, depth, less))
  {
    var edges' := EdgeMinus(edges, l, depth, less);
    forall d, k | Live(edges', d, k)
      ensures Weight(edges', d, k) > 0
    {
      assert Live(edges, d, k) && Weight(edges, d, k) > 0;
    }
  }

  // ---- the state in the middle of `add` and of `remove` ----

  // The links of the installed paths have an edge.
  ghost predicate OwnersKnown(edges: Edges, owner: map<Prefix, Path>) {
    forall l, q :: q in owner && Crosses(owner[q], l) ==> l in edges
  }

  // Every counter equals its recount over `bag`, plus or minus what the first i links of
  // `path` contribute.
  ghost predicate Counted(nodes: Nodes, edges: Edges, bag: multiset<Path>, path: Path, i: nat, up: bool)
    requires i <= LinkCount(path)
  {
    forall c :: Reading(nodes, edges, c) ==
                if up then Total(bag, c) + Hits(c, path, i) else Total(bag, c) - Hits(c, path, i)
  }

  // The prefix set of an edge holds the prefixes whose installed path crosses it.
  ghost predicate ExactPrefixSets(edges: Edges, owner: map<Prefix, Path>) {
    forall l, q :: l in edges ==> (q in edges[l].prefixes <==> q in owner && Crosses(owner[q], l))
  }

  // The per-edge prefix sets when the first i links of `path` are also in for `also`.
  ghost predicate PrefixSetsWith(edges: Edges, owner: map<Prefix, Path>, also: set<Prefix>, path: Path, i: nat)
    requires i <= LinkCount(path)
  {
    forall l, q :: l in edges ==>
                     (q in edges[l].prefixes <==>
                      (q in owner && Crosses(owner[q], l)) || (q in also && CrossesBefore(path, i, l)))
  }

  // The same when the first i links of `path` have been taken out again.
  ghost predicate PrefixSetsWithout(edges: Edges, owner: map<Prefix, Path>, except: set<Prefix>, path: Path, i: nat)
    requires i <= LinkCount(path)
  {
    forall l, q :: l in edges ==>
                     (q in edges[l].prefixes <==>
                      q in owner && Crosses(owner[q], l) && !(q in except && CrossesBefore(path, i, l)))
  }

  // Between two calls: every counter equals its recount over the paths that are in.
  ghost predicate Consistent(nodes: Nodes, edges: Edges, silent: bool, bag: multiset<Path>, owner: map<Prefix, Path>) {
    && PositiveDepths(edges) && OwnersKnown(edges, owner)
    && (forall c :: Reading(nodes, edges, c) == Total(bag, c))
    && (!silent ==> ExactPrefixSets(edges, owner))
  }

  ghost predicate Adding(nodes: Nodes, edges: Edges, bag: multiset<Path>, owner: map<Prefix, Path>,
                         silent: bool, also: set<Prefix>, path: Path, i: nat)
    requires i <= LinkCount(path)
  {
    && PositiveDepths(edges) && OwnersKnown(edges, owner)
    && Counted(nodes, edges, bag, path, i, true)
    && (forall l :: CrossesBefore(path, i, l) ==> l in edges)
    && (!silent ==> PrefixSetsWith(edges, owner, also, path, i))
  }

  ghost predicate Removing(nodes: Nodes, edges: Edges, bag: multiset<Path>, owner: map<Prefix, Path>,
                           silent: bool, except: set<Prefix>, path: Path, i: nat)
    requires i <= LinkCount(path)
  {
    && PositiveDepths(edges) && OwnersKnown(edges, owner)
    && Counted(nodes, edges, bag, path, i, false)
    && (!silent ==> PrefixSetsWithout(edges, owner, except, path, i))
  }

  lemma AddingStep(nodes: Nodes, edges: Edges, bag: multiset<Path>, owner: map<Prefix, Path>,
                   silent: bool, also: set<Prefix>, path: Path, i: nat)
    requires i < LinkCount(path)
    requires Adding(nodes, edges, bag, owner, silent, also, path, i)
    ensures var l := LinkAt(path, i);
            Adding(NodesPlus(nodes, l, 1), EdgePlus(edges, l, i + 1, also), bag, owner, silent, also, path, i + 1)
  {
    var l := LinkAt(path, i);
    var nodes', edges' := NodesPlus(nodes, l, 1), EdgePlus(edges, l, i + 1, also);
    PositivePlus(edges, l, i + 1, also);
    CrossesNext(path, i);
    forall c
      ensures Reading(nodes', edges', c) == Total(bag, c) + Hits(c, path, i + 1)
    {
      ReadingPlus(nodes, edges, l, i + 1, also, c);
    }
    assert Counted(nodes', edges', bag, path, i + 1, true);
  }

  lemma RemovingStep(nodes: Nodes, edges: Edges, bag: multiset<Path>, owner: map<Prefix, Path>,
                     silent: bool, except: set<Prefix>, path: Path, i: nat)
    requires i < LinkCount(path) && Live(edges, i + 1, LinkAt(path, i))
    requires Removing(nodes, edges, bag, owner, silent, except, path, i)
    ensures var l := LinkAt(path, i);
            Removing(NodesPlus(nodes, l, -1), EdgeMinus(edges, l, i + 1, except), bag, owner, silent, except, path,
                     i + 1)
  {
    var l := LinkAt(path, i);
    var nodes', edges' := NodesPlus(nodes, l, -1), EdgeMinus(edges, l, i + 1, except);
    PositiveMinus(edges, l, i + 1, except);
    CrossesNext(path, i);
    forall c
      ensures Reading(nodes', edges', c) == Total(bag, c) - Hits(c, path, i + 1)
    {
      ReadingMinus(nodes, edges, l, i + 1, except, c);
    }
    assert Counted(nodes', edges', bag, path, i + 1, false);
  }

  // While a path that is in is being taken out, every counter its next link needs is
  // still positive, so no lookup and no decrement can fail.
  lemma ReadingsSuffice(nodes: Nodes, edges: Edges, bag: multiset<Path>, path: Path, i: nat)
    requires i < LinkCount(path) && path in bag
    requires Counted(nodes, edges, bag, path, i, false)
    ensures Reading(nodes, edges, OutOf(path[i])) > 0
    ensures Reading(nodes, edges, InTo(path[i + 1])) > 0
    ensures Live(edges, i + 1, LinkAt(path, i))
  {
    CounterSuffices(OutOf(path[i]), bag, path, i);
    CounterSuffices(InTo(path[i + 1]), bag, path, i);
    CounterSuffices(At(LinkAt(path, i), i + 1), bag, path, i);
    assert Reading(nodes, edges, At(LinkAt(path, i), i + 1)) > 0;
  }

  // The prefix is missing from the set of the next link exactly when that link has been
  // crossed before.
  lemma MissingPrefix(edges: Edges, owner: map<Prefix, Path>, q: Prefix, path: Path, i: nat)
    requires i < LinkCount(path) && LinkAt(path, i) in edges
    requires q in owner && owner[q] == path
    requires PrefixSetsWithout(edges, owner, {q}, path, i)
    ensures q in edges[LinkAt(path, i)].prefixes <==> !CrossesBefore(path, i, LinkAt(path, i))
    ensures CrossesBefore(path, i, LinkAt(path, i)) ==> !NoRepeatedLink(path)
  {
  }

  lemma CounterSuffices(c: Counter, bag: multiset<Path>, path: Path, i: nat)
    requires i < LinkCount(path) && path in bag
    requires Hit(c, LinkAt(path, i), i + 1) == 1
    ensures Total(bag, c) - Hits(c, path, i) > 0
  {
    TotalSplit(bag, path, c);
    HitsMonotone(c, path, i + 1, LinkCount(path));
  }

  lemma CrossesNext(path: Path, i: nat)
    requires i < LinkCount(path)
    ensures forall l :: CrossesBefore(path, i + 1, l) <==> CrossesBefore(path, i, l) || l == LinkAt(path, i)
  {
    forall l
      ensures CrossesBefore(path, i + 1, l) <==> CrossesBefore(path, i, l) || l == LinkAt(path, i)
    {
      if CrossesBefore(path, i, l) {
        var j :| 0 <= j < i && LinkAt(path, j) == l;
        assert 0 <= j < i + 1;
      }
    }
  }

  // Once every link is in, the graph is consistent with one path more.
  lemma AddingDone(nodes: Nodes, edges: Edges, bag: multiset<Path>, owner: map<Prefix, Path>,
                   silent: bool, prefix: Option<Prefix>, path: Path)
    requires prefix.Some? ==> prefix.value !in owner
    requires Adding(nodes, edges, bag, owner, silent, if !silent && prefix.Some? then {prefix.value} else {},
                    path, LinkCount(path))
    ensures Consistent(nodes, edges, silent, bag + Weighing(path), Installed(owner, prefix, path))
  {
    forall c
      ensures Reading(nodes, edges, c) == Total(bag + Weighing(path), c)
    {
      if LinkCount(path) == 0 {
        assert bag + Weighing(path) == bag;
      } else {
        TotalAdd(bag, path, c);
      }
    }
  }

  // Once every link is out, the graph is consistent with one path less.
  lemma RemovingDone(nodes: Nodes, edges: Edges, bag: multiset<Path>, owner: map<Prefix, Path>,
                     silent: bool, prefix: Option<Prefix>, path: Path)
    requires LinkCount(path) > 0 ==> path in bag
    requires LinkCount(path) > 0 && prefix.Some? ==> prefix.value in owner && owner[prefix.value] == path
    requires Removing(nodes, edges, bag, owner, silent, if !silent && prefix.Some? then {prefix.value} else {},
                      path, LinkCount(path))
    ensures Consistent(nodes, edges, silent, bag - Weighing(path), Uninstalled(owner, prefix, path))
  {
    forall c
      ensures Reading(nodes, edges, c) == Total(bag - Weighing(path), c)
    {
      if LinkCount(path) == 0 {
        assert bag - Weighing(path) == bag;
      } else {
        TotalSplit(bag, path, c);
      }
    }
  }

  function Installed(owner: map<Prefix, Path>, prefix: Option<Prefix>, path: Path): map<Prefix, Path> {
    if prefix.Some? && LinkCount(path) > 0 then owner[prefix.value := path] else owner
  }

  function Uninstalled(owner: map<Prefix, Path>, prefix: Option<Prefix>, path: Path): map<Prefix, Path> {
    if prefix.Some? && LinkCount(path) > 0 then owner - {prefix.value} else owner
  }

  class ASTopology {
    const wThreshold: int
    const silent: bool
    var node: Nodes
    var edge: Edges
    var nodesForward: set<Asn>
    var nodesBackward: set<Asn>

    // The paths counted at the moment, and the path installed for each prefix.
    ghost var bag: multiset<Path>
    ghost var owner: map<Prefix, Path>

    ghost predicate ThresholdSets()
      reads this
    {
      wThreshold >= 1 && AtOrAbove(node, wThreshold, nodesForward, nodesBackward)
    }

    ghost predicate Valid()
      reads this
    {
      ThresholdSets() && Consistent(node, edge, silent, bag, owner)
    }

    constructor (wThreshold: int, silent: bool)
      requires wThreshold >= 1
      ensures Valid() && this.wThreshold == wThreshold && this.silent == silent
      ensures bag == multiset{} && owner == map[] && edge == map[]
    {
      this.wThreshold, this.silent := wThreshold, silent;
      node, edge, nodesForward, nodesBackward := map[], map[], {}, {};
      bag, owner := multiset{}, map[];
    }

    // Prefixes a call adds to, or takes from, the prefix sets.
    function Tracked(prefix: Option<Prefix>): set<Prefix> {
      if !silent && prefix.Some? then {prefix.value} else {}
    }

    // The node attributes in one iteration of the loop of `add`.
    method CountNodes(a: Asn, b: Asn)
      modifies `node
      ensures node == NodesPlus(old(node), Link(a, b), 1)
    {
      if a !in node {
        node := node[a := Degree(0, 0)];
      }
      if b !in node {
        node := node[b := Degree(0, 0)];
      }
      node := node[a := node[a].(outPrefixes := node[a].outPrefixes + 1)];
      node := node[b := node[b].(inPrefixes := node[b].inPrefixes + 1)];
      assert node == NodesPlus(old(node), Link(a, b), 1);
    }

    // The edge attributes in one iteration of the loop of `add`.
    method CountEdge(a: Asn, b: Asn, depth: nat, prefix: Option<Prefix>)
      modifies `edge
      ensures edge == EdgePlus(old(edge), Link(a, b), depth, Tracked(prefix))
    {
      var l := Link(a, b);
      var e := if l in edge then edge[l] else EdgeData(0, map[], {});
      e := e.(prefixCounter := e.prefixCounter + 1);
      if depth !in e.depth {
        e := e.(depth := e.depth[depth := 0]);
      }
      e := e.(depth := e.depth[depth := e.depth[depth] + 1]);
      assert e.depth == EdgePlus(edge, l, depth, {})[l].depth;
      if !silent && prefix.Some? {
        e := e.(prefixes := e.prefixes + {prefix.value});
      }
      assert e == EdgePlus(edge, l, depth, Tracked(prefix))[l];
      edge := edge[l := e];
    }

    // One iteration of the loop of `add`.
    method AddLink(a: Asn, b: Asn, depth: nat, prefix: Option<Prefix>)
      requires ThresholdSets()
      modifies `node, `edge, `nodesForward, `nodesBackward
      ensures ThresholdSets() && node == NodesPlus(old(node), Link(a, b), 1)
      ensures edge == EdgePlus(old(edge), Link(a, b), depth, Tracked(prefix))
    {
      CountNodes(a, b);
      if node[a].outPrefixes == wThreshold {
        nodesForward := nodesForward + {a};
      }
      if node[b].inPrefixes == wThreshold {
        nodesBackward := nodesBackward + {b};
      }
      CountEdge(a, b, depth, prefix);
    }

    method Add(path: Path, prefix: Option<Prefix>)
      requires Valid()
      requires prefix.Some? ==> prefix.value !in owner
      modifies this
      ensures Valid()
      ensures bag == old(bag) + Weighing(path)
      ensures owner == Installed(old(owner), prefix, path)
    {
      var i := 0;
      while i < |path| - 1
        invariant 0 <= i <= LinkCount(path)
        invariant ThresholdSets() && bag == old(bag) && owner == old(owner)
        invariant Adding(node, edge, bag, owner, silent, Tracked(prefix), path, i)
      {
        AddingStep(node, edge, bag, owner, silent, Tracked(prefix), path, i);
        AddLink(path[i], path[i + 1], i + 1, prefix);
        i := i + 1;
      }
      AddingDone(node, edge, bag, owner, silent, prefix, path);
      bag, owner := bag + Weighing(path), Installed(owner, prefix, path);
    }

    // The node part of one iteration of the loop of `remove`.
    method UncountNodes(a: Asn, b: Asn)
      requires ThresholdSets()
      requires Reading(node, edge, OutOf(a)) > 0 && Reading(node, edge, InTo(b)) > 0
      modifies `node, `nodesForward, `nodesBackward
      ensures ThresholdSets() && node == NodesPlus(old(node), Link(a, b), -1)
    {
      node := node[a := node[a].(outPrefixes := node[a].outPrefixes - 1)];
      node := node[b := node[b].(inPrefixes := node[b].inPrefixes - 1)];
      if node[a].outPrefixes == wThreshold - 1 {
        assert a in nodesForward;
        nodesForward := nodesForward - {a};
      }
      if node[b].inPrefixes == wThreshold - 1 {
        assert b in nodesBackward;
        nodesBackward := nodesBackward - {b};
      }
    }

    // One iteration of the loop of `remove`. The result says whether the prefix was in
    // the edge's prefix set; if not, a KeyError ends the run.
    method RemoveLink(a: Asn, b: Asn, depth: nat, prefix: Option<Prefix>) returns (ok: bool)
      requires ThresholdSets()
      requires Reading(node, edge, OutOf(a)) > 0 && Reading(node, edge, InTo(b)) > 0
      requires Live(edge, depth, Link(a, b))
      modifies `node, `edge, `nodesForward, `nodesBackward
      ensures ok <==> Tracked(prefix) <= old(edge)[Link(a, b)].prefixes
      ensures ok ==> ThresholdSets() && node == NodesPlus(old(node), Link(a, b), -1)
      ensures ok ==> edge == EdgeMinus(old(edge), Link(a, b), depth, Tracked(prefix))
    {
      UncountNodes(a, b);
      var l := Link(a, b);
      var e := edge[l];
      e := e.(prefixCounter := e.prefixCounter - 1);
      e := e.(depth := e.depth[depth := e.depth[depth] - 1]);
      if e.depth[depth] == 0 {
        e := e.(depth := e.depth - {depth});
      }
      assert e.depth == EdgeMinus(edge, l, depth, {})[l].depth;
      if !silent && prefix.Some? {
        if prefix.value !in e.prefixes {
          edge := edge[l := e];
          return false;
        }
        e := e.(prefixes := e.prefixes - {prefix.value});
      }
      assert e == EdgeMinus(edge, l, depth, Tracked(prefix))[l];
      edge := edge[l := e];
      return true;
    }

    // The loop of `remove`.
    method RemoveLinks(path: Path, prefix: Option<Prefix>) returns (ok: bool)
      requires ThresholdSets() && Removing(node, edge, bag, owner, silent, Tracked(prefix), path, 0)
      requires LinkCount(path) > 0 ==> path in bag
      requires LinkCount(path) > 0 && prefix.Some? ==> prefix.value in owner && owner[prefix.value] == path
      modifies `node, `edge, `nodesForward, `nodesBackward
      ensures ok <==> silent || prefix.None? || NoRepeatedLink(path)
      ensures ok ==> ThresholdSets() && Removing(node, edge, bag, owner, silent, Tracked(prefix), path, LinkCount(path))
    {
      var i := 0;
      while i < |path| - 1
        invariant 0 <= i <= LinkCount(path)
        invariant ThresholdSets()
        invariant Removing(node, edge, bag, owner, silent, Tracked(prefix), path, i)
        invariant !silent && prefix.Some? ==> NoRepeatBefore(path, i)
      {
        ReadingsSuffice(node, edge, bag, path, i);
        RemovingStep(node, edge, bag, owner, silent, Tracked(prefix), path, i);
        NoRepeatNext(path, i);
        if !silent && prefix.Some? {
          MissingPrefix(edge, owner, prefix.value, path, i);
        }
        ok := RemoveLink(path[i], path[i + 1], i + 1, prefix);
        if !ok {
          return false;
        }
        i := i + 1;
      }
      return true;
    }

    // Taking out a path that was put in. With the prefix sets kept, this succeeds exactly
    // when the path does not cross a link twice.
    method Remove(path: Path, prefix: Option<Prefix>) returns (ok: bool)
      requires Valid()
      requires LinkCount(path) > 0 ==> path in bag
      requires LinkCount(path) > 0 && prefix.Some? ==> prefix.value in owner && owner[prefix.value] == path
      modifies this
      ensures ok <==> silent || prefix.None? || NoRepeatedLink(path)
      ensures ok ==> Valid()
      ensures ok ==> bag == old(bag) - Weighing(path)
      ensures ok ==> owner == Uninstalled(old(owner), prefix, path)
    {
      ok := RemoveLinks(path, prefix);
      if ok {
        RemovingDone(node, edge, bag, owner, silent, prefix, path);
        bag, owner := bag - Weighing(path), Uninstalled(owner, prefix, path);
      }
    }
  }
}
