// The BGP routes of pctrl/bgp_route.py and the order its comparison gives them, which
// stands for the tie-breaking of section 9.1.2.2 of RFC 4271.
module RouteRank {
  import opened AsPaths
  import opened BitStrings
  import opened Collections

  type Address = nat

  datatype BgpRoute = BgpRoute(prefix: Prefix, neighbor: Address, nextHop: Address, origin: nat, asPath: Path,
                               asPathVmac: Option<Bits>, communities: seq<nat>, med: int, atomicAggregate: nat)

  function Sign(less: bool, greater: bool): int {
    if less then -1 else if greater then 1 else 0
  }

  // Two empty paths cannot be compared: the code would look at their first AS.
  predicate Comparable(a: BgpRoute, b: BgpRoute) {
    a.asPath != [] || b.asPath != []
  }

  // `__cmp__`: positive if a is the better route.
  function Cmp(a: BgpRoute, b: BgpRoute): int
    requires Comparable(a, b)
  {
    if |a.asPath| < |b.asPath| then 1
    else if |a.asPath| > |b.asPath| then -1
    else if a.asPath[0] == b.asPath[0] && a.med < b.med then -1
    else if a.asPath[0] == b.asPath[0] && a.med > b.med then 1
    else Sign(b.neighbor < a.neighbor, a.neighbor < b.neighbor)
  }

  // The order without MEDs: the shorter path, then the lower neighbour.
  predicate Better(a: BgpRoute, b: BgpRoute) {
    |a.asPath| < |b.asPath| || (|a.asPath| == |b.asPath| && a.neighbor < b.neighbor)
  }

  // Where the MEDs are looked at, they say the same as the neighbours.
  predicate MedAgrees(a: BgpRoute, b: BgpRoute) {
    |a.asPath| == |b.asPath| > 0 && a.asPath[0] == b.asPath[0] && a.med != b.med ==>
      (a.med > b.med <==> a.neighbor < b.neighbor) && a.neighbor != b.neighbor
  }

  lemma CmpIsBetter(a: BgpRoute, b: BgpRoute)
    requires Comparable(a, b) && MedAgrees(a, b)
    ensures Cmp(a, b) > 0 <==> Better(a, b)
    ensures Cmp(a, b) < 0 <==> Better(b, a)
  {
  }

  // In plain terms: the shorter path wins. Between paths of one length through one first AS the
  // higher MED wins, and otherwise, or if the MEDs are equal, the lower neighbour.
  lemma CmpPlain(a: BgpRoute, b: BgpRoute)
    requires Comparable(a, b)
    ensures -1 <= Cmp(a, b) <= 1
    ensures |a.asPath| != |b.asPath| ==> Cmp(a, b) == if |a.asPath| < |b.asPath| then 1 else -1
    ensures |a.asPath| == |b.asPath| && a.asPath[0] == b.asPath[0] && a.med != b.med ==>
              Cmp(a, b) == if a.med > b.med then 1 else -1
    ensures |a.asPath| == |b.asPath| && (a.asPath[0] != b.asPath[0] || a.med == b.med) ==>
              Cmp(a, b) == if a.neighbor < b.neighbor then 1 else if a.neighbor > b.neighbor then -1 else 0
  {
  }

  // Each is at least as good as the next, all around, yet one of them is better.
  predicate Circular(a: BgpRoute, b: BgpRoute, c: BgpRoute)
    requires a.asPath != [] && b.asPath != [] && c.asPath != []
  {
    Cmp(a, b) >= 0 && Cmp(b, c) >= 0 && Cmp(c, a) >= 0 && (Cmp(a, b) > 0 || Cmp(b, c) > 0 || Cmp(c, a) > 0)
  }

  // Two routes through one AS stay in order with every route through another AS exactly if
  // their MEDs agree with their neighbours.
  lemma OrderedIffMedAgrees(a: BgpRoute, b: BgpRoute)
    requires a.asPath != [] && b.asPath != [] && a.asPath[0] == b.asPath[0]
    ensures (forall c: BgpRoute :: c.asPath != [] && c.asPath[0] != a.asPath[0] ==>
             !Circular(a, b, c) && !Circular(b, a, c))
            <==> MedAgrees(a, b)
  {
    if MedAgrees(a, b) {
      forall c: BgpRoute | c.asPath != [] && c.asPath[0] != a.asPath[0]
        ensures !Circular(a, b, c) && !Circular(b, a, c)
      {
        CmpIsBetter(a, b);
        CmpIsBetter(b, c);
        CmpIsBetter(c, a);
        CmpIsBetter(a, c);
        CmpIsBetter(c, b);
      }
    } else {
      var winner, loser := if a.med > b.med then a else b, if a.med > b.med then b else a;
      var c := loser.(asPath := Elsewhere(loser.asPath));
      assert Circular(winner, loser, c);
    }
  }

  function Elsewhere(p: Path): (r: Path)
    requires p != []
    ensures |r| == |p| && r[0] != p[0]
  {
    [p[0] + 1] + p[1..]
  }

  // Unequal MEDs can make the comparison run in circles.
  lemma ComparisonCanCycle(prefix: Prefix)
    ensures exists a: BgpRoute, b: BgpRoute, c: BgpRoute ::
              && a.asPath != [] && b.asPath != [] && c.asPath != []
              && Cmp(a, b) > 0 && Cmp(b, c) > 0 && Cmp(c, a) > 0
  {
    var a := BgpRoute(prefix, 3, 3, 0, [10, 20], None, [], 2, 0);
    var b := BgpRoute(prefix, 1, 1, 0, [10, 20], None, [], 1, 0);
    var c := BgpRoute(prefix, 2, 2, 0, [11, 20], None, [], 0, 0);
    assert Cmp(a, b) > 0 && Cmp(b, c) > 0 && Cmp(c, a) > 0;
  }

  // ---- sorting ----

  ghost predicate Agreeing(routes: set<BgpRoute>) {
    && (forall r :: r in routes ==> r.asPath != [])
    && forall a, b :: a in routes && b in routes && a.neighbor != b.neighbor ==> MedAgrees(a, b)
  }

  // No route of the set is better.
  ghost predicate IsMaximum(r: BgpRoute, routes: set<BgpRoute>) {
    r in routes && forall q :: q in routes ==> !Better(q, r)
  }

  // `routes.sort(reverse=True)` and the head of the result.
  method BestRoute(routes: seq<BgpRoute>) returns (best: BgpRoute)
    requires routes != [] && Agreeing(set r | r in routes)
    requires forall a, b :: a in routes && b in routes && a.neighbor == b.neighbor ==> a == b
    ensures IsMaximum(best, set r | r in routes)
  {
    best := routes[0];
    var i := 1;
    while i < |routes|
      invariant 1 <= i <= |routes| && best in routes[..i]
      invariant forall k :: 0 <= k < i ==> !Better(routes[k], best)
    {
      if best.neighbor != routes[i].neighbor {
        CmpIsBetter(routes[i], best);
      }
      if Cmp(routes[i], best) > 0 {
        best := routes[i];
      }
      i := i + 1;
    }
  }
}
