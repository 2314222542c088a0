// AS paths, the directed links they cross, and the counters a bag of paths induces.
module AsPaths {
  import opened Collections

  // AS numbers are natural numbers, so the sentinel -1 is never one of them.
  type Asn = nat
  type Path = seq<Asn>
  type Prefix = string

  datatype Link = Link(from: Asn, to: Asn)

  // The quantities the topology counts: paths leaving a node, entering a node, crossing
  // a link, and crossing a link at one depth.
  datatype Counter = OutOf(asn: Asn) | InTo(asn: Asn) | On(link: Link) | At(link: Link, depth: nat)

  function LinkCount(p: Path): nat {
    if |p| == 0 then 0 else |p| - 1
  }

  // The link at position i of the path; its depth is i + 1.
  function LinkAt(p: Path, i: nat): Link
    requires i < LinkCount(p)
  {
    Link(p[i], p[i + 1])
  }

  ghost predicate CrossesBefore(p: Path, n: nat, l: Link)
    requires n <= LinkCount(p)
  {
    exists i :: 0 <= i < n && LinkAt(p, i) == l
  }

  ghost predicate Crosses(p: Path, l: Link) {
    CrossesBefore(p, LinkCount(p), l)
  }

  ghost predicate NoRepeatBefore(p: Path, n: nat)
    requires n <= LinkCount(p)
  {
    forall i, j :: 0 <= i < j < n ==> LinkAt(p, i) != LinkAt(p, j)
  }

  ghost predicate NoRepeatedLink(p: Path) {
    NoRepeatBefore(p, LinkCount(p))
  }

  lemma NoRepeatNext(p: Path, i: nat)
    requires i < LinkCount(p)
    ensures NoRepeatBefore(p, i + 1) <==> NoRepeatBefore(p, i) && !CrossesBefore(p, i, LinkAt(p, i))
  {
  }

  function Hit(c: Counter, l: Link, depth: nat): nat {
    match c
    case OutOf(a) => if l.from == a then 1 else 0
    case InTo(a) => if l.to == a then 1 else 0
    case On(k) => if l == k then 1 else 0
    case At(k, d) => if l == k && depth == d then 1 else 0
  }

  // What the first n links of the path contribute to a counter.
  function Hits(c: Counter, p: Path, n: nat): nat
    requires n <= LinkCount(p)
  {
    if n == 0 then 0 else Hits(c, p, n - 1) + Hit(c, LinkAt(p, n - 1), n)
  }

  function Contribution(c: Counter, p: Path): nat {
    Hits(c, p, LinkCount(p))
  }

  lemma {:induction false} HitsMonotone(c: Counter, p: Path, m: nat, n: nat)
    requires m <= n <= LinkCount(p)
    ensures Hits(c, p, m) <= Hits(c, p, n)
    decreases n
  {
    if m < n {
      HitsMonotone(c, p, m, n - 1);
    }
  }

  // At one depth a path crosses a link at most once.
  lemma {:induction false} HitsAtDepth(l: Link, d: nat, p: Path, n: nat)
    requires n <= LinkCount(p)
    ensures Hits(At(l, d), p, n) == if 1 <= d <= n && LinkAt(p, d - 1) == l then 1 else 0
  {
    if n > 0 {
      HitsAtDepth(l, d, p, n - 1);
    }
  }

  // ---- bags of paths ----

  // The counter's value over a bag of paths: the independent recount.
  ghost function Total(bag: multiset<Path>, c: Counter): nat
    decreases |bag|
  {
    if bag == multiset{} then 0
    else Contribution(c, AnyPath(bag)) + Total(bag - multiset{AnyPath(bag)}, c)
  }

  ghost function AnyPath(bag: multiset<Path>): (p: Path)
    requires bag != multiset{}
    ensures p in bag
  {
    var p :| p in bag;
    p
  }

  // Which path is taken out first does not matter.
  lemma {:induction false} TotalSplit(bag: multiset<Path>, p: Path, c: Counter)
    requires p in bag
    ensures Total(bag, c) == Contribution(c, p) + Total(bag - multiset{p}, c)
    decreases |bag|
  {
    var q := AnyPath(bag);
    if p != q {
      var both := bag - multiset{q} - multiset{p};
      assert both == bag - multiset{p} - multiset{q};
      TotalSplit(bag - multiset{q}, p, c);
      TotalSplit(bag - multiset{p}, q, c);
    }
  }

  lemma TotalAdd(bag: multiset<Path>, p: Path, c: Counter)
    ensures Total(bag + multiset{p}, c) == Total(bag, c) + Contribution(c, p)
  {
    TotalSplit(bag + multiset{p}, p, c);
    assert bag + multiset{p} - multiset{p} == bag;
  }

  lemma {:induction false} PositiveTotal(bag: multiset<Path>, c: Counter) returns (p: Path)
    requires Total(bag, c) > 0
    ensures p in bag && Contribution(c, p) > 0
    decreases |bag|
  {
    var q := AnyPath(bag);
    if Contribution(c, q) > 0 {
      p := q;
    } else {
      p := PositiveTotal(bag - multiset{q}, c);
    }
  }

  // Where some path crosses a link at depth d > 1, some path crosses a link at depth d - 1.
  lemma DepthsAreContiguous(bag: multiset<Path>, l: Link, d: nat) returns (previous: Link)
    requires d > 1 && Total(bag, At(l, d)) > 0
    ensures Total(bag, At(previous, d - 1)) > 0
  {
    var p := PositiveTotal(bag, At(l, d));
    HitsAtDepth(l, d, p, LinkCount(p));
    previous := LinkAt(p, d - 2);
    HitsAtDepth(previous, d - 1, p, LinkCount(p));
    TotalSplit(bag, p, At(previous, d - 1));
  }

  // ---- the paths of a RIB ----

  // Paths without a link contribute nothing and are left out of the bags.
  function Weighing(p: Path): multiset<Path> {
    if LinkCount(p) == 0 then multiset{} else multiset{p}
  }

  ghost function RibBag(rib: map<Prefix, Path>): multiset<Path>
    decreases |rib|
  {
    if rib == map[] then multiset{}
    else Weighing(rib[AnyPrefix(rib)]) + RibBag(rib - {AnyPrefix(rib)})
  }

  ghost function AnyPrefix(rib: map<Prefix, Path>): (q: Prefix)
    requires rib != map[]
    ensures q in rib
  {
    var q :| q in rib;
    q
  }

  lemma {:induction false} RibBagSplit(rib: map<Prefix, Path>, q: Prefix)
    requires q in rib
    ensures RibBag(rib) == Weighing(rib[q]) + RibBag(rib - {q})
    decreases |rib|
  {
    var r := AnyPrefix(rib);
    if r != q {
      var both := rib - {r} - {q};
      assert both == rib - {q} - {r};
      RibBagSplit(rib - {r}, q);
      RibBagSplit(rib - {q}, r);
    }
  }

  // ---- the counters of a table, in plain terms ----

  // The positions of the paths of a table at which a counter counts.
  ghost function Spots(rib: map<Prefix, Path>, c: Counter): set<(Prefix, int)> {
    set q, i | q in rib && 0 <= i < LinkCount(rib[q]) && Hit(c, LinkAt(rib[q], i), i + 1) == 1 :: (q, i)
  }

  ghost function SpotsOf(c: Counter, p: Path, q: Prefix, n: nat): set<(Prefix, int)>
    requires n <= LinkCount(p)
  {
    set i | 0 <= i < n && Hit(c, LinkAt(p, i), i + 1) == 1 :: (q, i)
  }

  lemma {:induction false} SpotsBefore(c: Counter, p: Path, q: Prefix, n: nat)
    requires n <= LinkCount(p)
    ensures |SpotsOf(c, p, q, n)| == Hits(c, p, n)
  {
    if n > 0 {
      SpotsBefore(c, p, q, n - 1);
      NextSpot(c, p, q, n - 1);
    } else {
      assert SpotsOf(c, p, q, n) == {};
    }
  }

  lemma NextSpot(c: Counter, p: Path, q: Prefix, n: nat)
    requires n < LinkCount(p)
    ensures |SpotsOf(c, p, q, n + 1)| == |SpotsOf(c, p, q, n)| + Hit(c, LinkAt(p, n), n + 1)
  {
    HitIsOne(c, LinkAt(p, n), n + 1);
    hide Hit;
    var before, more := SpotsOf(c, p, q, n), SpotsOf(c, p, q, n + 1);
    if Hit(c, LinkAt(p, n), n + 1) == 1 {
      assert more == before + {(q, n)};
    } else {
      assert more == before;
    }
  }

  lemma HitIsOne(c: Counter, l: Link, d: nat)
    ensures Hit(c, l, d) <= 1
  {
  }

  lemma SpotsSplit(rib: map<Prefix, Path>, c: Counter, q: Prefix)
    requires q in rib
    ensures |Spots(rib, c)| == |Spots(rib - {q}, c)| + Contribution(c, rib[q])
  {
    hide Hit, LinkAt;
    var rest, own := Spots(rib - {q}, c), SpotsOf(c, rib[q], q, LinkCount(rib[q]));
    SpotsBefore(c, rib[q], q, LinkCount(rib[q]));
    SpotsUnion(rib, c, q);
    hide Spots, SpotsOf;
    assert |rest + own| == |rest| + |own|;
  }

  lemma SpotsUnion(rib: map<Prefix, Path>, c: Counter, q: Prefix)
    requires q in rib
    ensures var rest, own := Spots(rib - {q}, c), SpotsOf(c, rib[q], q, LinkCount(rib[q]));
            Spots(rib, c) == rest + own && rest !! own
  {
    hide Hit, LinkAt, LinkCount;
    var rest, own := Spots(rib - {q}, c), SpotsOf(c, rib[q], q, LinkCount(rib[q]));
    assert forall x :: x in own ==> x.0 == q;
    assert forall x :: x in rest ==> x.0 != q;
    assert forall x :: x in Spots(rib, c) ==> x in rest || x in own;
  }

  lemma BagSplit(rib: map<Prefix, Path>, c: Counter, q: Prefix)
    requires q in rib
    ensures Total(RibBag(rib), c) == Total(RibBag(rib - {q}), c) + Contribution(c, rib[q])
  {
    hide Total, Hit, RibBag;
    RibBagSplit(rib, q);
    if LinkCount(rib[q]) == 0 {
      assert RibBag(rib) == RibBag(rib - {q});
    } else {
      assert RibBag(rib) == RibBag(rib - {q}) + multiset{rib[q]};
      TotalAdd(RibBag(rib - {q}), rib[q], c);
    }
  }

  lemma {:induction false} SpotsCount(rib: map<Prefix, Path>, c: Counter)
    ensures Total(RibBag(rib), c) == |Spots(rib, c)|
    decreases |rib|
  {
    if rib == map[] {
      assert Spots(rib, c) == {};
    } else {
      hide Spots, Total, RibBag;
      var q := AnyPrefix(rib);
      SpotsCount(rib - {q}, c);
      SpotsSplit(rib, c, q);
      BagSplit(rib, c, q);
    }
  }

  // How often the paths of a table leave an AS and enter it, and cross a link at all and at a
  // depth: that is what the counters of a graph of these paths show.
  lemma CountersPlain(rib: map<Prefix, Path>, a: Asn, l: Link, d: nat)
    ensures Total(RibBag(rib), OutOf(a)) ==
            |set q, i | q in rib && 0 <= i < |rib[q]| - 1 && rib[q][i] == a :: (q, i)|
    ensures Total(RibBag(rib), InTo(a)) ==
            |set q, i | q in rib && 0 <= i < |rib[q]| - 1 && rib[q][i + 1] == a :: (q, i)|
    ensures Total(RibBag(rib), On(l)) ==
            |set q, i | q in rib && 0 <= i < |rib[q]| - 1 && rib[q][i] == l.from && rib[q][i + 1] == l.to :: (q, i)|
    ensures Total(RibBag(rib), At(l, d)) ==
            |set q, i | q in rib && 0 <= i < |rib[q]| - 1 && rib[q][i] == l.from && rib[q][i + 1] == l.to
                        && i + 1 == d :: (q, i)|
  {
    SpotsCount(rib, OutOf(a));
    SpotsCount(rib, InTo(a));
    SpotsCount(rib, On(l));
    SpotsCount(rib, At(l, d));
    hide Total, RibBag;
    assert Spots(rib, OutOf(a)) == set q, i | q in rib && 0 <= i < |rib[q]| - 1 && rib[q][i] == a :: (q, i);
    assert Spots(rib, InTo(a)) == set q, i | q in rib && 0 <= i < |rib[q]| - 1 && rib[q][i + 1] == a :: (q, i);
    assert Spots(rib, On(l)) ==
           set q, i | q in rib && 0 <= i < |rib[q]| - 1 && rib[q][i] == l.from && rib[q][i + 1] == l.to :: (q, i);
    assert Spots(rib, At(l, d)) ==
           set q, i | q in rib && 0 <= i < |rib[q]| - 1 && rib[q][i] == l.from && rib[q][i + 1] == l.to
                      && i + 1 == d :: (q, i);
  }

  // ---- clean_aspath ----

  ghost predicate Distinct(p: Path) {
    forall i, j :: 0 <= i < j < |p| ==> p[i] != p[j]
  }

  ghost predicate NoAdjacentDuplicate(p: Path) {
    forall i :: 0 < i < |p| ==> p[i - 1] != p[i]
  }

  // The path with runs of one AS collapsed.
  function Collapse(p: Path): Path {
    if |p| < 2 then p
    else if p[|p| - 1] == p[|p| - 2] then Collapse(p[..|p| - 1])
    else Collapse(p[..|p| - 1]) + [p[|p| - 1]]
  }

  lemma {:induction false} CollapseShape(p: Path)
    ensures NoAdjacentDuplicate(Collapse(p))
    ensures p == [] <==> Collapse(p) == []
    ensures p != [] ==> Collapse(p)[|Collapse(p)| - 1] == p[|p| - 1]
    ensures forall a :: a in Collapse(p) <==> a in p
  {
    if |p| >= 2 {
      CollapseShape(p[..|p| - 1]);
      assert p == p[..|p| - 1] + [p[|p| - 1]];
    }
  }

  // How often the AS changes up to position k.
  function Changes(p: Path, k: nat): nat
    requires k < |p|
  {
    if k == 0 then 0 else Changes(p, k - 1) + if p[k] == p[k - 1] then 0 else 1
  }

  lemma {:induction false} ChangesOfFront(p: Path, n: nat, k: nat)
    requires k < n <= |p|
    ensures Changes(p[..n], k) == Changes(p, k)
  {
    if k > 0 {
      ChangesOfFront(p, n, k - 1);
    }
  }

  // Every AS of the path is found at the place given by the changes before it.
  lemma {:induction false} CollapseAt(p: Path, k: nat)
    requires k < |p|
    ensures |Collapse(p)| == Changes(p, |p| - 1) + 1
    ensures Changes(p, k) < |Collapse(p)| && Collapse(p)[Changes(p, k)] == p[k]
  {
    var n := |p| - 1;
    if n > 0 {
      var front := p[..n];
      CollapseAt(front, if k < n then k else n - 1);
      ChangesOfFront(p, n, n - 1);
      CollapseShape(front);
      if k < n {
        ChangesOfFront(p, n, k);
      }
    }
  }

  lemma {:induction false} ChangesGrow(p: Path, k: nat, l: nat)
    requires k <= l < |p|
    ensures Changes(p, k) <= Changes(p, l)
    ensures Changes(p, k) < Changes(p, l) <==> exists j :: k < j <= l && p[j] != p[k]
    decreases l
  {
    if k < l {
      ChangesGrow(p, k, l - 1);
      if p[l] != p[l - 1] && !(exists j :: k < j <= l - 1 && p[j] != p[k]) {
        assert p[l - 1] == p[k];
      }
    }
  }

  // Every place of the collapsed path belongs to a position.
  lemma {:induction false} PlaceIsReached(p: Path, x: nat) returns (k: nat)
    requires x < |Collapse(p)|
    ensures k < |p| && Changes(p, k) == x
  {
    var n := |p| - 1;
    CollapseAt(p, n);
    if x == Changes(p, n) {
      k := n;
    } else {
      CollapseShape(p[..n]);
      CollapseAt(p[..n], n - 1);
      ChangesOfFront(p, n, n - 1);
      k := PlaceIsReached(p[..n], x);
      ChangesOfFront(p, n, k);
    }
  }

  // An AS comes back after another one.
  ghost predicate Returns(p: Path) {
    exists i, j, k :: 0 <= i < j < k < |p| && p[i] == p[k] && p[i] != p[j]
  }

  ghost predicate ComesBefore(p: Path, a: Asn, b: Asn) {
    exists k, l :: 0 <= k < l < |p| && p[k] == a && p[l] == b
  }

  lemma PlacesInOrder(p: Path, x: nat, y: nat)
    requires x < y < |Collapse(p)|
    ensures ComesBefore(p, Collapse(p)[x], Collapse(p)[y])
    ensures Collapse(p)[x] == Collapse(p)[y] ==> Returns(p)
  {
    var k := PlaceIsReached(p, x);
    var l := PlaceIsReached(p, y);
    CollapseAt(p, k);
    CollapseAt(p, l);
    if l <= k {
      ChangesGrow(p, l, k);
    } else {
      ChangesGrow(p, k, l);
      var j :| k < j <= l && p[j] != p[k];
    }
  }

  lemma ReturnIsRepeated(p: Path)
    requires Returns(p)
    ensures !Distinct(Collapse(p))
  {
    var i, j, k :| 0 <= i < j < k < |p| && p[i] == p[k] && p[i] != p[j];
    CollapseAt(p, i);
    CollapseAt(p, k);
    ChangesGrow(p, i, k);
  }

  // In plain terms: collapsed, the path has an AS twice exactly if one comes back, and it has
  // the ASes of the path in their order.
  lemma CollapsePlain(p: Path)
    ensures Distinct(Collapse(p)) <==> !Returns(p)
    ensures forall a :: a in Collapse(p) <==> a in p
    ensures forall x, y {:trigger Collapse(p)[x], Collapse(p)[y]} :: 0 <= x < y < |Collapse(p)| ==>
              ComesBefore(p, Collapse(p)[x], Collapse(p)[y])
  {
    hide Returns, ComesBefore, Collapse;
    CollapseShape(p);
    forall x, y | 0 <= x < y < |Collapse(p)|
      ensures ComesBefore(p, Collapse(p)[x], Collapse(p)[y])
      ensures Collapse(p)[x] == Collapse(p)[y] ==> Returns(p)
    {
      PlacesInOrder(p, x, y);
    }
    if Returns(p) {
      ReturnIsRepeated(p);
    }
  }

  // `clean_aspath`: the collapsed path, or [] when an AS comes back after another one.
  method CleanAsPath(asPath: Path) returns (r: Path)
    ensures Distinct(Collapse(asPath)) ==> r == Collapse(asPath)
    ensures !Distinct(Collapse(asPath)) ==> r == []
    ensures Returns(asPath) ==> r == []
    ensures !Returns(asPath) ==> Distinct(r) && forall a :: a in r <==> a in asPath
    ensures forall x, y {:trigger r[x], r[y]} :: 0 <= x < y < |r| ==> ComesBefore(asPath, r[x], r[y])
  {
    hide Returns, ComesBefore;
    CollapsePlain(asPath);
    var prev: Option<Asn> := None;
    var asSet: set<Asn> := {};
    r := [];
    var i := 0;
    while i < |asPath|
      invariant i <= |asPath|
      invariant prev == if i == 0 then None else Some(asPath[i - 1])
      invariant r == Collapse(asPath[..i]) && Distinct(r)
      invariant asSet == set a | a in r
    {
      var asn := asPath[i];
      CollapseShape(asPath[..i]);
      assert asPath[..i + 1][..i] == asPath[..i];
      if Some(asn) != prev {
        if asn in asSet {
          assert Collapse(asPath[..i + 1]) == r + [asn];
          var k :| 0 <= k < |r| && r[k] == asn;
          assert (r + [asn])[k] == (r + [asn])[|r|];
          CollapseRepeats(asPath, i + 1);
          return [];
        }
        asSet := asSet + {asn};
        r := r + [asn];
      }
      prev := Some(asn);
      i := i + 1;
    }
    assert asPath[..i] == asPath;
  }

  lemma {:induction false} CollapseRepeats(p: Path, n: nat)
    requires n <= |p| && !Distinct(Collapse(p[..n]))
    ensures !Distinct(Collapse(p))
    decreases |p| - n
  {
    if n < |p| {
      assert p[..n + 1][..n] == p[..n];
      CollapsePrefix(p[..n + 1]);
      CollapseRepeats(p, n + 1);
    } else {
      assert p[..n] == p;
    }
  }

  lemma CollapsePrefix(p: Path)
    requires |p| > 0
    ensures Collapse(p[..|p| - 1]) <= Collapse(p)
  {
  }

  // A cleaned path never crosses the same link twice.
  lemma CleanPathHasNoRepeatedLink(p: Path)
    requires Distinct(p)
    ensures NoRepeatedLink(p)
  {
  }
}
