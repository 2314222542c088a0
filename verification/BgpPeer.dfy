// The decision process of pctrl/peer.py: the local table follows the input table one update
// at a time and must come to what a full decision over the input table would give.
module BgpPeer {
  import opened AsPaths
  import opened BitStrings
  import opened Collections
  import opened RibTable
  import opened RouteRank

  datatype RouteUpdate = Announce(route: BgpRoute) | Withdraw(prefix: Prefix, neighbor: Address)

  type Store = map<Key, BgpRoute>

  const INPUT_KEYS: set<Attribute> := {PrefixOf, NeighborOf}
  const LOCAL_KEYS: set<Attribute> := {PrefixOf}

  function PrefixKey(p: Prefix): Key {
    map[PrefixOf := OfPrefix(p)]
  }

  function NeighborKey(p: Prefix, n: Address): Key {
    map[PrefixOf := OfPrefix(p), NeighborOf := OfNumber(n)]
  }

  ghost predicate Keyed(s: Store, keys: set<Attribute>) {
    forall k :: k in s ==> KeyOf(s[k], keys) == k
  }

  // The routes of a table towards a prefix.
  function RoutesTo(s: Store, p: Prefix): set<BgpRoute> {
    set k | k in s && s[k].prefix == p :: s[k]
  }

  function LocalRoute(s: Store, p: Prefix): Option<BgpRoute> {
    if PrefixKey(p) in s then Some(s[PrefixKey(p)]) else None
  }

  // ---- keys ----

  lemma KeysOfRoute(r: BgpRoute)
    ensures KeyOf(r, LOCAL_KEYS) == PrefixKey(r.prefix) && KeyOf(r, INPUT_KEYS) == NeighborKey(r.prefix, r.neighbor)
  {
  }

  lemma KeysAreDistinct(p: Prefix, q: Prefix, n: Address, m: Address)
    ensures PrefixKey(p) == PrefixKey(q) <==> p == q
    ensures NeighborKey(p, n) == NeighborKey(q, m) <==> p == q && n == m
    ensures PrefixKey(p).Keys == LOCAL_KEYS && NeighborKey(p, n).Keys == INPUT_KEYS
  {
    assert PrefixKey(p)[PrefixOf] == OfPrefix(p) && PrefixKey(q)[PrefixOf] == OfPrefix(q);
    assert NeighborKey(p, n)[PrefixOf] == OfPrefix(p) && NeighborKey(q, m)[PrefixOf] == OfPrefix(q);
    assert NeighborKey(p, n)[NeighborOf] == OfNumber(n) && NeighborKey(q, m)[NeighborOf] == OfNumber(m);
  }

  lemma FitsMeans(r: BgpRoute, p: Prefix, n: Address)
    ensures CarriesKey(r, PrefixKey(p)) <==> r.prefix == p
    ensures CarriesKey(r, NeighborKey(p, n)) <==> r.prefix == p && r.neighbor == n
  {
    KeysOfRoute(r);
    KeysAreDistinct(r.prefix, p, r.neighbor, n);
  }

  // A neighbour has one route towards a prefix.
  lemma OneRoutePerNeighbor(s: Store, p: Prefix)
    requires Keyed(s, INPUT_KEYS)
    ensures OnePerNeighbor(RoutesTo(s, p))
  {
    forall a, b | a in RoutesTo(s, p) && b in RoutesTo(s, p) && a.neighbor == b.neighbor
      ensures a == b
    {
      var k :| k in s && s[k] == a;
      var l :| l in s && s[l] == b;
      KeysOfRoute(a);
      KeysOfRoute(b);
    }
  }

  // ---- one prefix ----

  function Replace(routes: set<BgpRoute>, r: BgpRoute): set<BgpRoute> {
    Without(routes, r.neighbor) + {r}
  }

  function Without(routes: set<BgpRoute>, n: Address): set<BgpRoute> {
    set q | q in routes && q.neighbor != n
  }

  lemma RoutesAfterAdd(s: Store, r: BgpRoute, p: Prefix)
    requires Keyed(s, INPUT_KEYS)
    ensures var s' := s[KeyOf(r, INPUT_KEYS) := r];
            && Keyed(s', INPUT_KEYS)
            && RoutesTo(s', p) == if p == r.prefix then Replace(RoutesTo(s, p), r) else RoutesTo(s, p)
  {
    hide KeyOf, NeighborKey, PrefixKey;
    var key := KeyOf(r, INPUT_KEYS);
    var s' := s[key := r];
    KeysOfRoute(r);
    forall k | k in s
      ensures k == key <==> s[k].prefix == r.prefix && s[k].neighbor == r.neighbor
    {
      KeysOfRoute(s[k]);
      KeysAreDistinct(s[k].prefix, r.prefix, s[k].neighbor, r.neighbor);
    }
    var after := if p == r.prefix then Replace(RoutesTo(s, p), r) else RoutesTo(s, p);
    forall q
      ensures q in RoutesTo(s', p) <==> q in after
    {
      if q in RoutesTo(s', p) {
        var k :| k in s' && s'[k] == q && q.prefix == p;
      }
      if q in after {
        if q == r && p == r.prefix {
          assert s'[key] == q;
        } else {
          var k :| k in s && s[k] == q && q.prefix == p;
          assert s'[k] == q;
        }
      }
    }
  }

  lemma RoutesAfterDelete(s: Store, s': Store, p: Prefix, n: Address, q: Prefix)
    requires Keyed(s, INPUT_KEYS)
    requires s' == map k | k in s && !CarriesKey(s[k], NeighborKey(p, n)) :: s[k]
    ensures Keyed(s', INPUT_KEYS)
    ensures RoutesTo(s', q) == if q == p then Without(RoutesTo(s, q), n) else RoutesTo(s, q)
  {
    hide KeyOf, NeighborKey, PrefixKey, CarriesKey;
    forall k | k in s
      ensures CarriesKey(s[k], NeighborKey(p, n)) <==> s[k].prefix == p && s[k].neighbor == n
    {
      FitsMeans(s[k], p, n);
    }
    var after := if q == p then Without(RoutesTo(s, q), n) else RoutesTo(s, q);
    forall r
      ensures r in RoutesTo(s', q) <==> r in after
    {
      if r in RoutesTo(s', q) {
        var k :| k in s' && s'[k] == r && r.prefix == q;
        assert s[k] == r;
      }
      if r in after {
        var k :| k in s && s[k] == r && r.prefix == q;
        assert s'[k] == r;
      }
    }
  }

  ghost predicate SameRank(a: BgpRoute, b: BgpRoute) {
    a.asPath != [] && a.neighbor == b.neighbor && |a.asPath| == |b.asPath| && Cmp(a, b) == 0
  }

  // The local route ranks as what a full decision gives: there is one exactly if there are
  // input routes, none of them is better, and its neighbour still offers its rank.
  ghost predicate Coherent(routes: set<BgpRoute>, best: Option<BgpRoute>) {
    && (best.None? <==> routes == {})
    && (best.Some? ==>
          && (exists r :: r in routes && SameRank(r, best.value))
          && forall q :: q in routes ==> !Better(q, best.value))
  }

  // The local route is one that a neighbour still offers.
  ghost predicate Offered(routes: set<BgpRoute>, best: Option<BgpRoute>) {
    best.Some? ==> best.value in routes
  }

  // What a decision over all routes gives.
  ghost function FullChoice(routes: set<BgpRoute>): Option<BgpRoute> {
    if exists r :: IsMaximum(r, routes) then var r :| IsMaximum(r, routes); Some(r) else None
  }

  ghost predicate OnePerNeighbor(routes: set<BgpRoute>) {
    forall a, b :: a in routes && b in routes && a.neighbor == b.neighbor ==> a == b
  }

  // There is one full choice, and a local route is it exactly if it ranks as it and is offered.
  lemma FullChoiceIff(routes: set<BgpRoute>, best: Option<BgpRoute>)
    requires OnePerNeighbor(routes) && forall r :: r in routes ==> r.asPath != []
    ensures best == FullChoice(routes) <==> Coherent(routes, best) && Offered(routes, best)
    ensures forall r :: IsMaximum(r, routes) <==> FullChoice(routes) == Some(r)
  {
    if routes != {} {
      var r := Maximum(routes);
      forall q
        ensures IsMaximum(q, routes) <==> q == r
      {
        if IsMaximum(q, routes) {
          assert q in routes && r in routes && !Better(q, r) && !Better(r, q);
        }
      }
      assert IsMaximum(r, routes);
      if best.Some? && best.value in routes {
        assert SameRank(best.value, best.value);
      }
    }
  }

  // In terms of the comparison: no input route ranks above the local one.
  lemma CoherentIsMaximal(routes: set<BgpRoute>, best: BgpRoute)
    requires Coherent(routes, Some(best)) && Agreeing(routes + {best})
    requires OnePerNeighbor(routes)
    ensures forall q :: q in routes ==> Cmp(q, best) <= 0
    ensures forall q :: q in routes && q.neighbor != best.neighbor ==> Cmp(q, best) < 0
  {
  }

  datatype Decision = Keep | Take | Rerun

  // What the incremental decision does with an announcement.
  function Decide(current: BgpRoute, announced: BgpRoute): Decision
    requires Comparable(announced, current)
  {
    if current.asPathVmac.None? && announced.asPathVmac.Some? then Take
    else if Cmp(announced, current) > 0 then Take
    else if current.asPathVmac.Some? && Cmp(announced, current) < 0 && announced.neighbor == current.neighbor then Rerun
    else Keep
  }

  // In plain terms: a current best without an encoded path gives way to any route that has one,
  // and every current best to a better route. A worse route of the neighbour of a current best
  // that has an encoded path starts the decision over; nothing else has an effect.
  lemma DecidePlain(current: BgpRoute, announced: BgpRoute)
    requires Comparable(announced, current)
    ensures Decide(current, announced) == Take <==>
            Cmp(announced, current) > 0 || (current.asPathVmac == None && announced.asPathVmac != None)
    ensures Decide(current, announced) == Rerun <==>
            current.asPathVmac != None && announced.neighbor == current.neighbor && Cmp(announced, current) < 0
  {
  }

  function Outcome(current: BgpRoute, announced: BgpRoute, full: BgpRoute): BgpRoute
    requires Comparable(announced, current)
  {
    match Decide(current, announced)
    case Keep => current
    case Take => announced
    case Rerun => full
  }

  // The announcements after which the local route has the wrong rank: the current best has
  // no encoded path yet, and the announced route is worse.
  ghost predicate Misled(routes: set<BgpRoute>, current: BgpRoute, announced: BgpRoute)
    requires Comparable(announced, current)
  {
    && current.asPathVmac.None? && Cmp(announced, current) < 0
    && if announced.neighbor != current.neighbor then announced.asPathVmac.Some?
       else announced.asPathVmac.None? || exists q :: q in routes && Better(q, announced)
  }

  // The announcements that are overlooked: the neighbour of the current best replaces it by
  // another route that compares as equal.
  predicate Overlooked(current: BgpRoute, announced: BgpRoute)
    requires Comparable(announced, current)
  {
    Decide(current, announced) == Keep && announced.neighbor == current.neighbor && announced != current
  }

  // The outcome is one of the input routes exactly if the decision changed something, or the
  // kept route is still offered.
  lemma OutcomeIsOfferedIff(routes: set<BgpRoute>, current: BgpRoute, announced: BgpRoute, full: BgpRoute)
    requires Comparable(announced, current) && full in Replace(routes, announced)
    ensures Outcome(current, announced, full) in Replace(routes, announced) <==>
            Decide(current, announced) != Keep ||
            if announced.neighbor == current.neighbor then announced == current else current in routes
  {
  }

  // From a full choice, an announcement leads to the full choice again exactly if it neither
  // misleads nor is overlooked.
  lemma DecisionIsFullIff(routes: set<BgpRoute>, current: BgpRoute, announced: BgpRoute)
    requires OnePerNeighbor(routes) && FullChoice(routes) == Some(current) && forall r :: r in routes ==> r.asPath != []
    requires Agreeing(Replace(routes, announced) + {current})
    ensures FullChoice(Replace(routes, announced)).Some?
    ensures var routes' := Replace(routes, announced);
            Some(Outcome(current, announced, FullChoice(routes').value)) == FullChoice(routes') <==>
            !Misled(routes', current, announced) && !Overlooked(current, announced)
  {
    hide Better, SameRank, Cmp, Misled;
    var routes' := Replace(routes, announced);
    assert announced in routes' + {current};
    FullChoiceIff(routes, Some(current));
    var full := Maximum(routes');
    FullChoiceIff(routes', Some(full));
    FullChoiceIff(routes', Some(Outcome(current, announced, full)));
    DecisionIsRightIff(routes, current, announced, full);
    MaximumIsMember(full, routes');
    OutcomeIsOfferedIff(routes, current, announced, full);
  }

  // A neighbour that re-announces the best route with another path of the same length leaves
  // the old one in place: it ranks as the full choice, but nobody offers it any more.
  lemma TieIsOverlooked(stale: BgpRoute, fresher: BgpRoute)
    requires stale.asPath != [] && |fresher.asPath| == |stale.asPath| && stale.asPath[0] == fresher.asPath[0] &&
             stale.asPathVmac.Some?
    requires fresher.neighbor == stale.neighbor && fresher.med == stale.med && fresher != stale
    ensures var routes' := Replace({stale}, fresher);
            && Outcome(stale, fresher, fresher) == stale
            && Coherent(routes', Some(stale)) && !Misled(routes', stale, fresher)
            && FullChoice(routes') == Some(fresher)
  {
    var routes' := Replace({stale}, fresher);
    assert routes' == {fresher};
    FullChoiceIff(routes', Some(fresher));
    assert SameRank(fresher, stale) && SameRank(fresher, fresher);
  }

  // An announcement is decided to the rank a full decision gives, unless and only unless it misleads.
  lemma DecisionIsRightIff(routes: set<BgpRoute>, current: BgpRoute, announced: BgpRoute, full: BgpRoute)
    requires Coherent(routes, Some(current))
    requires var routes' := Replace(routes, announced); Agreeing(routes' + {current}) && IsMaximum(full, routes')
    ensures Coherent(Replace(routes, announced), Some(Outcome(current, announced, full))) <==>
            !Misled(Replace(routes, announced), current, announced)
  {
    var routes' := Replace(routes, announced);
    assert announced in routes' + {current} && current in routes' + {current};
    var r :| r in routes && SameRank(r, current);
    if announced.neighbor != current.neighbor {
      CmpIsBetter(announced, current);
      assert r in routes';
      OtherNeighbor(routes, current, announced, full, r);
    } else {
      SameNeighbor(routes, current, announced, full);
    }
  }

  // A best route without a VMAC gives way to a longer path that has one.
  lemma WorseRouteIsTaken(p: Prefix, vmac: Bits)
    ensures var current := BgpRoute(p, 1, 1, 0, [1, 2], None, [], 0, 0);
            var worse := BgpRoute(p, 2, 2, 0, [1, 2, 3], Some(vmac), [], 0, 0);
            && Coherent({current}, Some(current)) && Outcome(current, worse, current) == worse
            && Better(current, worse) && !Coherent(Replace({current}, worse), Some(worse))
  {
    var current := BgpRoute(p, 1, 1, 0, [1, 2], None, [], 0, 0);
    var worse := BgpRoute(p, 2, 2, 0, [1, 2, 3], Some(vmac), [], 0, 0);
    assert SameRank(current, current);
    assert current in Replace({current}, worse) && Better(current, worse);
  }

  // The local route after an update, branch by branch.
  ghost predicate DecidedAs(u: RouteUpdate, routes: set<BgpRoute>, current: Option<BgpRoute>, after: Option<BgpRoute>) {
    match u
    case Announce(r) =>
      if current.None? then after == Some(r)
      else if !Comparable(r, current.value) then false
      else (
        match Decide(current.value, r)
        case Keep => after == current
        case Take => after == Some(r)
        case Rerun => after.Some? && IsMaximum(after.value, routes)
      )
    case Withdraw(_, n) =>
      if current.None? || current.value.neighbor != n then after == current
      else if routes == {} then after == None
      else after.Some? && IsMaximum(after.value, routes)
  }

  // The same as a function: the one local route the update can lead to.
  ghost function BestAfter(u: RouteUpdate, routes: set<BgpRoute>, current: Option<BgpRoute>): Option<BgpRoute> {
    match u
    case Announce(r) =>
      if current.None? || !Comparable(r, current.value) then Some(r)
      else (
        match Decide(current.value, r)
        case Keep => current
        case Take => Some(r)
        case Rerun => FullChoice(routes)
      )
    case Withdraw(_, n) =>
      if current.None? || current.value.neighbor != n then current else FullChoice(routes)
  }

  lemma DecidedIsBestAfter(u: RouteUpdate, routes: set<BgpRoute>, current: Option<BgpRoute>, after: Option<BgpRoute>)
    requires OnePerNeighbor(routes) && forall r :: r in routes ==> r.asPath != []
    requires DecidedAs(u, routes, current, after)
    ensures after == BestAfter(u, routes, current)
  {
    hide Better, Cmp, SameRank;
    FullChoiceIff(routes, after);
    NoRoute();
  }

  lemma OtherNeighbor(routes: set<BgpRoute>, current: BgpRoute, announced: BgpRoute, full: BgpRoute, r: BgpRoute)
    requires Coherent(routes, Some(current)) && announced.neighbor != current.neighbor && announced.asPath != []
    requires r in routes && SameRank(r, current)
    requires Cmp(announced, current) > 0 <==> Better(announced, current)
    requires Cmp(announced, current) < 0 <==> Better(current, announced)
    ensures Coherent(Replace(routes, announced), Some(Outcome(current, announced, full))) <==>
            !Misled(Replace(routes, announced), current, announced)
  {
    var routes' := Replace(routes, announced);
    assert r in routes' && announced in routes';
    assert SameRank(announced, announced);
  }

  lemma SameNeighbor(routes: set<BgpRoute>, current: BgpRoute, announced: BgpRoute, full: BgpRoute)
    requires Coherent(routes, Some(current)) && announced.neighbor == current.neighbor && announced.asPath != []
    requires IsMaximum(full, Replace(routes, announced)) && full.asPath != []
    ensures Coherent(Replace(routes, announced), Some(Outcome(current, announced, full))) <==>
            !Misled(Replace(routes, announced), current, announced)
  {
    var routes' := Replace(routes, announced);
    assert announced in routes' && SameRank(announced, announced) && SameRank(full, full);
  }

  lemma FullDecisionIsRight(routes: set<BgpRoute>, best: BgpRoute)
    requires IsMaximum(best, routes) && Agreeing(routes)
    ensures Coherent(routes, Some(best))
  {
  }

  lemma OthersWithdrawal(routes: set<BgpRoute>, best: BgpRoute, n: Address)
    requires Coherent(routes, Some(best)) && n != best.neighbor
    ensures Coherent(Without(routes, n), Some(best))
  {
    var r :| r in routes && SameRank(r, best);
    assert r in Without(routes, n);
  }

  // ---- the tables ----

  function Announced(s: Store, r: BgpRoute): Store {
    s[KeyOf(r, INPUT_KEYS) := r]
  }

  function Withdrawn(s: Store, p: Prefix, n: Address): Store {
    map k | k in s && !CarriesKey(s[k], NeighborKey(p, n)) :: s[k]
  }

  function InputAfter(s: Store, u: RouteUpdate): Store {
    match u
    case Announce(r) => Announced(s, r)
    case Withdraw(p, n) => Withdrawn(s, p, n)
  }

  function PrefixOfUpdate(u: RouteUpdate): Prefix {
    match u
    case Announce(r) => r.prefix
    case Withdraw(p, n) => p
  }

  function OptionSet<T>(o: Option<T>): set<T> {
    if o.Some? then {o.value} else {}
  }

  // What the caller has to know about the routes of the prefix before it hands over an update.
  ghost predicate Decidable(input: Store, local: Store, u: RouteUpdate) {
    var routes, current := RoutesTo(InputAfter(input, u), PrefixOfUpdate(u)), LocalRoute(local, PrefixOfUpdate(u));
    match u
    case Announce(r) =>
      Agreeing(routes + OptionSet(current) + {r}) && (current.Some? ==> !Misled(routes, current.value, r))
    case Withdraw(p, n) => Agreeing(routes)
  }

  ghost predicate AllCoherent(input: Store, local: Store) {
    forall p: Prefix :: Coherent(RoutesTo(input, p), LocalRoute(local, p))
  }

  lemma CoherentAt(p: Prefix, input: Store, local: Store)
    requires AllCoherent(input, local)
    ensures Coherent(RoutesTo(input, p), LocalRoute(local, p))
  {
  }

  lemma OthersStayCoherent(p: Prefix, input0: Store, local0: Store, input: Store, local: Store)
    requires AllCoherent(input0, local0) && Coherent(RoutesTo(input, p), LocalRoute(local, p))
    requires forall q :: q != p ==> RoutesTo(input, q) == RoutesTo(input0, q)
    requires forall q :: q != p ==> LocalRoute(local, q) == LocalRoute(local0, q)
    ensures AllCoherent(input, local)
  {
    hide Coherent, RoutesTo, LocalRoute;
    forall q
      ensures Coherent(RoutesTo(input, q), LocalRoute(local, q))
    {
      CoherentAt(q, input0, local0);
    }
  }

  class BGPPeer {
    const input: Table
    const local: Table

    constructor ()
      ensures Valid() && fresh(input) && fresh(local) && input.Store() == map[] && local.Store() == map[]
      ensures AllCoherent(input.Store(), local.Store())
    {
      input := new Table(INPUT_KEYS, {{}, {PrefixOf}, {NeighborOf}});
      local := new Table(LOCAL_KEYS, {{}});
    }

    ghost predicate Valid()
      reads input, local
    {
      && input != local && input.Valid() && local.Valid()
      && input.primaryKeys == INPUT_KEYS && input.indexes.Keys == {{}, {PrefixOf}, {NeighborOf}}
      && local.primaryKeys == LOCAL_KEYS && local.indexes.Keys == {{}}
    }

    lemma TablesAreKeyed()
      requires Valid()
      ensures Keyed(input.Store(), INPUT_KEYS) && Keyed(local.Store(), LOCAL_KEYS)
    {
    }

    // `update`: the input table.
    method Update(u: RouteUpdate)
      requires Valid()
      modifies input
      ensures Valid()
      ensures input.Store() == InputAfter(old(input.Store()), u)
    {
      match u
      case Announce(r) =>
        input.Add(r);
      case Withdraw(p, n) =>
        KeysAreDistinct(p, p, n, n);
        var deleted := input.GetOne(NeighborKey(p, n));
        ghost var s := input.Store();
        if deleted.Some? {
          var ok := input.Delete(NeighborKey(p, n));
        } else {
          assert s == Withdrawn(s, p, n) by {
            assert forall k :: k in s ==> s[k] in s.Values;
          }
        }
    }

    // The sorted routes of a prefix, the announced one appended, and the first of them.
    method FullDecision(p: Prefix, announced: Option<BgpRoute>) returns (best: Option<BgpRoute>)
      requires Valid()
      requires Agreeing(RoutesTo(input.Store(), p)) &&
               (announced.Some? ==> announced.value in RoutesTo(input.Store(), p))
      ensures best.None? <==> RoutesTo(input.Store(), p) == {}
      ensures best.Some? ==> IsMaximum(best.value, RoutesTo(input.Store(), p)) && best.value.prefix == p
    {
      hide IsMaximum, Agreeing, KeyOf;
      KeysAreDistinct(p, p, 0, 0);
      ghost var s := input.Store();
      var routes := input.GetAll(PrefixKey(p));
      if announced.Some? {
        routes := routes + [announced.value];
      }
      CollectedRoutes(s, p, routes, announced);
      if routes == [] {
        return None;
      }
      TablesAreKeyed();
      OneRoutePerNeighbor(s, p);
      var r := BestRoute(routes);
      MaximumIsMember(r, RoutesTo(s, p));
      return Some(r);
    }

    // ---- the local table ----

    method CurrentRoute(p: Prefix) returns (current: Option<BgpRoute>)
      requires Valid()
      ensures current == LocalRoute(local.Store(), p)
    {
      hide KeyOf, CarriesKey;
      TablesAreKeyed();
      KeysAreDistinct(p, p, 0, 0);
      current := local.GetOne(PrefixKey(p));
      LocalIsUnique(local.Store(), p, current);
    }

    method UpdateRoute(r: BgpRoute)
      requires Valid()
      modifies local
      ensures Valid()
      ensures forall p ::
                LocalRoute(local.Store(), p) == if p == r.prefix then Some(r) else LocalRoute(old(local.Store()), p)
    {
      hide KeyOf, PrefixKey;
      KeysOfRoute(r);
      local.Add(r);
      forall p
        ensures LocalRoute(local.Store(), p) == if p == r.prefix then Some(r) else LocalRoute(old(local.Store()), p)
      {
        KeysAreDistinct(p, r.prefix, 0, 0);
      }
    }

    method DeleteRoute(p: Prefix)
      requires Valid() && LocalRoute(local.Store(), p).Some?
      modifies local
      ensures Valid()
      ensures forall q :: LocalRoute(local.Store(), q) == if q == p then None else LocalRoute(old(local.Store()), q)
    {
      hide KeyOf, CarriesKey, PrefixKey;
      TablesAreKeyed();
      KeysAreDistinct(p, p, 0, 0);
      ghost var before := local.Store();
      var ok := local.Delete(PrefixKey(p));
      forall q
        ensures LocalRoute(local.Store(), q) == if q == p then None else LocalRoute(before, q)
      {
        KeysAreDistinct(q, p, 0, 0);
        if PrefixKey(q) in before {
          FitsMeans(before[PrefixKey(q)], p, 0);
          KeysOfRoute(before[PrefixKey(q)]);
          KeysAreDistinct(q, before[PrefixKey(q)].prefix, 0, 0);
        }
      }
    }

    // The announcement part of `decision_process`: the route to install, if any.
    method NewBest(r: BgpRoute, current: Option<BgpRoute>, ghost routes: set<BgpRoute>)
      returns (newBest: Option<BgpRoute>)
      requires Valid() && RoutesTo(input.Store(), r.prefix) == Replace(routes, r) && Coherent(routes, current)
      requires Agreeing(Replace(routes, r) + OptionSet(current) + {r})
      requires current.Some? ==> !Misled(Replace(routes, r), current.value, r)
      ensures newBest.Some? ==> newBest.value.prefix == r.prefix && newBest.value in Replace(routes, r)
      ensures Coherent(Replace(routes, r), if newBest.Some? then newBest else current)
      ensures DecidedAs(Announce(r), Replace(routes, r), current, if newBest.Some? then newBest else current)
    {
      hide Coherent, Agreeing, Misled, IsMaximum, Cmp, Better, RoutesTo, Without, KeyOf, PrimaryAgrees, IndexesAgree,
        StoreOf, Keyed;
      AgreeingFacts(Replace(routes, r), current, r);
      if current.None? {
        FirstRoute(routes, r);
        return Some(r);
      }
      newBest := None;
      var best := current.value;
      ghost var full := Maximum(Replace(routes, r));
      if Cmp(r, best) > 0 {
        newBest := Some(r);
      }
      if best.asPathVmac.None? {
        if r.asPathVmac.Some? {
          newBest := Some(r);
        }
      } else if Cmp(r, best) < 0 && r.neighbor == best.neighbor {
        newBest := FullDecision(r.prefix, Some(r));
        full := newBest.value;
        MaximumIsMember(full, Replace(routes, r));
      }
      DecisionIsRightIff(routes, best, r, full);
    }

    // `decision_process`, after the input table has been updated from `input0`.
    method DecisionProcess(u: RouteUpdate, ghost input0: Store)
      requires Valid() && Keyed(input0, INPUT_KEYS) && input.Store() == InputAfter(input0, u)
      requires AllCoherent(input0, local.Store()) && Decidable(input0, local.Store(), u)
      modifies local
      ensures Valid() && AllCoherent(input.Store(), local.Store())
      ensures var p := PrefixOfUpdate(u);
              DecidedAs(u, RoutesTo(input.Store(), p), LocalRoute(old(local.Store()), p), LocalRoute(local.Store(), p))
      ensures forall p :: p != PrefixOfUpdate(u) ==> LocalRoute(local.Store(), p) == LocalRoute(old(local.Store()), p)
      ensures forall p :: LocalRoute(local.Store(), p).Some? ==>
                LocalRoute(local.Store(), p) == LocalRoute(old(local.Store()), p) ||
                LocalRoute(local.Store(), p).value in RoutesTo(input.Store(), p)
    {
      hide Coherent, AllCoherent, Agreeing, Misled, KeyOf, IsMaximum, InputAfter, Cmp, RoutesTo, LocalRoute, Keyed;
      RoutesAfterUpdate(input0, u);
      var prefix := PrefixOfUpdate(u);
      var current := CurrentRoute(prefix);
      ghost var routes, local0 := RoutesTo(input0, prefix), local.Store();
      CoherentAt(prefix, input0, local0);
      match u {
        case Announce(r) =>
          var newBest := NewBest(r, current, routes);
          if newBest.Some? {
            UpdateRoute(newBest.value);
          }
        case Withdraw(p, n) =>
          if current.Some? && n == current.value.neighbor {
            DeleteRoute(p);
            var best := FullDecision(p, None);
            if best.Some? {
              FullDecisionIsRight(RoutesTo(input.Store(), p), best.value);
              MaximumIsMember(best.value, RoutesTo(input.Store(), p));
              UpdateRoute(best.value);
            }
            NoRoute();
          } else {
            NotTheBest(routes, current, n);
          }
      }
      OthersStayCoherent(prefix, input0, local0, input.Store(), local.Store());
    }

    // One update after another, each handed to both tables.
    method HandleUpdate(u: RouteUpdate)
      requires Valid() && AllCoherent(input.Store(), local.Store()) && Decidable(input.Store(), local.Store(), u)
      modifies input, local
      ensures Valid() && AllCoherent(input.Store(), local.Store())
      ensures input.Store() == InputAfter(old(input.Store()), u)
      ensures var p := PrefixOfUpdate(u);
              DecidedAs(u, RoutesTo(input.Store(), p), LocalRoute(old(local.Store()), p), LocalRoute(local.Store(), p))
      ensures forall p :: p != PrefixOfUpdate(u) ==> LocalRoute(local.Store(), p) == LocalRoute(old(local.Store()), p)
      ensures forall p :: LocalRoute(local.Store(), p).Some? ==>
                LocalRoute(local.Store(), p) == LocalRoute(old(local.Store()), p) ||
                LocalRoute(local.Store(), p).value in RoutesTo(input.Store(), p)
    {
      hide AllCoherent, Decidable, InputAfter, Keyed;
      TablesAreKeyed();
      ghost var input0 := input.Store();
      Update(u);
      DecisionProcess(u, input0);
    }

    // Whatever is announced and withdrawn, the incremental choice ranks as a full decision
    // over the input table, and it is the full choice as long as no neighbour replaces a
    // route by another one that compares as equal.
    method Run(updates: seq<RouteUpdate>, med: int)
      requires Valid() && AllCoherent(input.Store(), local.Store())
      requires AllOrdinary(input.Store(), med) && AllOrdinary(local.Store(), med)
      requires forall i :: 0 <= i < |updates| && updates[i].Announce? ==> Ordinary(updates[i].route, med)
      modifies input, local
      ensures Valid() && AllCoherent(input.Store(), local.Store())
      ensures input.Store() == InputAfterAll(old(input.Store()), updates)
      ensures forall p :: LocalRoute(local.Store(), p) ==
                          BestAfterAll(old(input.Store()), LocalRoute(old(local.Store()), p), p, updates)
      ensures AllOffered(old(input.Store()), old(local.Store())) &&
              TieFree(Announcements(old(input.Store()), updates)) ==>
                forall p :: LocalRoute(local.Store(), p) == FullChoice(RoutesTo(input.Store(), p))
    {
      hide AllCoherent, Decidable, InputAfter, AllOrdinary, Ordinary, RoutesTo, LocalRoute, Keyed, DecidedAs, BestAfter,
        AllOffered, TieFree, Announcements, AllFrom, FullChoice, OnePerNeighbor, BestAfterAll;
      TablesAreKeyed();
      AllFromSelf(input.Store(), updates);
      NoUpdates(input.Store());
      ghost var tieFree := AllOffered(input.Store(), local.Store()) && TieFree(Announcements(input.Store(), updates));
      var i := 0;
      while i < |updates|
        invariant i <= |updates| && Valid() && AllCoherent(input.Store(), local.Store())
        invariant AllOrdinary(input.Store(), med) && AllOrdinary(local.Store(), med)
        invariant input.Store() == InputAfterAll(old(input.Store()), updates[..i])
        invariant forall p :: LocalRoute(local.Store(), p) ==
                              BestAfterAll(old(input.Store()), LocalRoute(old(local.Store()), p), p, updates[..i])
        invariant Keyed(input.Store(), INPUT_KEYS) && AllFrom(input.Store(), old(input.Store()), updates)
        invariant tieFree ==> AllOffered(input.Store(), local.Store())
      {
        assert updates[..i + 1][..i] == updates[..i];
        ghost var input0, local0 := input.Store(), local.Store();
        OrdinaryIsDecidable(input0, local0, updates[i], med);
        HandleUpdate(updates[i]);
        TablesAreKeyed();
        StaysOrdinary(local0, local.Store(), input.Store(), med);
        StaysFrom(input0, old(input.Store()), updates, i);
        if tieFree {
          StaysOffered(input0, local0, local.Store(), old(input.Store()), updates, i, med);
        }
        OneMoreUpdate(old(input.Store()), old(local.Store()), input0, local0, input.Store(), local.Store(), updates,
                      i, med);
        i := i + 1;
      }
      assert updates[..i] == updates;
      if tieFree {
        AllFull(input.Store(), local.Store(), med);
      }
    }
  }

  // A route that the comparison can handle, through the encoder, with the MED everybody uses.
  ghost predicate Ordinary(r: BgpRoute, med: int) {
    r.asPath != [] && r.asPathVmac.Some? && r.med == med
  }

  ghost predicate AllOrdinary(s: Store, med: int) {
    forall k :: k in s ==> Ordinary(s[k], med)
  }

  // Among such routes every update can be decided.
  lemma OrdinaryIsDecidable(input: Store, local: Store, u: RouteUpdate, med: int)
    requires AllOrdinary(input, med) && AllOrdinary(local, med) && (u.Announce? ==> Ordinary(u.route, med))
    ensures Decidable(input, local, u) && AllOrdinary(InputAfter(input, u), med)
  {
    hide KeyOf, CarriesKey, Cmp;
  }

  lemma StaysOrdinary(before: Store, after: Store, input: Store, med: int)
    requires AllOrdinary(before, med) && AllOrdinary(input, med) && Keyed(after, LOCAL_KEYS)
    requires forall p :: LocalRoute(after, p).Some? ==>
               LocalRoute(after, p) == LocalRoute(before, p) || LocalRoute(after, p).value in RoutesTo(input, p)
    ensures AllOrdinary(after, med)
  {
    hide KeyOf;
    forall k | k in after
      ensures Ordinary(after[k], med)
    {
      KeysOfRoute(after[k]);
      assert LocalRoute(after, after[k].prefix) == Some(after[k]);
    }
  }

  function InputAfterAll(s: Store, updates: seq<RouteUpdate>): Store {
    if updates == [] then s else InputAfter(InputAfterAll(s, updates[..|updates| - 1]), updates[|updates| - 1])
  }

  // ---- which routes the local table can hold ----

  ghost predicate AllOffered(input: Store, local: Store) {
    forall p: Prefix :: Offered(RoutesTo(input, p), LocalRoute(local, p))
  }

  // All routes of the table and of the updates.
  ghost function Announcements(s: Store, updates: seq<RouteUpdate>): set<BgpRoute> {
    s.Values + set i | 0 <= i < |updates| && updates[i].Announce? :: updates[i].route
  }

  // No neighbour has two routes towards a prefix that compare as equal.
  ghost predicate TieFree(routes: set<BgpRoute>) {
    forall a, b ::
      a in routes && b in routes && a.prefix == b.prefix && a.neighbor == b.neighbor && Ties(a, b) ==> a == b
  }

  predicate Ties(a: BgpRoute, b: BgpRoute) {
    a.asPath != [] && b.asPath != [] && Cmp(a, b) == 0
  }

  ghost predicate AllFrom(s: Store, s0: Store, updates: seq<RouteUpdate>) {
    forall k :: k in s ==> s[k] in Announcements(s0, updates)
  }

  // The local route towards a prefix after all updates.
  ghost function BestAfterAll(input: Store, current: Option<BgpRoute>, p: Prefix, updates: seq<RouteUpdate>)
      : Option<BgpRoute>
  {
    if updates == [] then current
    else
      var u := updates[|updates| - 1];
      var before := BestAfterAll(input, current, p, updates[..|updates| - 1]);
      if PrefixOfUpdate(u) == p then BestAfter(u, RoutesTo(InputAfterAll(input, updates), p), before) else before
  }

  lemma NoUpdates(input: Store)
    ensures forall current, p :: BestAfterAll(input, current, p, []) == current
  {
  }

  // ---- whole runs, one prefix at a time ----

  // After n updates the local route is the full choice.
  ghost predicate FullAt(input: Store, best: Option<BgpRoute>, p: Prefix, updates: seq<RouteUpdate>, n: nat)
    requires n <= |updates|
  {
    BestAfterAll(input, best, p, updates[..n]) == FullChoice(RoutesTo(InputAfterAll(input, updates[..n]), p))
  }

  // Update n is an announcement that is overlooked when it arrives.
  ghost predicate OverlookedAt(input: Store, best: Option<BgpRoute>, p: Prefix, updates: seq<RouteUpdate>, n: nat)
    requires n < |updates|
  {
    var current := BestAfterAll(input, best, p, updates[..n]);
    && updates[n].Announce? && updates[n].route.prefix == p && current.Some?
    && Comparable(updates[n].route, current.value) && Overlooked(current.value, updates[n].route)
  }

  // Over a run of ordinary updates, the local route is the full choice all the way exactly
  // if no announcement is overlooked when it arrives.
  lemma RunIsFullIff(input: Store, best: Option<BgpRoute>, p: Prefix, updates: seq<RouteUpdate>, med: int)
    requires Keyed(input, INPUT_KEYS) && AllOrdinary(input, med) && FullAt(input, best, p, updates, 0)
    requires forall i :: 0 <= i < |updates| && updates[i].Announce? ==> Ordinary(updates[i].route, med)
    ensures (forall n :: 0 <= n <= |updates| ==> FullAt(input, best, p, updates, n)) <==>
            (forall n :: 0 <= n < |updates| ==> !OverlookedAt(input, best, p, updates, n))
  {
    hide FullAt, OverlookedAt, Ordinary, AllOrdinary, Keyed;
    forall n | 0 <= n < |updates| && FullAt(input, best, p, updates, n)
      ensures FullAt(input, best, p, updates, n + 1) <==> !OverlookedAt(input, best, p, updates, n)
    {
      FullStep(input, best, p, updates, n, med);
    }
    if forall n :: 0 <= n < |updates| ==> !OverlookedAt(input, best, p, updates, n) {
      var n := 0;
      while n < |updates|
        invariant 0 <= n <= |updates| && forall k :: 0 <= k <= n ==> FullAt(input, best, p, updates, k)
      {
        assert !OverlookedAt(input, best, p, updates, n);
        n := n + 1;
      }
    } else {
      var n :| 0 <= n < |updates| && OverlookedAt(input, best, p, updates, n);
      assert FullAt(input, best, p, updates, n) ==> !FullAt(input, best, p, updates, n + 1);
    }
  }

  lemma FullStep(input: Store, best: Option<BgpRoute>, p: Prefix, updates: seq<RouteUpdate>, n: nat, med: int)
    requires Keyed(input, INPUT_KEYS) && AllOrdinary(input, med) && n < |updates|
    requires forall i :: 0 <= i < |updates| && updates[i].Announce? ==> Ordinary(updates[i].route, med)
    requires FullAt(input, best, p, updates, n)
    ensures FullAt(input, best, p, updates, n + 1) <==> !OverlookedAt(input, best, p, updates, n)
  {
    hide RoutesTo, FullChoice, Keyed, AllOrdinary, BestAfter, InputAfter, Overlooked, Ordinary;
    var u, s := updates[n], InputAfterAll(input, updates[..n]);
    assert updates[..n + 1][..n] == updates[..n];
    StaysOrdinaryAll(input, updates, n, med);
    RoutesAfterUpdate(s, u);
    OneRoutePerNeighbor(s, p);
    OrdinaryRoutes(s, p, med);
    if PrefixOfUpdate(u) == p {
      UpdateIsFullIff(u, RoutesTo(s, p), BestAfterAll(input, best, p, updates[..n]), med);
    }
  }

  lemma {:induction false} StaysOrdinaryAll(input: Store, updates: seq<RouteUpdate>, n: nat, med: int)
    requires Keyed(input, INPUT_KEYS) && AllOrdinary(input, med) && n <= |updates|
    requires forall i :: 0 <= i < |updates| && updates[i].Announce? ==> Ordinary(updates[i].route, med)
    ensures var s := InputAfterAll(input, updates[..n]); Keyed(s, INPUT_KEYS) && AllOrdinary(s, med)
  {
    hide Keyed, AllOrdinary, InputAfter, Ordinary;
    if n > 0 {
      assert updates[..n][..n - 1] == updates[..n - 1];
      StaysOrdinaryAll(input, updates, n - 1, med);
      RoutesAfterUpdate(InputAfterAll(input, updates[..n - 1]), updates[n - 1]);
      InputStaysOrdinary(InputAfterAll(input, updates[..n - 1]), updates[n - 1], med);
    }
  }

  lemma InputStaysOrdinary(input: Store, u: RouteUpdate, med: int)
    requires AllOrdinary(input, med) && (u.Announce? ==> Ordinary(u.route, med))
    ensures AllOrdinary(InputAfter(input, u), med)
  {
    hide KeyOf, CarriesKey, Ordinary;
  }

  lemma OrdinaryRoutes(s: Store, p: Prefix, med: int)
    requires AllOrdinary(s, med)
    ensures forall r :: r in RoutesTo(s, p) ==> Ordinary(r, med)
  {
  }

  // One update of the prefix, on its routes.
  lemma UpdateIsFullIff(u: RouteUpdate, routes: set<BgpRoute>, current: Option<BgpRoute>, med: int)
    requires OnePerNeighbor(routes) && (forall r :: r in routes ==> Ordinary(r, med))
    requires current == FullChoice(routes) && (u.Announce? ==> Ordinary(u.route, med))
    ensures var routes' := if u.Announce? then Replace(routes, u.route) else Without(routes, u.neighbor);
            BestAfter(u, routes', current) == FullChoice(routes') <==>
            !(u.Announce? && current.Some? && Comparable(u.route, current.value) && Overlooked(current.value, u.route))
  {
    hide Coherent, FullChoice, Better, Cmp, Overlooked, Misled, Decide;
    FullChoiceIff(routes, current);
    match u
    case Withdraw(_, n) =>
      FullChoiceIff(Without(routes, n), current);
      if current.None? || current.value.neighbor != n {
        NotTheBest(routes, current, n);
      }
    case Announce(r) =>
      if current.None? {
        NoRoutes(routes);
        FirstRoute(routes, r);
        FullChoiceIff(Replace(routes, r), Some(r));
      } else {
        OrdinaryAgree(Replace(routes, r) + {current.value}, med);
        NotMisled(Replace(routes, r), current.value, r);
        DecisionIsFullIff(routes, current.value, r);
        OutcomeIsBestAfter(Replace(routes, r), current.value, r);
      }
  }

  lemma NoRoutes(routes: set<BgpRoute>)
    requires Coherent(routes, None)
    ensures routes == {}
  {
  }

  lemma OrdinaryAgree(routes: set<BgpRoute>, med: int)
    requires forall r :: r in routes ==> Ordinary(r, med)
    ensures Agreeing(routes)
  {
  }

  lemma NotMisled(routes: set<BgpRoute>, current: BgpRoute, r: BgpRoute)
    requires current.asPathVmac.Some? && Comparable(r, current)
    ensures !Misled(routes, current, r)
  {
  }

  lemma OutcomeIsBestAfter(routes: set<BgpRoute>, current: BgpRoute, r: BgpRoute)
    requires Comparable(r, current) && FullChoice(routes).Some?
    ensures BestAfter(Announce(r), routes, Some(current)) == Some(Outcome(current, r, FullChoice(routes).value))
  {
    hide FullChoice;
  }

  lemma AllFromSelf(s: Store, updates: seq<RouteUpdate>)
    ensures AllFrom(s, s, updates)
  {
  }

  lemma StaysFrom(s: Store, s0: Store, updates: seq<RouteUpdate>, i: nat)
    requires AllFrom(s, s0, updates) && i < |updates|
    ensures AllFrom(InputAfter(s, updates[i]), s0, updates)
    ensures updates[i].Announce? ==> updates[i].route in Announcements(s0, updates)
  {
    hide KeyOf, CarriesKey;
  }

  lemma StaysOffered(input: Store, local: Store, local': Store, input0: Store, updates: seq<RouteUpdate>, i: nat,
                     med: int)
    requires i < |updates| && Keyed(input, INPUT_KEYS) && AllOffered(input, local) && AllOrdinary(input, med)
    requires TieFree(Announcements(input0, updates)) && AllFrom(input, input0, updates)
    requires updates[i].Announce? ==> Ordinary(updates[i].route, med)
    requires var u, p := updates[i], PrefixOfUpdate(updates[i]);
             DecidedAs(u, RoutesTo(InputAfter(input, u), p), LocalRoute(local, p), LocalRoute(local', p))
    requires forall p :: p != PrefixOfUpdate(updates[i]) ==> LocalRoute(local', p) == LocalRoute(local, p)
    ensures AllOffered(InputAfter(input, updates[i]), local')
  {
    hide RoutesTo, LocalRoute, InputAfter, Cmp, Better, KeyOf, Announcements;
    var u, all := updates[i], Announcements(input0, updates);
    StaysFrom(input, input0, updates, i);
    RoutesAfterUpdate(input, u);
    var p := PrefixOfUpdate(u);
    InTable(input, p);
    assert Offered(RoutesTo(input, p), LocalRoute(local, p));
    forall q
      ensures Offered(RoutesTo(InputAfter(input, u), q), LocalRoute(local', q))
    {
      assert Offered(RoutesTo(input, q), LocalRoute(local, q));
    }
  }

  lemma InTable(s: Store, p: Prefix)
    ensures forall r :: r in RoutesTo(s, p) ==> r.prefix == p && r in s.Values
  {
  }

  lemma OneMoreUpdate(input0: Store, local0: Store, input1: Store, local1: Store, input: Store, local: Store,
                      updates: seq<RouteUpdate>, i: nat, med: int)
    requires i < |updates| && AllOrdinary(input, med) && Keyed(input, INPUT_KEYS)
    requires forall p :: LocalRoute(local1, p) == BestAfterAll(input0, LocalRoute(local0, p), p, updates[..i])
    requires input == InputAfter(input1, updates[i]) && input1 == InputAfterAll(input0, updates[..i])
    requires var p := PrefixOfUpdate(updates[i]);
             DecidedAs(updates[i], RoutesTo(input, p), LocalRoute(local1, p), LocalRoute(local, p))
    requires forall p :: p != PrefixOfUpdate(updates[i]) ==> LocalRoute(local, p) == LocalRoute(local1, p)
    ensures forall p :: LocalRoute(local, p) == BestAfterAll(input0, LocalRoute(local0, p), p, updates[..i + 1])
  {
    hide DecidedAs, BestAfter, RoutesTo, LocalRoute, InputAfter, Keyed;
    var more := updates[..i + 1];
    assert more[..i] == updates[..i] && more[i] == updates[i];
    var p := PrefixOfUpdate(updates[i]);
    OneRoutePerNeighbor(input, p);
    OrdinaryPaths(input, p, med);
    DecidedIsBestAfter(updates[i], RoutesTo(input, p), LocalRoute(local1, p), LocalRoute(local, p));
  }

  lemma OrdinaryPaths(s: Store, p: Prefix, med: int)
    requires AllOrdinary(s, med)
    ensures forall r :: r in RoutesTo(s, p) ==> r.asPath != []
  {
  }

  lemma AllFull(input: Store, local: Store, med: int)
    requires AllCoherent(input, local) && AllOffered(input, local) && AllOrdinary(input, med) &&
             Keyed(input, INPUT_KEYS)
    ensures forall p :: LocalRoute(local, p) == FullChoice(RoutesTo(input, p))
  {
    hide Coherent, FullChoice, RoutesTo, LocalRoute, Keyed, OnePerNeighbor;
    forall p
      ensures LocalRoute(local, p) == FullChoice(RoutesTo(input, p))
    {
      OneRoutePerNeighbor(input, p);
      OrdinaryPaths(input, p, med);
      FullChoiceIff(RoutesTo(input, p), LocalRoute(local, p));
    }
  }

  lemma NoRoute()
    ensures Coherent({}, None)
  {
  }

  lemma NotTheBest(routes: set<BgpRoute>, current: Option<BgpRoute>, n: Address)
    requires Coherent(routes, current) && (current.Some? ==> current.value.neighbor != n)
    ensures Coherent(Without(routes, n), current)
  {
    if current.Some? {
      OthersWithdrawal(routes, current.value, n);
    }
  }

  lemma FirstRoute(routes: set<BgpRoute>, r: BgpRoute)
    requires Coherent(routes, None) && r.asPath != []
    ensures Coherent(Replace(routes, r), Some(r))
  {
  }

  lemma AgreeingFacts(routes: set<BgpRoute>, current: Option<BgpRoute>, r: BgpRoute)
    requires Agreeing(routes + OptionSet(current) + {r}) && r in routes
    ensures Agreeing(routes) && r.asPath != [] && (current.Some? ==> Agreeing(routes + {current.value}))
  {
  }

  lemma MaximumIsMember(r: BgpRoute, routes: set<BgpRoute>)
    requires IsMaximum(r, routes)
    ensures r in routes
  {
  }

  lemma {:induction false} Maximum(routes: set<BgpRoute>) returns (best: BgpRoute)
    requires routes != {}
    ensures IsMaximum(best, routes)
    decreases routes
  {
    var r :| r in routes;
    best := r;
    var rest := routes - {r};
    assert forall q :: q in routes <==> q == r || q in rest;
    if rest != {} {
      var b := Maximum(rest);
      best := if Better(r, b) then r else b;
    }
  }

  lemma LocalIsUnique(s: Store, p: Prefix, found: Option<BgpRoute>)
    requires Keyed(s, LOCAL_KEYS)
    requires found.Some? ==> found.value in s.Values && CarriesKey(found.value, PrefixKey(p))
    requires found.None? <==> forall r :: r in s.Values ==> !CarriesKey(r, PrefixKey(p))
    ensures found == LocalRoute(s, p)
  {
    hide CarriesKey;
    if found.Some? {
      var k :| k in s && s[k] == found.value;
      FitsMeans(found.value, p, 0);
      KeysOfRoute(found.value);
    }
    InLocal(s, p);
  }

  lemma InLocal(s: Store, p: Prefix)
    requires Keyed(s, LOCAL_KEYS)
    ensures LocalRoute(s, p).Some? ==>
            LocalRoute(s, p).value in s.Values && CarriesKey(LocalRoute(s, p).value, PrefixKey(p))
  {
  }

  lemma RoutesAfterUpdate(s: Store, u: RouteUpdate)
    requires Keyed(s, INPUT_KEYS)
    ensures Keyed(InputAfter(s, u), INPUT_KEYS)
    ensures forall p :: p != PrefixOfUpdate(u) ==> RoutesTo(InputAfter(s, u), p) == RoutesTo(s, p)
    ensures RoutesTo(InputAfter(s, u), PrefixOfUpdate(u)) ==
            match u
            case Announce(r) => Replace(RoutesTo(s, r.prefix), r)
            case Withdraw(p, n) => Without(RoutesTo(s, p), n)
  {
    hide RoutesTo, Keyed, KeyOf, CarriesKey;
    forall p
      ensures Keyed(InputAfter(s, u), INPUT_KEYS)
      ensures p != PrefixOfUpdate(u) ==> RoutesTo(InputAfter(s, u), p) == RoutesTo(s, p)
    {
      match u
      case Announce(r) => RoutesAfterAdd(s, r, p);
      case Withdraw(q, n) => RoutesAfterDelete(s, Withdrawn(s, q, n), q, n, p);
    }
    match u
    case Announce(r) => RoutesAfterAdd(s, r, r.prefix);
    case Withdraw(p, n) => RoutesAfterDelete(s, Withdrawn(s, p, n), p, n, p);
  }

  // In plain terms: an announcement takes the place of the neighbour's route to the prefix, a
  // withdrawal takes this route out, and everything else stays.
  lemma InputPlain(s: Store, u: RouteUpdate)
    requires Keyed(s, INPUT_KEYS)
    ensures u.Announce? ==> forall q :: q in InputAfter(s, u).Values <==>
              q == u.route || (q in s.Values && !(q.prefix == u.route.prefix && q.neighbor == u.route.neighbor))
    ensures u.Withdraw? ==> forall q :: q in InputAfter(s, u).Values <==>
              q in s.Values && !(q.prefix == u.prefix && q.neighbor == u.neighbor)
  {
    hide KeyOf, CarriesKey;
    forall q | q in s.Values
      ensures exists k :: k in s && s[k] == q && k == NeighborKey(q.prefix, q.neighbor)
    {
      var k :| k in s && s[k] == q;
      KeysOfRoute(q);
    }
    match u
    case Announce(r) => KeysOfRoute(r); OthersKeep(s, r);
    case Withdraw(p, n) => CarriersGo(s, p, n);
  }

  lemma OthersKeep(s: Store, r: BgpRoute)
    requires Keyed(s, INPUT_KEYS) && KeyOf(r, INPUT_KEYS) == NeighborKey(r.prefix, r.neighbor)
    ensures forall q :: q in Announced(s, r).Values <==>
              q == r || (q in s.Values && !(q.prefix == r.prefix && q.neighbor == r.neighbor))
  {
    hide KeyOf;
    var key, s' := NeighborKey(r.prefix, r.neighbor), Announced(s, r);
    forall q
      ensures q in s'.Values <==> q == r || (q in s.Values && !(q.prefix == r.prefix && q.neighbor == r.neighbor))
    {
      KeysOfRoute(q);
      KeysAreDistinct(q.prefix, r.prefix, q.neighbor, r.neighbor);
      if q in s.Values {
        var k :| k in s && s[k] == q;
        assert k != key ==> s'[k] == q;
      }
      if q == r {
        assert s'[key] == r;
      } else if q in s'.Values {
        var k :| k in s' && s'[k] == q;
        assert k != key && s[k] == q;
      }
    }
  }

  lemma CarriersGo(s: Store, p: Prefix, n: Address)
    ensures forall q :: q in Withdrawn(s, p, n).Values <==>
              q in s.Values && !(q.prefix == p && q.neighbor == n)
  {
    hide CarriesKey;
    forall q
      ensures q in Withdrawn(s, p, n).Values <==> q in s.Values && !(q.prefix == p && q.neighbor == n)
    {
      FitsMeans(q, p, n);
      if q in s.Values && !CarriesKey(q, NeighborKey(p, n)) {
        var k :| k in s && s[k] == q;
        assert Withdrawn(s, p, n)[k] == q;
      }
    }
  }

  // The routes of a table to a prefix, and the one of the local table.
  lemma RoutesPlain(s: Store, p: Prefix)
    ensures forall r :: r in RoutesTo(s, p) <==> r in s.Values && r.prefix == p
    ensures Keyed(s, LOCAL_KEYS) ==> forall r :: LocalRoute(s, p) == Some(r) <==> r in s.Values && r.prefix == p
  {
    hide KeyOf;
    if Keyed(s, LOCAL_KEYS) {
      forall r | r in s.Values
        ensures PrefixKey(r.prefix) in s && s[PrefixKey(r.prefix)] == r
      {
        var k :| k in s && s[k] == r;
        KeysOfRoute(r);
      }
      if LocalRoute(s, p).Some? {
        KeysOfRoute(s[PrefixKey(p)]);
        KeysAreDistinct(p, s[PrefixKey(p)].prefix, 0, 0);
      }
    }
  }

  lemma CollectedRoutes(s: Store, p: Prefix, routes: seq<BgpRoute>, announced: Option<BgpRoute>)
    requires announced.Some? ==> announced.value in RoutesTo(s, p)
    requires forall r :: r in routes <==> (r in s.Values && CarriesKey(r, PrefixKey(p))) || Some(r) == announced
    ensures (set r | r in routes) == RoutesTo(s, p)
    ensures routes == [] <==> RoutesTo(s, p) == {}
  {
    hide CarriesKey;
    forall r
      ensures r in routes <==> r in RoutesTo(s, p)
    {
      FitsMeans(r, p, 0);
      if r in RoutesTo(s, p) {
        var k :| k in s && s[k] == r;
      }
    }
    if routes != [] {
      assert routes[0] in RoutesTo(s, p);
    }
  }
}
