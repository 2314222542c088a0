// The forwarding equivalence classes of pctrl/FEC.py: prefixes with the same next hop and
// the same advertisers share a class, kept up as routes come and go.
module Fec {
  import opened AsPaths
  import opened BgpPeer
  import opened Collections
  import opened Participants
  import opened RibTable
  import opened RouteRank

  type ClassKey = (Part, Group)

  type Classes = map<ClassKey, ForwardingClass>

  function Elements(routes: seq<BgpRoute>): set<BgpRoute> {
    set r | r in routes
  }

  // The participants behind the next hops of the routes.
  function Advertisers(routes: set<BgpRoute>, parts: map<Address, Part>): Group {
    set r | r in routes && r.nextHop in parts :: parts[r.nextHop]
  }

  function ClassKeyOf(routes: set<BgpRoute>, best: BgpRoute, parts: map<Address, Part>): ClassKey
    requires best.nextHop in parts
  {
    (parts[best.nextHop], Advertisers(routes, parts))
  }

  // Classes are filed under what they describe, each under a number of its own.
  ghost predicate WellFiled(classes: Classes) {
    && (forall k :: k in classes ==>
          classes[k].nextHopPart == k.0 && classes[k].partAdvertising == k.1 && 1 <= classes[k].id <= |classes.Keys|)
    && (forall k, l :: k in classes && l in classes && classes[k].id == classes[l].id ==> k == l)
  }

  // The next class in the list, unless there is one already.
  function ClassesWith(classes: Classes, k: ClassKey): Classes {
    if k in classes then classes else classes[k := ForwardingClass(|classes.Keys| + 1, k.0, k.1)]
  }

  lemma FiledAnother(classes: Classes, k: ClassKey)
    requires WellFiled(classes)
    ensures WellFiled(ClassesWith(classes, k)) && k in ClassesWith(classes, k)
    ensures forall l :: l in classes ==> l in ClassesWith(classes, k) && ClassesWith(classes, k)[l] == classes[l]
  {
    hide ClassesWith;
    NextClass(classes, k);
    if k !in classes {
      var next := ClassesWith(classes, k);
      forall l | l in next
        ensures next[l].nextHopPart == l.0 && next[l].partAdvertising == l.1 && 1 <= next[l].id <= |next.Keys|
        ensures next[l].id == |next.Keys| ==> l == k
      {
        if l != k {
          assert l in classes && next[l] == classes[l];
        }
      }
      forall l, m | l in next && m in next && next[l].id == next[m].id
        ensures l == m
      {
        if l != k && m != k {
          assert next[l] == classes[l] && next[m] == classes[m];
        }
      }
    }
  }

  lemma NextClass(classes: Classes, k: ClassKey)
    ensures var next := ClassesWith(classes, k);
            && next.Keys == classes.Keys + {k}
            && (k in classes ==> next == classes)
            && (k !in classes ==>
                  && |next.Keys| == |classes.Keys| + 1
                  && next[k] == ForwardingClass(|next.Keys|, k.0, k.1))
            && forall l :: l in classes ==> next[l] == classes[l]
  {
    if k !in classes {
      assert ClassesWith(classes, k).Keys == classes.Keys + {k};
    }
  }

  // A prefix has a class exactly if it has a local route, and it is the class of its next
  // hop and its advertisers.
  ghost predicate ClassFits(p: Prefix, routes: set<BgpRoute>, best: Option<BgpRoute>, parts: map<Address, Part>,
                            classes: Classes, held: map<Prefix, ForwardingClass>) {
    && (p in held <==> best.Some?)
    && (best.Some? ==>
          && best.value.nextHop in parts
          && ClassKeyOf(routes, best.value, parts) in classes
          && held[p] == classes[ClassKeyOf(routes, best.value, parts)])
  }

  ghost predicate AllFit(input: Store, local: Store, parts: map<Address, Part>, classes: Classes,
                         held: map<Prefix, ForwardingClass>) {
    forall p: Prefix :: ClassFits(p, RoutesTo(input, p), LocalRoute(local, p), parts, classes, held)
  }

  lemma FitsAt(p: Prefix, input: Store, local: Store, parts: map<Address, Part>, classes: Classes,
               held: map<Prefix, ForwardingClass>)
    requires AllFit(input, local, parts, classes, held)
    ensures ClassFits(p, RoutesTo(input, p), LocalRoute(local, p), parts, classes, held)
    ensures p in held <==> LocalRoute(local, p).Some?
  {
    hide RoutesTo, LocalRoute;
  }

  // Classes are only added, and the routes of the other prefixes stay.
  lemma OthersStillFit(p: Prefix, input0: Store, local0: Store, input: Store, local: Store,
                       parts: map<Address, Part>, classes0: Classes, classes: Classes,
                       held0: map<Prefix, ForwardingClass>, held: map<Prefix, ForwardingClass>)
    requires AllFit(input0, local0, parts, classes0, held0)
    requires ClassFits(p, RoutesTo(input, p), LocalRoute(local, p), parts, classes, held)
    requires forall k :: k in classes0 ==> k in classes && classes[k] == classes0[k]
    requires forall q :: q != p ==> (q in held <==> q in held0)
    requires forall q :: q != p && q in held ==> held[q] == held0[q]
    requires forall q :: q != p ==> RoutesTo(input, q) == RoutesTo(input0, q)
    requires forall q :: q != p ==> LocalRoute(local, q) == LocalRoute(local0, q)
    ensures AllFit(input, local, parts, classes, held)
  {
    hide RoutesTo, LocalRoute, ClassKeyOf;
    forall q
      ensures ClassFits(q, RoutesTo(input, q), LocalRoute(local, q), parts, classes, held)
    {
      if q != p {
        assert ClassFits(q, RoutesTo(input0, q), LocalRoute(local0, q), parts, classes0, held0);
      }
    }
  }

  class FEC {
    const bgpInstance: BGPPeer
    const nexthop2Part: map<Address, Part>
    var fecList: Classes
    var prefix2Fec: map<Prefix, ForwardingClass>
    var prefix2FecNrfp: map<Prefix, ForwardingClass>

    constructor (bgpInstance: BGPPeer, nexthop2Part: map<Address, Part>)
      ensures this.bgpInstance == bgpInstance && this.nexthop2Part == nexthop2Part
      ensures fecList == map[] && prefix2Fec == map[] && WellFiled(fecList)
    {
      this.bgpInstance, this.nexthop2Part := bgpInstance, nexthop2Part;
      fecList, prefix2Fec, prefix2FecNrfp := map[], map[], map[];
    }

    // `get_all_participants_advertising`.
    method GetAllParticipantsAdvertising(p: Prefix) returns (found: Group)
      requires bgpInstance.Valid()
      ensures found == Advertisers(RoutesTo(bgpInstance.input.Store(), p), nexthop2Part)
      ensures forall a :: a in found <==>
                exists r :: && r in bgpInstance.input.Store().Values && r.prefix == p
                            && r.nextHop in nexthop2Part && nexthop2Part[r.nextHop] == a
    {
      hide KeyOf;
      KeysAreDistinct(p, p, 0, 0);
      var routes := bgpInstance.input.GetAll(PrefixKey(p));
      CollectedRoutes(bgpInstance.input.Store(), p, routes, None);
      found := {};
      var i := 0;
      while i < |routes|
        invariant i <= |routes| && found == Advertisers(Elements(routes[..i]), nexthop2Part)
      {
        assert Elements(routes[..i + 1]) == Elements(routes[..i]) + {routes[i]};
        if routes[i].nextHop in nexthop2Part {
          found := found + {nexthop2Part[routes[i].nextHop]};
        }
        i := i + 1;
      }
      assert routes[..i] == routes;
      RoutesPlain(bgpInstance.input.Store(), p);
      assert Elements(routes) == RoutesTo(bgpInstance.input.Store(), p);
    }

    // `assignment`, once the tables have been updated. It fails exactly if nobody is known
    // behind the next hop of the local route.
    method Assignment(u: RouteUpdate) returns (ok: bool)
      requires bgpInstance.Valid() && WellFiled(fecList)
      modifies this
      ensures WellFiled(fecList) && forall k :: k in old(fecList) ==> k in fecList && fecList[k] == old(fecList)[k]
      ensures var best := LocalRoute(bgpInstance.local.Store(), PrefixOfUpdate(u));
              ok <==> (best.Some? ==> best.value.nextHop in nexthop2Part)
      ensures !ok ==> fecList == old(fecList) && prefix2Fec == old(prefix2Fec)
      ensures var p := PrefixOfUpdate(u);
              var best := LocalRoute(bgpInstance.local.Store(), p);
              && (forall q :: q != p ==> (q in prefix2Fec <==> q in old(prefix2Fec)))
              && (forall q :: q != p && q in prefix2Fec ==> prefix2Fec[q] == old(prefix2Fec)[q])
              && (ok && (best.Some? || u.Withdraw?) ==>
                    ClassFits(p, RoutesTo(bgpInstance.input.Store(), p), best, nexthop2Part, fecList, prefix2Fec))
              && (best.None? && u.Announce? ==> prefix2Fec == old(prefix2Fec))
      ensures var p := PrefixOfUpdate(u);
              prefix2FecNrfp == if u.Withdraw? && LocalRoute(bgpInstance.local.Store(), p).None? && p in old(prefix2Fec)
                                then old(prefix2FecNrfp)[p := old(prefix2Fec)[p]] else old(prefix2FecNrfp)
    {
      hide WellFiled, Advertisers, RoutesTo, LocalRoute, KeyOf, IndexesAgree, PrimaryAgrees;
      ok := true;
      var p := PrefixOfUpdate(u);
      var route := bgpInstance.CurrentRoute(p);
      if route.Some? {
        if route.value.nextHop !in nexthop2Part {
          return false;
        }
        var nextHopPart := nexthop2Part[route.value.nextHop];
        var partSet := GetAllParticipantsAdvertising(p);
        var key := (nextHopPart, partSet);
        AssignClass(p, key);
      } else if u.Withdraw? && p in prefix2Fec {
        prefix2FecNrfp := prefix2FecNrfp[p := prefix2Fec[p]];
        prefix2Fec := prefix2Fec - {p};
      }
    }

    // The class filed under the key, or a new one.
    method AssignClass(p: Prefix, key: ClassKey)
      requires WellFiled(fecList)
      modifies `fecList, `prefix2Fec
      ensures WellFiled(fecList) && key in fecList && prefix2Fec == old(prefix2Fec)[p := fecList[key]]
      ensures forall k :: k in old(fecList) ==> k in fecList && fecList[k] == old(fecList)[k]
    {
      hide WellFiled;
      FiledAnother(fecList, key);
      if key in fecList {
        prefix2Fec := prefix2Fec[p := fecList[key]];
      } else {
        var newFec := ForwardingClass(|fecList.Keys| + 1, key.0, key.1);
        prefix2Fec := prefix2Fec[p := newFec];
        fecList := fecList[key := newFec];
      }
    }

    // A route update through the tables and the classes: every class stays what it should
    // be, unless the next hop of the new local route is unknown.
    method ProcessUpdate(u: RouteUpdate) returns (ok: bool)
      requires bgpInstance.Valid() && WellFiled(fecList)
      requires AllCoherent(bgpInstance.input.Store(), bgpInstance.local.Store())
      requires Decidable(bgpInstance.input.Store(), bgpInstance.local.Store(), u)
      requires AllFit(bgpInstance.input.Store(), bgpInstance.local.Store(), nexthop2Part, fecList, prefix2Fec)
      modifies this, bgpInstance.input, bgpInstance.local
      ensures bgpInstance.Valid() && WellFiled(fecList)
      ensures AllCoherent(bgpInstance.input.Store(), bgpInstance.local.Store())
      ensures var best := LocalRoute(bgpInstance.local.Store(), PrefixOfUpdate(u));
              ok <==> (best.Some? ==> best.value.nextHop in nexthop2Part)
      ensures ok ==>
                AllFit(bgpInstance.input.Store(), bgpInstance.local.Store(), nexthop2Part, fecList, prefix2Fec)
    {
      hide WellFiled, AllCoherent, Coherent, Decidable, RoutesTo, LocalRoute, InputAfter, Keyed, ClassFits, AllFit,
        KeyOf;
      bgpInstance.TablesAreKeyed();
      ghost var input0, local0 := bgpInstance.input.Store(), bgpInstance.local.Store();
      RoutesAfterUpdate(input0, u);
      ghost var p := PrefixOfUpdate(u);
      FitsAt(p, input0, local0, nexthop2Part, fecList, prefix2Fec);
      bgpInstance.HandleUpdate(u);
      ok := Assignment(u);
      if !ok {
        return;
      }
      AnnouncedIsLocal(bgpInstance.input.Store(), bgpInstance.local.Store(), u, input0);
      ghost var input, local := bgpInstance.input.Store(), bgpInstance.local.Store();
      OthersStillFit(p, input0, local0, input, local, nexthop2Part, old(fecList), fecList, old(prefix2Fec), prefix2Fec);
    }

    // Two prefixes share a class exactly if they agree on the next hop and the advertisers.
    lemma ShareIffAlike(p: Prefix, q: Prefix)
      requires bgpInstance.Valid() && WellFiled(fecList)
      requires AllFit(bgpInstance.input.Store(), bgpInstance.local.Store(), nexthop2Part, fecList, prefix2Fec)
      requires p in prefix2Fec && q in prefix2Fec
      ensures var input, local := bgpInstance.input.Store(), bgpInstance.local.Store();
              && LocalRoute(local, p).Some? && LocalRoute(local, q).Some?
              && LocalRoute(local, p).value.nextHop in nexthop2Part
              && LocalRoute(local, q).value.nextHop in nexthop2Part
              && (prefix2Fec[p].id == prefix2Fec[q].id <==>
                  && nexthop2Part[LocalRoute(local, p).value.nextHop] ==
                     nexthop2Part[LocalRoute(local, q).value.nextHop]
                  && Advertisers(RoutesTo(input, p), nexthop2Part) == Advertisers(RoutesTo(input, q), nexthop2Part))
    {
    }
  }

  lemma AnnouncedIsLocal(input: Store, local: Store, u: RouteUpdate, input0: Store)
    requires AllCoherent(input, local) && input == InputAfter(input0, u) && Keyed(input0, INPUT_KEYS)
    ensures u.Announce? ==> LocalRoute(local, PrefixOfUpdate(u)).Some?
  {
    hide RoutesTo, InputAfter, LocalRoute;
    RoutesAfterUpdate(input0, u);
    assert Coherent(RoutesTo(input, PrefixOfUpdate(u)), LocalRoute(local, PrefixOfUpdate(u)));
    if u.Announce? {
      assert u.route in RoutesTo(input, PrefixOfUpdate(u));
    }
  }
}
