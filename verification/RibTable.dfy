// The routing tables of pctrl/rib.py: entries under numbers, a primary index that names
// one entry per key and secondary indexes that name many, kept in step by every operation.
module RibTable {
  import opened AsPaths
  import opened Collections
  import opened RouteRank

  datatype Attribute =
    PrefixOf | NeighborOf | NextHopOf | OriginOf | AsPathOf | CommunitiesOf | MedOf | AtomicAggregateOf

  datatype Value = OfPrefix(prefix: Prefix) | OfNumber(n: int) | OfList(list: seq<nat>)

  // A key gives some attributes a value, in no particular order.
  type Key = map<Attribute, Value>

  type Entries = map<nat, BgpRoute>
  type Primary = map<Key, nat>
  type Index = map<Key, set<nat>>

  function ValueAt(r: BgpRoute, a: Attribute): Value {
    match a
    case PrefixOf => OfPrefix(r.prefix)
    case NeighborOf => OfNumber(r.neighbor)
    case NextHopOf => OfNumber(r.nextHop)
    case OriginOf => OfNumber(r.origin)
    case AsPathOf => OfList(r.asPath)
    case CommunitiesOf => OfList(r.communities)
    case MedOf => OfNumber(r.med)
    case AtomicAggregateOf => OfNumber(r.atomicAggregate)
  }

  function KeyOf(r: BgpRoute, attributes: set<Attribute>): Key {
    map a | a in attributes :: ValueAt(r, a)
  }

  // The route carries the values of the key.
  predicate CarriesKey(r: BgpRoute, key: Key) {
    KeyOf(r, key.Keys) == key
  }

  // In plain terms: every attribute the key names has its value in the route.
  lemma CarriesPlain(r: BgpRoute, key: Key)
    ensures CarriesKey(r, key) <==>
            && (PrefixOf in key ==> key[PrefixOf] == OfPrefix(r.prefix))
            && (NeighborOf in key ==> key[NeighborOf] == OfNumber(r.neighbor))
            && (NextHopOf in key ==> key[NextHopOf] == OfNumber(r.nextHop))
            && (OriginOf in key ==> key[OriginOf] == OfNumber(r.origin))
            && (AsPathOf in key ==> key[AsPathOf] == OfList(r.asPath))
            && (CommunitiesOf in key ==> key[CommunitiesOf] == OfList(r.communities))
            && (MedOf in key ==> key[MedOf] == OfNumber(r.med))
            && (AtomicAggregateOf in key ==> key[AtomicAggregateOf] == OfNumber(r.atomicAggregate))
  {
    var own := KeyOf(r, key.Keys);
    assert forall a :: a in key ==> own[a] == ValueAt(r, a);
    if forall a :: a in key ==> key[a] == ValueAt(r, a) {
      assert own == key;
    }
  }

  function Ids(ix: Index, key: Key): set<nat> {
    if key in ix then ix[key] else {}
  }

  // ---- the indexes agree with the entries ----

  ghost predicate IndexAgrees(entries: Entries, attributes: set<Attribute>, ix: Index) {
    forall key, id {:trigger id in Ids(ix, key)} ::
      id in Ids(ix, key) <==> id in entries && KeyOf(entries[id], attributes) == key
  }

  ghost predicate PrimaryAgrees(entries: Entries, attributes: set<Attribute>, pm: Primary) {
    && (forall key :: key in pm ==> pm[key] in entries && KeyOf(entries[pm[key]], attributes) == key)
    && (forall id :: id in entries ==> KeyOf(entries[id], attributes) in pm && pm[KeyOf(entries[id], attributes)] == id)
  }

  ghost predicate IndexesAgree(entries: Entries, indexes: map<set<Attribute>, Index>) {
    forall attributes :: attributes in indexes ==> IndexAgrees(entries, attributes, indexes[attributes])
  }

  lemma IndexAdds(entries: Entries, attributes: set<Attribute>, ix: Index, id: nat, r: BgpRoute)
    requires IndexAgrees(entries, attributes, ix) && id !in entries
    ensures var key := KeyOf(r, attributes); IndexAgrees(entries[id := r], attributes, ix[key := Ids(ix, key) + {id}])
  {
    var key := KeyOf(r, attributes);
    var entries', ix' := entries[id := r], ix[key := Ids(ix, key) + {id}];
    forall k, i
      ensures i in Ids(ix', k) <==> i in entries' && KeyOf(entries'[i], attributes) == k
    {
      assert i in Ids(ix, k) <==> i in entries && KeyOf(entries[i], attributes) == k;
    }
  }

  lemma IndexRemoves(entries: Entries, attributes: set<Attribute>, ix: Index, id: nat)
    requires IndexAgrees(entries, attributes, ix) && id in entries
    ensures var key := KeyOf(entries[id], attributes);
            key in ix && id in ix[key] && IndexAgrees(entries - {id}, attributes, ix[key := ix[key] - {id}])
  {
    var key := KeyOf(entries[id], attributes);
    assert id in Ids(ix, key);
    var entries', ix' := entries - {id}, ix[key := ix[key] - {id}];
    forall k, i
      ensures i in Ids(ix', k) <==> i in entries' && KeyOf(entries'[i], attributes) == k
    {
      assert i in Ids(ix, k) <==> i in entries && KeyOf(entries[i], attributes) == k;
    }
  }

  lemma PrimaryAdds(entries: Entries, attributes: set<Attribute>, pm: Primary, id: nat, r: BgpRoute)
    requires PrimaryAgrees(entries, attributes, pm) && id !in entries && KeyOf(r, attributes) !in pm
    ensures PrimaryAgrees(entries[id := r], attributes, pm[KeyOf(r, attributes) := id])
  {
    hide KeyOf;
  }

  lemma PrimaryRemoves(entries: Entries, attributes: set<Attribute>, pm: Primary, id: nat)
    requires PrimaryAgrees(entries, attributes, pm) && id in entries
    ensures KeyOf(entries[id], attributes) in pm
    ensures PrimaryAgrees(entries - {id}, attributes, pm - {KeyOf(entries[id], attributes)})
  {
    hide KeyOf;
  }

  // ---- what a table holds: one route per primary key ----

  function StoreOf(entries: Entries, pm: Primary): (s: map<Key, BgpRoute>)
    requires forall key :: key in pm ==> pm[key] in entries
    ensures s.Keys == pm.Keys && forall key :: key in pm ==> s[key] == entries[pm[key]]
  {
    map key | key in pm :: entries[pm[key]]
  }

  class Table {
    const primaryKeys: set<Attribute>
    var numEntries: nat
    var entries: Entries
    var primary: Primary                         // mappings[primary_keys]
    var indexes: map<set<Attribute>, Index>      // the other mappings

    ghost predicate Valid()
      reads this
    {
      && (forall id :: id in entries ==> id < numEntries)
      && PrimaryAgrees(entries, primaryKeys, primary) && IndexesAgree(entries, indexes)
      && primaryKeys !in indexes
    }

    // The routes by their primary key.
    ghost function Store(): map<Key, BgpRoute>
      requires Valid()
      reads this
    {
      StoreOf(entries, primary)
    }

    constructor (primaryKeys: set<Attribute>, mappings: set<set<Attribute>>)
      requires primaryKeys !in mappings
      ensures Valid() && Store() == map[] && this.primaryKeys == primaryKeys && indexes.Keys == mappings
    {
      this.primaryKeys, numEntries, entries, primary := primaryKeys, 0, map[], map[];
      indexes := map attributes | attributes in mappings :: map[];
    }

    // `add`: the entry replaces the one with its primary key, under a number never used before.
    method Add(entry: BgpRoute)
      requires Valid()
      modifies this
      ensures Valid() && indexes.Keys == old(indexes.Keys)
      ensures Store() == old(Store())[KeyOf(entry, primaryKeys) := entry]
      ensures numEntries > old(numEntries) && old(numEntries) in entries
      ensures forall id :: id in entries && id != old(numEntries) ==>
              id in old(entries) && entries[id] == old(entries)[id]
    {
      hide KeyOf, IndexesAgree, PrimaryAgrees;
      ghost var entries0, primary0 := entries, primary;
      var key := KeyOf(entry, primaryKeys);
      if key in primary {
        PrimaryNames(entries, primaryKeys, primary, key);
        DeleteEntry(primary[key]);
        AddEntry(entry);
      } else {
        AddEntry(entry);
      }
      StoreAdds(entries0, primary0, entries, primary, primaryKeys, numEntries - 1, entry);
    }

    // A new entry, under the next number.
    method AddEntry(entry: BgpRoute)
      requires Valid() && KeyOf(entry, primaryKeys) !in primary
      modifies this
      ensures Valid() && indexes.Keys == old(indexes.Keys) && numEntries == old(numEntries) + 1
      ensures entries == old(entries)[old(numEntries) := entry]
      ensures primary == old(primary)[KeyOf(entry, primaryKeys) := old(numEntries)]
    {
      hide KeyOf, IndexesAgree, PrimaryAgrees;
      PrimaryAdds(entries, primaryKeys, primary, numEntries, entry);
      Refer(numEntries, entry);
      entries := entries[numEntries := entry];
      primary := primary[KeyOf(entry, primaryKeys) := numEntries];
      numEntries := numEntries + 1;
    }

    // Every secondary index gets a reference to the new entry.
    method Refer(id: nat, entry: BgpRoute)
      requires IndexesAgree(entries, indexes) && id !in entries
      modifies `indexes
      ensures indexes.Keys == old(indexes.Keys) && IndexesAgree(entries[id := entry], indexes)
    {
      hide KeyOf, IndexAgrees, Ids;
      var rest := indexes.Keys;
      while rest != {}
        invariant rest <= indexes.Keys == old(indexes.Keys)
        invariant forall a :: a in rest ==> IndexAgrees(entries, a, indexes[a])
        invariant forall a :: a in indexes.Keys - rest ==> IndexAgrees(entries[id := entry], a, indexes[a])
        decreases rest
      {
        var attributes :| attributes in rest;
        var ix, newKeys := indexes[attributes], KeyOf(entry, attributes);
        IndexAdds(entries, attributes, ix, id, entry);
        indexes := indexes[attributes := ix[newKeys := Ids(ix, newKeys) + {id}]];
        rest := rest - {attributes};
      }
    }

    // The numbers of the entries under a key.
    method Find(keyItems: Key) returns (found: bool, ids: set<nat>)
      requires Valid() && (keyItems.Keys == primaryKeys || keyItems.Keys in indexes)
      ensures found ==> forall id :: id in ids <==> id in entries && CarriesKey(entries[id], keyItems)
      ensures !found <==> keyItems.Keys == primaryKeys && keyItems !in Store()
    {
      hide KeyOf;
      if keyItems.Keys == primaryKeys {
        if keyItems in primary {
          assert forall id :: id in entries && KeyOf(entries[id], primaryKeys) == keyItems ==> id == primary[keyItems];
          return true, {primary[keyItems]};
        }
        return false, {};
      }
      var ix := indexes[keyItems.Keys];
      ids := Ids(ix, keyItems);
      assert IndexAgrees(entries, keyItems.Keys, ix);
      assert forall id :: id in ids <==> id in Ids(ix, keyItems);
      return true, ids;
    }

    // `get`, all entries: exactly the routes that fit the key, each once.
    method GetAll(keyItems: Key) returns (results: seq<BgpRoute>)
      requires Valid() && (keyItems.Keys == primaryKeys || keyItems.Keys in indexes)
      ensures forall r :: r in results <==> r in Store().Values && CarriesKey(r, keyItems)
      ensures forall i, j :: 0 <= i < j < |results| ==> KeyOf(results[i], primaryKeys) != KeyOf(results[j], primaryKeys)
    {
      hide KeyOf, CarriesKey, IndexAgrees;
      results := [];
      var found, ids := Find(keyItems);
      NotFound(entries, primaryKeys, primary, keyItems);
      if !found {
        return;
      }
      ghost var order: seq<nat> := [];
      var rest := ids;
      while rest != {}
        invariant rest <= ids && |order| == |results|
        invariant forall i :: 0 <= i < |order| ==> order[i] in ids - rest && results[i] == entries[order[i]]
        invariant forall id :: id in ids - rest ==> id in order
        invariant forall i, j :: 0 <= i < j < |order| ==> order[i] != order[j]
        decreases rest
      {
        var id :| id in rest;
        results, order := results + [entries[id]], order + [id];
        rest := rest - {id};
      }
      CollectsAll(entries, primaryKeys, primary, keyItems, ids, order, results);
    }

    // `get`, one entry: some route that fits the key, if there is one.
    method GetOne(keyItems: Key) returns (result: Option<BgpRoute>)
      requires Valid() && (keyItems.Keys == primaryKeys || keyItems.Keys in indexes)
      ensures result.Some? ==> result.value in Store().Values && CarriesKey(result.value, keyItems)
      ensures result.None? <==> forall r :: r in Store().Values ==> !CarriesKey(r, keyItems)
    {
      hide KeyOf, CarriesKey, IndexAgrees;
      var found, ids := Find(keyItems);
      NotFound(entries, primaryKeys, primary, keyItems);
      StoreValues(entries, primaryKeys, primary);
      if !found || ids == {} {
        return None;
      }
      var id :| id in ids;
      return Some(entries[id]);
    }

    // `delete`: exactly the routes that fit the key go. Only an unknown primary key is an error.
    method Delete(keyItems: Key) returns (ok: bool)
      requires Valid() && (keyItems.Keys == primaryKeys || keyItems.Keys in indexes)
      modifies this
      ensures Valid() && indexes.Keys == old(indexes.Keys) && numEntries == old(numEntries)
      ensures ok <==> keyItems.Keys != primaryKeys || keyItems in old(Store())
      ensures Store() == map key | key in old(Store()) && !CarriesKey(old(Store())[key], keyItems) :: old(Store())[key]
    {
      hide KeyOf, CarriesKey, IndexAgrees;
      ghost var entries0, primary0 := entries, primary;
      ghost var store := Store();
      var ids;
      ok, ids := Find(keyItems);
      NotFound(entries, primaryKeys, primary, keyItems);
      if !ok {
        assert Store() == map key | key in store && !CarriesKey(store[key], keyItems) :: store[key];
        return;
      }
      DeleteEntries(ids);
      DeletedExactly(entries0, primary0, entries, primary, primaryKeys, keyItems, ids);
    }

    // The entries one after the other.
    method DeleteEntries(ids: set<nat>)
      requires Valid() && ids <= entries.Keys
      modifies `entries, `primary, `indexes
      ensures Valid() && entries == old(entries) - ids && indexes.Keys == old(indexes.Keys)
    {
      hide KeyOf, IndexAgrees;
      var rest := ids;
      while rest != {}
        invariant Valid() && rest <= ids && rest <= entries.Keys
        invariant entries == old(entries) - (ids - rest) && indexes.Keys == old(indexes.Keys)
        decreases rest
      {
        var entryId :| entryId in rest;
        DeleteEntry(entryId);
        rest := rest - {entryId};
        assert entries == old(entries) - (ids - rest);
      }
      assert ids - rest == ids;
    }

    // One entry and all references to it.
    method DeleteEntry(id: nat)
      requires Valid() && id in entries
      modifies `entries, `primary, `indexes
      ensures Valid() && entries == old(entries) - {id} && indexes.Keys == old(indexes.Keys)
      ensures primary == old(primary) - {KeyOf(old(entries)[id], primaryKeys)}
    {
      hide KeyOf, IndexAgrees;
      var entry := entries[id];
      PrimaryRemoves(entries, primaryKeys, primary, id);
      var rest := indexes.Keys;
      while rest != {}
        invariant rest <= indexes.Keys == old(indexes.Keys) && entries == old(entries) && primary == old(primary)
        invariant forall a :: a in rest ==> IndexAgrees(entries, a, indexes[a])
        invariant forall a :: a in indexes.Keys - rest ==> IndexAgrees(entries - {id}, a, indexes[a])
        decreases rest
      {
        var attributes :| attributes in rest;
        var ix, delKey := indexes[attributes], KeyOf(entry, attributes);
        IndexRemoves(entries, attributes, ix, id);
        indexes := indexes[attributes := ix[delKey := ix[delKey] - {id}]];
        rest := rest - {attributes};
      }
      primary := primary - {KeyOf(entry, primaryKeys)};
      entries := entries - {id};
    }
  }

  lemma StoreValues(entries: Entries, attributes: set<Attribute>, pm: Primary)
    requires PrimaryAgrees(entries, attributes, pm)
    ensures forall r :: r in StoreOf(entries, pm).Values <==> exists id :: id in entries && entries[id] == r
  {
  }

  lemma PrimaryNames(entries: Entries, attributes: set<Attribute>, pm: Primary, key: Key)
    requires PrimaryAgrees(entries, attributes, pm) && key in pm
    ensures pm[key] in entries && KeyOf(entries[pm[key]], attributes) == key
  {
  }

  lemma StoreAdds(entries: Entries, pm: Primary, entries': Entries, pm': Primary, attributes: set<Attribute>, id: nat,
                  r: BgpRoute)
    requires PrimaryAgrees(entries, attributes, pm) && PrimaryAgrees(entries', attributes, pm')
    requires var key := KeyOf(r, attributes);
             && pm' == pm[key := id] && id !in entries
             && entries' == (if key in pm then entries - {pm[key]} else entries)[id := r]
    ensures StoreOf(entries', pm') == StoreOf(entries, pm)[KeyOf(r, attributes) := r]
  {
    hide KeyOf;
    var key := KeyOf(r, attributes);
    forall k | k in pm && k != key
      ensures entries'[pm'[k]] == entries[pm[k]]
    {
      assert pm[k] in entries && KeyOf(entries[pm[k]], attributes) == k;
    }
  }

  lemma NotFound(entries: Entries, attributes: set<Attribute>, pm: Primary, key: Key)
    requires PrimaryAgrees(entries, attributes, pm)
    ensures key.Keys == attributes && key !in pm ==> forall id :: id in entries ==> !CarriesKey(entries[id], key)
    ensures key.Keys == attributes && key !in pm ==>
              forall r :: r in StoreOf(entries, pm).Values ==> !CarriesKey(r, key)
  {
  }

  lemma CollectsAll(entries: Entries, attributes: set<Attribute>, pm: Primary, key: Key, ids: set<nat>, order: seq<nat>,
                    results: seq<BgpRoute>)
    requires PrimaryAgrees(entries, attributes, pm) && |order| == |results|
    requires forall id :: id in ids <==> id in entries && CarriesKey(entries[id], key)
    requires forall i :: 0 <= i < |order| ==> order[i] in ids && results[i] == entries[order[i]]
    requires forall id :: id in ids ==> id in order
    requires forall i, j :: 0 <= i < j < |order| ==> order[i] != order[j]
    ensures forall r :: r in results <==> r in StoreOf(entries, pm).Values && CarriesKey(r, key)
    ensures forall i, j :: 0 <= i < j < |results| ==> KeyOf(results[i], attributes) != KeyOf(results[j], attributes)
  {
  }

  lemma DeletedExactly(entries: Entries, pm: Primary, entries': Entries, pm': Primary, attributes: set<Attribute>,
                       key: Key, ids: set<nat>)
    requires PrimaryAgrees(entries, attributes, pm) && PrimaryAgrees(entries', attributes, pm')
    requires entries' == entries - ids && forall id :: id in ids <==> id in entries && CarriesKey(entries[id], key)
    ensures var s, s' := StoreOf(entries, pm), StoreOf(entries', pm');
            s' == map k | k in s && !CarriesKey(s[k], key) :: s[k]
  {
    hide KeyOf, CarriesKey;
    var s, s' := StoreOf(entries, pm), StoreOf(entries', pm');
    var t := map k | k in s && !CarriesKey(s[k], key) :: s[k];
    forall k
      ensures k in s' <==> k in t
      ensures k in s' ==> s'[k] == s[k]
    {
      if k in s' {
        var id := pm'[k];
        assert id in entries && entries[id] == entries'[id];
        assert pm[KeyOf(entries[id], attributes)] == id;
      }
      if k in t {
        var id := pm[k];
        assert id in entries' && entries'[id] == entries[id];
        assert pm'[KeyOf(entries'[id], attributes)] == id;
      }
    }
  }
}
