// The code allocator of one AS-path depth: class `Mapping` of xrs/encoding.py.
// Every AS seen at a depth owns an integer code; the codes in use and the free codes
// share a space that grows by one bit at a time.
module CodeMapping {
  import opened AsPaths
  import opened BitStrings
  import opened Collections

  const SENTINEL: int := -1
  const MAX_FREE: nat := 500

  // A code and how many encoded links leave, respectively enter, the AS at this depth.
  datatype Entry = Entry(code: nat, from: int, to: int)

  datatype Codes = Codes(width: nat, free: set<nat>, table: map<int, Entry>, blocked: bool)

  const EMPTY := Codes(0, {}, map[], false)

  // What `remove` reports: the AS stays, its code is released, or a counter went
  // below zero and the process exits.
  datatype Removal = Kept | Released | Underflow

  // ---- sets of numbers ----

  ghost function Range(lo: nat, hi: nat): (s: set<nat>)
    ensures forall i :: i in s <==> lo <= i < hi
    ensures lo <= hi ==> |s| == hi - lo
    decreases hi
  {
    if lo >= hi then {} else Range(lo, hi - 1) + {hi - 1}
  }

  ghost function Least(s: set<nat>): (x: nat)
    requires s != {}
    ensures x in s && forall y :: y in s ==> x <= y
  {
    var x :| x in s;
    if s == {x} then x
    else
      var y := Least(s - {x});
      assert s == (s - {x}) + {x};
      if x <= y then x else y
  }

  // ---- the operations as functions of the state ----

  // `add_byte`: one more bit, the new upper half of the space is free.
  ghost function Grow(m: Codes): Codes {
    m.(width := m.width + 1,
       free := m.free + Range(Pow2(m.width), Pow2(m.width + 1)),
       table := if m.width == 0 then m.table[SENTINEL := Entry(0, -1, -1)] else m.table)
  }

  function One(fromAs: bool, wanted: bool): int {
    if fromAs == wanted then 1 else 0
  }

  ghost function Assign(m: Codes, asn: Asn, fromAs: bool): Codes
    requires m.free != {}
  {
    m.(table := m.table[asn := Entry(Least(m.free), One(fromAs, true), One(fromAs, false))],
       free := m.free - {Least(m.free)})
  }

  function Count(e: Entry, fromAs: bool, delta: int): Entry {
    if fromAs then e.(from := e.from + delta) else e.(to := e.to + delta)
  }

  // `add`: the new state, the number of bits spent (-1 when refused) and whether a
  // code was assigned.
  ghost function Added(m: Codes, asn: Asn, fromAs: bool, overprovisioning: bool): (Codes, int, bool) {
    if asn in m.table then
      (m.(table := m.table[asn := Count(m.table[asn], fromAs, 1)]), 0, false)
    else if m.free == {} && m.blocked then
      (m, -1, false)
    else
      var m1 := if m.free == {} then Grow(m) else m;
      var spent := if m.free == {} then 1 else 0;
      GrowNonempty(m);
      if overprovisioning && |m1.free| <= |m1.table.Keys| && |m1.free| < MAX_FREE then
        GrowNonempty(m1);
        if m1.blocked then (m1, -1, false) else (Assign(Grow(m1), asn, fromAs), spent + 1, true)
      else
        (Assign(m1, asn, fromAs), spent, true)
  }

  lemma GrowNonempty(m: Codes)
    ensures Grow(m).free != {}
  {
  }

  // `is_available`: how many bits adding the AS is expected to cost.
  function Available(m: Codes, asn: Asn, overprovisioning: bool, offset: int): nat {
    if asn in m.table then 0
    else if overprovisioning then
      if |m.free| - offset > |m.table.Keys| + offset || |m.free| - offset > MAX_FREE then 0
      else if m.width == 0 then 2
      else 1
    else if |m.free| - offset > 0 then 0
    else 1
  }

  // `remove`: one reference less; the code is released with the last one.
  ghost function Removed(m: Codes, asn: Asn, fromAs: bool): (Codes, Removal) {
    if asn !in m.table then (m, Kept)
    else
      var e := Count(m.table[asn], fromAs, -1);
      if e.from < 0 || e.to < 0 then (m.(table := m.table[asn := e]), Underflow)
      else if e.from == 0 && e.to == 0 then
        (m.(table := m.table - {asn}, free := m.free + {e.code}), Released)
      else (m.(table := m.table[asn := e]), Kept)
  }

  // ---- the invariant ----

  ghost predicate Wf(m: Codes) {
    && (m.width == 0 ==> m.free == {} && m.table == map[])
    && (m.width > 0 ==> SENTINEL in m.table && m.table[SENTINEL] == Entry(0, -1, -1)
                        && |m.free| + |m.table.Keys| == Pow2(m.width))
    && (forall a :: a in m.table && a != SENTINEL ==>
          && a >= 0 && 1 <= m.table[a].code < Pow2(m.width)
          && m.table[a].from >= 0 && m.table[a].to >= 0
          && m.table[a].from + m.table[a].to >= 1)
    && (forall c :: c in m.free ==> 1 <= c < Pow2(m.width))
    && (forall a :: a in m.table ==> m.table[a].code !in m.free)
    && (forall a, b :: a in m.table && b in m.table && m.table[a].code == m.table[b].code ==> a == b)
  }

  ghost function CodesInUse(m: Codes): set<nat> {
    set a | a in m.table :: m.table[a].code
  }

  lemma {:induction false} ImageSize(t: map<int, Entry>, keys: set<int>)
    requires keys <= t.Keys
    requires forall a, b :: a in keys && b in keys && t[a].code == t[b].code ==> a == b
    ensures |set a | a in keys :: t[a].code| == |keys|
  {
    if keys != {} {
      var a := AnyOf(keys);
      var rest := keys - {a};
      ImageSize(t, rest);
      var image := set x | x in rest :: t[x].code;
      assert (set x | x in keys :: t[x].code) == image + {t[a].code} by {
        assert keys == rest + {a};
      }
    }
  }

  // Free codes and codes in use split the whole space [0, 2^width): none is lost, none
  // has two owners, and 0 belongs to the sentinel alone.
  lemma CodeSpacePartition(m: Codes)
    requires Wf(m) && m.width > 0
    ensures m.free !! CodesInUse(m)
    ensures m.free + CodesInUse(m) == Range(0, Pow2(m.width))
    ensures |CodesInUse(m)| == |m.table.Keys|
    ensures forall a :: a in m.table && m.table[a].code == 0 ==> a == SENTINEL
  {
    ImageSize(m.table, m.table.Keys);
    assert CodesInUse(m) == set a | a in m.table.Keys :: m.table[a].code;
    var all := m.free + CodesInUse(m);
    assert all <= Range(0, Pow2(m.width));
    SubsetSize(all, Range(0, Pow2(m.width)));
  }

  lemma GrowSizes(m: Codes)
    requires Wf(m)
    ensures |Grow(m).free| == |m.free| + Pow2(m.width)
    ensures |Grow(m).table.Keys| == if m.width == 0 then 1 else |m.table.Keys|
    ensures Pow2(m.width + 1) == 2 * Pow2(m.width)
  {
  }

  lemma GrowWf(m: Codes)
    requires Wf(m)
    ensures Wf(Grow(m))
  {
  }

  lemma AssignWf(m: Codes, asn: Asn, fromAs: bool)
    requires Wf(m) && m.free != {} && asn !in m.table
    ensures Wf(Assign(m, asn, fromAs))
  {
  }

  lemma UpdateSize(t: map<int, Entry>, a: int, e: Entry)
    requires a in t
    ensures |t[a := e].Keys| == |t.Keys|
  {
  }

  lemma AddedWf(m: Codes, asn: Asn, fromAs: bool, over: bool)
    requires Wf(m)
    ensures Wf(Added(m, asn, fromAs, over).0)
  {
    if asn in m.table {
      CountedWf(m, asn, fromAs);
    } else if !(m.free == {} && m.blocked) {
      GrowWf(m);
      GrowNonempty(m);
      var m1 := if m.free == {} then Grow(m) else m;
      GrowWf(m1);
      GrowNonempty(m1);
      AssignWf(m1, asn, fromAs);
      AssignWf(Grow(m1), asn, fromAs);
    }
  }

  lemma CountedWf(m: Codes, asn: Asn, fromAs: bool)
    requires Wf(m) && asn in m.table
    ensures Wf(m.(table := m.table[asn := Count(m.table[asn], fromAs, 1)]))
  {
  }

  lemma RemovedWf(m: Codes, asn: Asn, fromAs: bool)
    requires Wf(m) && Removed(m, asn, fromAs).1 != Underflow
    ensures Wf(Removed(m, asn, fromAs).0)
  {
    if asn in m.table {
      if Removed(m, asn, fromAs).1 == Released {
        ReleaseWf(m, asn, fromAs);
      } else {
        UpdateSize(m.table, asn, Count(m.table[asn], fromAs, -1));
      }
    }
  }

  lemma ReleaseWf(m: Codes, asn: Asn, fromAs: bool)
    requires Wf(m) && Removed(m, asn, fromAs).1 == Released
    ensures Wf(Removed(m, asn, fromAs).0)
  {
  }

  // A known AS gains a reference and nothing else happens.
  lemma KnownAsIsCounted(m: Codes, asn: Asn, fromAs: bool, over: bool)
    requires asn in m.table
    ensures var e := m.table[asn];
            Added(m, asn, fromAs, over) ==
            (Codes(m.width, m.free,
                   m.table[asn := Entry(e.code, e.from + (if fromAs then 1 else 0), e.to + (if fromAs then 0 else 1))],
                   m.blocked), 0, false)
  {
  }

  // A blocked mapping refuses a new AS exactly if it would have to grow, and stays as it is.
  lemma RefusedIff(m: Codes, asn: Asn, fromAs: bool, over: bool)
    requires Wf(m)
    ensures Added(m, asn, fromAs, over).1 < 0 <==>
            asn !in m.table && m.blocked &&
            (|m.free| == 0 || (over && |m.free| <= |m.table.Keys| && |m.free| < 500))
    ensures Added(m, asn, fromAs, over).1 < 0 ==> Added(m, asn, fromAs, over) == (m, -1, false)
  {
  }

  // Otherwise a new AS gets the least free code, new codes being the upper half of the space
  // for every bit: one bit if there was no free code, and one, when overprovisioning, if the
  // free codes are then neither more than the owners nor 500.
  lemma NewAsGetsLeastCode(m: Codes, asn: Asn, fromAs: bool, over: bool)
    requires Wf(m) && asn !in m.table && Added(m, asn, fromAs, over).1 >= 0
    ensures var (m', cost, added) := Added(m, asn, fromAs, over);
            var free := if m.free == {} then Pow2(m.width) else |m.free|;
            var owners := if m.width == 0 then 1 else |m.table.Keys|;
            && added && m'.blocked == m.blocked && m'.width == m.width + cost
            && cost == (if m.free == {} then 1 else 0) + (if over && free <= owners && free < 500 then 1 else 0)
    ensures var m' := Added(m, asn, fromAs, over).0;
            && asn in m'.table
            && var code := m'.table[asn].code;
            && m'.table[asn] == Entry(code, if fromAs then 1 else 0, if fromAs then 0 else 1)
            && code in m.free + Range(Pow2(m.width), Pow2(m'.width))
            && (forall c :: c in m.free + Range(Pow2(m.width), Pow2(m'.width)) ==> code <= c)
            && m'.free == m.free + Range(Pow2(m.width), Pow2(m'.width)) - {code}
            && (forall a :: a in m.table ==> a in m'.table && m'.table[a] == m.table[a])
            && (forall a :: a in m'.table ==> a in m.table || a == asn || (a == -1 && m.width == 0))
  {
    hide Added, Wf, Assign;
    var grown := BeforeAssigning(m, asn, fromAs, over);
    AssignPlain(grown, asn, fromAs);
  }

  lemma BeforeAssigning(m: Codes, asn: Asn, fromAs: bool, over: bool) returns (grown: Codes)
    requires Wf(m) && asn !in m.table && Added(m, asn, fromAs, over).1 >= 0
    ensures var (m', cost, added) := Added(m, asn, fromAs, over);
            var free := if m.free == {} then Pow2(m.width) else |m.free|;
            var owners := if m.width == 0 then 1 else |m.table.Keys|;
            && added && grown.width == m.width + cost && grown.blocked == m.blocked
            && cost == (if m.free == {} then 1 else 0) + (if over && free <= owners && free < 500 then 1 else 0)
            && grown.free != {} && m' == Assign(grown, asn, fromAs)
            && grown.free == m.free + Range(Pow2(m.width), Pow2(grown.width))
    ensures grown.table == m.table || (m.width == 0 && grown.table == map[-1 := Entry(0, -1, -1)])
    ensures m.width == 0 ==> m.table == map[]
  {
    hide Wf, Range, Assign, Grow;
    GrownPlain(m);
    GrownTwice(m);
    var m1 := if m.free == {} then Grow(m) else m;
    GrownPlain(m1);
    GrowSizesOf(m);
    grown := if over && |m1.free| <= |m1.table.Keys| && |m1.free| < MAX_FREE then Grow(m1) else m1;
  }

  lemma GrowSizesOf(m: Codes)
    requires Wf(m)
    ensures |Grow(m).table.Keys| == if m.width == 0 then 1 else |m.table.Keys|
  {
    GrowSizes(m);
  }

  // One more bit: the upper half is free, and the first bit brings the sentinel.
  lemma GrownPlain(m: Codes)
    ensures var m' := Grow(m);
            && m'.width == m.width + 1 && m'.blocked == m.blocked && m'.free != {}
            && m'.free == m.free + Range(Pow2(m.width), Pow2(m.width + 1))
            && m'.table == if m.width == 0 then m.table[-1 := Entry(0, -1, -1)] else m.table
    ensures Wf(m) ==> Wf(Grow(m)) && (m.width == 0 ==> m.free == {} && m.table == map[])
    ensures Wf(m) && m.free == {} ==> |Grow(m).free| == Pow2(m.width)
  {
    if Wf(m) {
      GrowWf(m);
      GrowSizes(m);
    }
  }

  lemma GrownTwice(m: Codes)
    ensures Range(Pow2(m.width), Pow2(m.width)) == {}
    ensures Range(Pow2(m.width), Pow2(m.width + 2)) ==
            Range(Pow2(m.width), Pow2(m.width + 1)) + Range(Pow2(m.width + 1), Pow2(m.width + 2))
  {
  }

  lemma AssignPlain(m: Codes, asn: Asn, fromAs: bool)
    requires m.free != {}
    ensures var m' := Assign(m, asn, fromAs);
            && m'.width == m.width && m'.blocked == m.blocked && asn in m'.table
            && var code := m'.table[asn].code;
            && code in m.free && (forall c :: c in m.free ==> code <= c) && m'.free == m.free - {code}
            && m'.table == m.table[asn := Entry(code, if fromAs then 1 else 0, if fromAs then 0 else 1)]
  {
  }

  // A reference less; with the last one the AS goes and its code is free again.
  lemma RemovedPlain(m: Codes, asn: Asn, fromAs: bool)
    requires asn in m.table
    ensures var e := m.table[asn];
            var from, to := e.from - (if fromAs then 1 else 0), e.to - (if fromAs then 0 else 1);
            Removed(m, asn, fromAs) ==
            if from < 0 || to < 0 then
              (Codes(m.width, m.free, m.table[asn := Entry(e.code, from, to)], m.blocked), Underflow)
            else if from + to > 0 then
              (Codes(m.width, m.free, m.table[asn := Entry(e.code, from, to)], m.blocked), Kept)
            else (Codes(m.width, m.free + {e.code}, m.table - {asn}, m.blocked), Released)
  {
  }

  // Adding and then removing the same reference restores every code, every counter and
  // the set of free codes, provided no bit had to be spent.
  lemma AddThenRemove(m: Codes, asn: Asn, fromAs: bool, over: bool)
    requires Wf(m) && Added(m, asn, fromAs, over).1 == 0
    ensures Removed(Added(m, asn, fromAs, over).0, asn, fromAs) ==
            (m, if asn in m.table then Kept else Released)
  {
    var m' := Added(m, asn, fromAs, over).0;
    if asn in m.table {
      assert m'.table[asn := Count(m'.table[asn], fromAs, -1)] == m.table;
    } else {
      assert m' == Assign(m, asn, fromAs);
      assert m'.table - {asn} == m.table;
      assert m'.free + {Least(m.free)} == m.free;
    }
  }

  // `is_available` promises too little in exactly one family of states: the mapping has
  // bits but no free code, and doubling it once leaves too few free codes.
  lemma AvailableUnderPredicts(m: Codes, asn: Asn, fromAs: bool)
    requires Wf(m) && !m.blocked
    ensures Added(m, asn, fromAs, true).1 > Available(m, asn, true, 0) <==>
            asn !in m.table && m.width > 0 && m.free == {} && Pow2(m.width) < MAX_FREE
  {
  }

  // With a free code at hand, or no bit yet, the prediction is an upper bound and it is
  // exact except when the free codes number exactly MAX_FREE.
  lemma AvailableBounds(m: Codes, asn: Asn, fromAs: bool)
    requires Wf(m) && (m.width == 0 || m.free != {})
    requires m.blocked ==> Available(m, asn, true, 0) == 0
    ensures 0 <= Added(m, asn, fromAs, true).1 <= Available(m, asn, true, 0)
    ensures Added(m, asn, fromAs, true).1 < Available(m, asn, true, 0) ==>
              |m.free| == MAX_FREE && |m.free| <= |m.table.Keys|
    ensures asn in Added(m, asn, fromAs, true).0.table
    ensures Added(m, asn, fromAs, true).0.width == m.width + Added(m, asn, fromAs, true).1
  {
  }

  // Overprovisioning leaves at least as many free codes as used ones, short of one of
  // each, or nearly MAX_FREE of them; so the mapping is never full.
  ghost predicate Provisioned(m: Codes) {
    m.width == 0 || |m.free| + 1 >= |m.table.Keys| - 1 || |m.free| + 1 >= MAX_FREE
  }

  lemma ProvisionedNotFull(m: Codes)
    requires Wf(m) && Provisioned(m) && m.width >= 2
    ensures m.free != {}
  {
    if m.free == {} {
      Pow2Monotone(2, m.width);
      assert false;
    }
  }

  lemma AssignSizes(m: Codes, asn: Asn, fromAs: bool)
    requires m.free != {} && asn !in m.table
    ensures |Assign(m, asn, fromAs).free| == |m.free| - 1
    ensures |Assign(m, asn, fromAs).table.Keys| == |m.table.Keys| + 1
  {
  }

  lemma AddedProvisioned(m: Codes, asn: Asn, fromAs: bool)
    requires Wf(m) && Provisioned(m) && (m.width == 0 || (m.width >= 2 && m.free != {}))
    requires m.blocked ==> Available(m, asn, true, 0) == 0
    ensures Provisioned(Added(m, asn, fromAs, true).0)
    ensures Added(m, asn, fromAs, true).0.width >= 2
    ensures Added(m, asn, fromAs, true).0.free != {}
  {
    var m' := Added(m, asn, fromAs, true).0;
    AddedWf(m, asn, fromAs, true);
    if asn in m.table {
      assert m'.table.Keys == m.table.Keys;
    } else {
      AddedNewProvisioned(m, asn, fromAs);
    }
    ProvisionedNotFull(m');
  }

  lemma AddedNewProvisioned(m: Codes, asn: Asn, fromAs: bool)
    requires Wf(m) && Provisioned(m) && (m.width == 0 || (m.width >= 2 && m.free != {}))
    requires m.blocked ==> Available(m, asn, true, 0) == 0
    requires asn !in m.table
    ensures Provisioned(Added(m, asn, fromAs, true).0)
    ensures Added(m, asn, fromAs, true).0.width >= 2
  {
    var m1 := if m.free == {} then Grow(m) else m;
    GrowSizes(m);
    GrowWf(m);
    GrowSizes(m1);
    GrowNonempty(m1);
    AssignSizes(m1, asn, fromAs);
    AssignSizes(Grow(m1), asn, fromAs);
  }

  // ---- the class ----

  class Mapping {
    var nbBytes: nat
    var free: set<nat>
    var mapping: map<int, Entry>
    var blocked: bool

    ghost function Value(): Codes
      reads this
    {
      Codes(nbBytes, free, mapping, blocked)
    }

    constructor ()
      ensures Value() == EMPTY
    {
      nbBytes, free, mapping, blocked := 0, {}, map[], false;
    }

    method AddByte()
      modifies this
      ensures Value() == Grow(old(Value()))
    {
      if nbBytes == 0 {
        mapping := mapping[SENTINEL := Entry(0, -1, -1)];
      }
      nbBytes := nbBytes + 1;
      FreeFrom(Pow2(nbBytes - 1), Pow2(nbBytes));
    }

    // The loop of `add_byte`.
    method FreeFrom(lo: nat, hi: nat)
      modifies `free
      ensures free == old(free) + Range(lo, hi)
    {
      var i := lo;
      while i < hi
        invariant lo <= i <= hi || hi < lo == i
        invariant forall c :: c in free <==> c in old(free) || lo <= c < i
      {
        free := free + {i};
        i := i + 1;
      }
    }

    // `self.free[0]` of the sorted set.
    method FirstFree() returns (x: nat)
      requires free != {}
      ensures x == Least(free)
    {
      x :| x in free;
      var rest := free - {x};
      while rest != {}
        invariant rest <= free && x in free
        invariant forall y :: y in free && y !in rest ==> x <= y
        decreases rest
      {
        var y :| y in rest;
        if y < x {
          x := y;
        }
        rest := rest - {y};
      }
    }

    method Add(asn: Asn, fromAs: bool, overprovisioning: bool) returns (res: int, added: bool)
      modifies this
      ensures (Value(), res, added) == Added(old(Value()), asn, fromAs, overprovisioning)
    {
      res := 0;
      if asn !in mapping {
        if |free| == 0 {
          if blocked {
            return -1, false;
          }
          GrowNonempty(Value());
          AddByte();
          res := res + 1;
        }
        ghost var m1 := Value();
        assert m1 == if old(free) == {} then Grow(old(Value())) else old(Value());
        if overprovisioning {
          if |free| <= |mapping.Keys| && |free| < MAX_FREE {
            if blocked {
              return -1, false;
            }
            GrowNonempty(Value());
            AddByte();
            res := res + 1;
          }
        }
        assert free != {};
        var code := FirstFree();
        mapping := mapping[asn := if fromAs then Entry(code, 1, 0) else Entry(code, 0, 1)];
        free := free - {code};
        return res, true;
      }
      mapping := mapping[asn := Count(mapping[asn], fromAs, 1)];
      return 0, false;
    }

    method IsAvailable(asn: Asn, overprovisioning: bool, offset: int) returns (bits: nat)
      ensures bits == Available(Value(), asn, overprovisioning, offset)
      ensures asn in mapping ==> bits == 0
      ensures asn !in mapping && !overprovisioning ==> bits == if |free| > offset then 0 else 1
      ensures asn !in mapping && overprovisioning ==>
                bits == if |free| - offset > |mapping.Keys| + offset || |free| - offset > 500 then 0
                        else if nbBytes == 0 then 2 else 1
    {
      if asn in mapping {
        return 0;
      }
      if overprovisioning {
        if !(|free| - offset > |mapping.Keys| + offset || |free| - offset > MAX_FREE) {
          return if nbBytes == 0 then 2 else 1;
        }
        return 0;
      }
      return if |free| - offset > 0 then 0 else 1;
    }

    method Remove(asn: Asn, fromAs: bool) returns (outcome: Removal)
      modifies this
      ensures (Value(), outcome) == Removed(old(Value()), asn, fromAs)
    {
      if asn in mapping {
        mapping := mapping[asn := Count(mapping[asn], fromAs, -1)];
        if mapping[asn].from < 0 || mapping[asn].to < 0 {
          return Underflow;
        }
        if mapping[asn].from == 0 && mapping[asn].to == 0 {
          var code := mapping[asn].code;
          mapping := mapping - {asn};
          free := free + {code};
          assert mapping == old(mapping) - {asn};
          return Released;
        }
      }
      return Kept;
    }

    // `get_mapping_string`.
    method GetMappingString(asn: Asn) returns (s: Bits)
      ensures s == CodeString(Value(), asn)
    {
      if asn in mapping {
        s := ZeroFill(Numeral(mapping[asn].code), nbBytes);
      } else {
        s := Zeros(nbBytes);
      }
    }
  }

  // The field written for an AS: its code, or all zeros when it has none.
  function CodeString(m: Codes, asn: Asn): Bits {
    if asn in m.table then Field(m.table[asn].code, m.width) else Zeros(m.width)
  }

  // Every code string fills exactly its field.
  lemma CodeStringLength(m: Codes, asn: Asn)
    requires Wf(m)
    ensures |CodeString(m, asn)| == m.width
  {
    if asn in m.table {
      FieldLength(m.table[asn].code, m.width);
    }
  }

  // The field of an AS shows its code in binary, the highest bit first, or nothing.
  lemma CodeStringBits(m: Codes, asn: Asn, i: nat)
    requires Wf(m) && i < m.width
    ensures |CodeString(m, asn)| == m.width
    ensures CodeString(m, asn)[i] <==> asn in m.table && m.table[asn].code / Pow2(m.width - 1 - i) % 2 == 1
  {
    CodeStringLength(m, asn);
    if asn in m.table {
      FieldBit(m.table[asn].code, m.width, i);
    }
  }

  // The field of an AS that owns a code is produced by no other AS, and is never the
  // all-zero padding.
  lemma CodeStringExact(m: Codes, owner: Asn, other: Asn)
    requires Wf(m) && owner in m.table
    ensures CodeString(m, owner) == CodeString(m, other) <==> owner == other
    ensures CodeString(m, owner) != Zeros(m.width)
  {
    FieldZero(m.width);
    FieldInjective(m.table[owner].code, 0, m.width);
    if other in m.table {
      FieldInjective(m.table[owner].code, m.table[other].code, m.width);
    }
  }
}
