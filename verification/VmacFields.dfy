// Lists of equally wide fields laid side by side, as the backup part of a VMAC is.
module VmacFields {
  import opened BitStrings

  ghost predicate AllWide(fields: seq<Bits>, n: nat) {
    forall i :: 0 <= i < |fields| ==> |fields[i]| == n
  }

  function Concat(fields: seq<Bits>): Bits {
    if fields == [] then [] else Concat(fields[..|fields| - 1]) + fields[|fields| - 1]
  }

  lemma ConcatLast(fields: seq<Bits>, field: Bits)
    ensures Concat(fields + [field]) == Concat(fields) + field
  {
    assert (fields + [field])[..|fields|] == fields;
  }

  lemma {:induction false} ConcatLength(fields: seq<Bits>, n: nat)
    requires AllWide(fields, n)
    ensures |Concat(fields)| == |fields| * n
  {
    if fields != [] {
      ConcatLength(fields[..|fields| - 1], n);
      Product(|fields| - 1, 1, n);
    }
  }

  lemma {:induction false} ConcatSplit(a: seq<Bits>, b: seq<Bits>)
    ensures Concat(a + b) == Concat(a) + Concat(b)
    decreases |b|
  {
    if b == [] {
      assert a + b == a;
    } else {
      hide Concat;
      var front, last := b[..|b| - 1], b[|b| - 1];
      assert b == front + [last] && a + b == (a + front) + [last];
      ConcatSplit(a, front);
      ConcatLast(front, last);
      ConcatLast(a + front, last);
    }
  }

  lemma ConcatOne(field: Bits)
    ensures Concat([field]) == field
  {
  }

  // Fields of one width can be told apart.
  lemma {:induction false} ConcatInjective(a: seq<Bits>, b: seq<Bits>, n: nat)
    requires AllWide(a, n) && AllWide(b, n) && |a| == |b|
    ensures Concat(a) == Concat(b) <==> a == b
  {
    if a != [] {
      var k := |a| - 1;
      ConcatLength(a[..k], n);
      ConcatLength(b[..k], n);
      ConcatInjective(a[..k], b[..k], n);
      assert a == a[..k] + [a[k]] && b == b[..k] + [b[k]];
      if Concat(a) == Concat(b) {
        var cut := |Concat(a[..k])|;
        assert Concat(a)[..cut] == Concat(a[..k]) && Concat(b)[..cut] == Concat(b[..k]);
        assert Concat(a)[cut..] == a[k] && Concat(b)[cut..] == b[k];
      }
    }
  }

  // Fields of one width match each on its own.
  lemma {:induction false} ConcatMatches(words: seq<Bits>, patterns: seq<Bits>, masks: seq<Bits>, n: nat)
    requires |words| == |patterns| == |masks| && AllWide(words, n) && AllWide(patterns, n) && AllWide(masks, n)
    ensures Matches(Concat(words), Concat(patterns), Concat(masks)) <==>
            forall i :: 0 <= i < |words| ==> Matches(words[i], patterns[i], masks[i])
  {
    if words == [] {
      NothingMatches();
    } else {
      hide Matches, Concat;
      var k := |words| - 1;
      var w, p, m := words[..k], patterns[..k], masks[..k];
      assert words == w + [words[k]] && patterns == p + [patterns[k]] && masks == m + [masks[k]];
      ConcatLast(w, words[k]);
      ConcatLast(p, patterns[k]);
      ConcatLast(m, masks[k]);
      ConcatLength(w, n);
      ConcatLength(p, n);
      ConcatLength(m, n);
      ConcatMatches(w, p, m, n);
      MatchesConcat(Concat(w), Concat(p), Concat(m), words[k], patterns[k], masks[k]);
    }
  }

  // Bits set in one list of fields are set in another if that holds field by field.
  lemma {:induction false} ConcatCovers(inner: seq<Bits>, outer: seq<Bits>, n: nat)
    requires |inner| == |outer| && AllWide(inner, n) && AllWide(outer, n)
    requires forall f, i :: 0 <= f < |inner| && 0 <= i < n && inner[f][i] ==> outer[f][i]
    ensures |Concat(inner)| == |Concat(outer)| && forall i :: 0 <= i < |Concat(inner)| && Concat(inner)[i] ==>
            Concat(outer)[i]
  {
    if inner != [] {
      hide Concat;
      var k := |inner| - 1;
      assert inner == inner[..k] + [inner[k]] && outer == outer[..k] + [outer[k]];
      ConcatLast(inner[..k], inner[k]);
      ConcatLast(outer[..k], outer[k]);
      ConcatCovers(inner[..k], outer[..k], n);
    }
  }

  function ZeroFields(count: nat, n: nat): (r: seq<Bits>)
    ensures |r| == count && AllWide(r, n) && forall i :: 0 <= i < count ==> r[i] == Zeros(n)
  {
    seq(count, _ => Zeros(n))
  }

  lemma {:induction false} ConcatZeros(count: nat, n: nat)
    ensures Concat(ZeroFields(count, n)) == Zeros(count * n)
    decreases count
  {
    if count > 0 {
      ConcatZeros(count - 1, n);
      assert ZeroFields(count, n)[..count - 1] == ZeroFields(count - 1, n);
      assert count * n == (count - 1) * n + n;
    }
  }

  lemma Product(a: nat, b: nat, n: nat)
    ensures (a + b) * n == a * n + b * n >= a * n >= 0
  {
  }

  // Padding a list of fields on the right adds zero fields.
  lemma PaddedFields(fields: seq<Bits>, count: nat, n: nat)
    requires AllWide(fields, n) && |fields| <= count
    ensures |fields| * n <= count * n
    ensures PadRight(Concat(fields), count * n) == Concat(fields + ZeroFields(count - |fields|, n))
  {
    hide Concat, AllWide, ZeroFields;
    var more := count - |fields|;
    ConcatLength(fields, n);
    ConcatSplit(fields, ZeroFields(more, n));
    ConcatZeros(more, n);
    Product(|fields|, more, n);
    PadTo(Concat(fields), more * n);
  }

  lemma PadTo(s: Bits, more: nat)
    ensures PadRight(s, |s| + more) == s + Zeros(more)
  {
  }
}
