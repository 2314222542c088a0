// Bit strings as the controllers build them: text of '0' and '1' characters, most
// significant bit first, compared by a switch under a ternary mask.
module BitStrings {

  type Bits = seq<bool>

  function Pow2(n: nat): (p: nat)
    ensures p >= 1
  {
    if n == 0 then 1 else 2 * Pow2(n - 1)
  }

  lemma {:induction false} Pow2Monotone(m: nat, n: nat)
    requires m <= n
    ensures Pow2(m) <= Pow2(n)
    decreases n
  {
    if m < n {
      Pow2Monotone(m, n - 1);
    }
  }

  lemma {:induction false} Pow2Above(n: nat)
    ensures n < Pow2(n)
  {
    if n > 0 {
      Pow2Above(n - 1);
    }
  }

  function Repeat(b: bool, n: nat): (s: Bits)
    ensures |s| == n
    ensures forall i :: 0 <= i < n ==> s[i] == b
  {
    seq(n, _ => b)
  }

  // `'0' * n` and `'1' * n`.
  function Zeros(n: nat): (s: Bits)
    ensures |s| == n
    ensures forall i :: 0 <= i < n ==> !s[i]
  {
    Repeat(false, n)
  }

  function Ones(n: nat): (s: Bits)
    ensures |s| == n
    ensures forall i :: 0 <= i < n ==> s[i]
  {
    Repeat(true, n)
  }

  // `bin(x)[2:]`: the shortest binary numeral of x.
  function Numeral(x: nat): (s: Bits)
    ensures |s| >= 1
  {
    if x < 2 then [x == 1] else Numeral(x / 2) + [x % 2 == 1]
  }

  // `s.zfill(width)`, also the effect of the format '{num:0{width}b}'.
  function ZeroFill(s: Bits, width: nat): (r: Bits)
    ensures |r| == if |s| < width then width else |s|
  {
    if |s| < width then Zeros(width - |s|) + s else s
  }

  // The number x written over `width` positions.
  function Field(x: nat, width: nat): Bits {
    ZeroFill(Numeral(x), width)
  }

  // `string.ljust(s, width, '0')`.
  function PadRight(s: Bits, width: nat): (r: Bits)
    ensures |r| == if |s| < width then width else |s|
    ensures s <= r
  {
    if |s| < width then s + Zeros(width - |s|) else s
  }

  // `int(s, 2)`.
  function ValueOf(s: Bits): nat {
    if s == [] then 0 else 2 * ValueOf(s[..|s| - 1]) + if s[|s| - 1] then 1 else 0
  }

  lemma {:induction false} NumeralValue(x: nat)
    ensures ValueOf(Numeral(x)) == x
  {
    if x >= 2 {
      NumeralValue(x / 2);
      assert Numeral(x)[..|Numeral(x)| - 1] == Numeral(x / 2);
    }
  }

  lemma {:induction false} LeadingZerosValue(n: nat, s: Bits)
    ensures ValueOf(Zeros(n) + s) == ValueOf(s)
    decreases n + |s|
  {
    var z := Zeros(n) + s;
    if |s| > 0 {
      LeadingZerosValue(n, s[..|s| - 1]);
      assert z[..|z| - 1] == Zeros(n) + s[..|s| - 1];
    } else if n > 0 {
      LeadingZerosValue(n - 1, s);
      assert z[..|z| - 1] == Zeros(n - 1) + s;
    }
  }

  // Writing a number over a fixed width loses nothing.
  lemma FieldValue(x: nat, width: nat)
    ensures ValueOf(Field(x, width)) == x
  {
    NumeralValue(x);
    if |Numeral(x)| < width {
      LeadingZerosValue(width - |Numeral(x)|, Numeral(x));
    }
  }

  lemma {:induction false} NumeralLength(x: nat, width: nat)
    requires width >= 1
    ensures |Numeral(x)| <= width <==> x < Pow2(width)
    decreases x
  {
    if x >= 2 {
      if width >= 2 {
        NumeralLength(x / 2, width - 1);
      }
    }
  }

  // A field occupies exactly its width when, and only when, the number fits.
  lemma FieldLength(x: nat, width: nat)
    requires width >= 1
    ensures |Field(x, width)| == width <==> x < Pow2(width)
  {
    NumeralLength(x, width);
  }

  // Binary, the highest bit first, with zeros in front.
  lemma {:induction false} FieldBit(x: nat, width: nat, i: nat)
    requires x < Pow2(width) && i < width
    ensures |Field(x, width)| == width && (Field(x, width)[i] <==> x / Pow2(width - 1 - i) % 2 == 1)
  {
    FieldLength(x, width);
    FieldHalves(x, width);
    if i < width - 1 {
      FieldBit(x / 2, width - 1, i);
      HalfDivides(x, Pow2(width - 2 - i));
    }
  }

  lemma FieldHalves(x: nat, width: nat)
    requires width >= 1 && x < Pow2(width)
    ensures Field(x, width) == (if width == 1 then [] else Field(x / 2, width - 1)) + [x % 2 == 1]
  {
    NumeralLength(x, width);
    if width > 1 {
      NumeralLength(x / 2, width - 1);
    }
  }

  lemma HalfDivides(x: nat, p: nat)
    requires p >= 1
    ensures x / 2 / p == x / (2 * p)
  {
    var q := x / 2 / p;
    assert x == 2 * (p * q + x / 2 % p) + x % 2;
    QuotientIs(x, 2 * p, q);
  }

  lemma QuotientIs(x: nat, p: nat, q: nat)
    requires p >= 1 && p * q <= x < p * q + p
    ensures x / p == q
  {
    Scaled(p, x / p, q);
    Scaled(p, q, x / p);
  }

  lemma Scaled(p: nat, a: nat, b: nat)
    requires p >= 1
    ensures a > b ==> p * a >= p * b + p
  {
    if a > b {
      var k: nat := a - b - 1;
      assert a == b + 1 + k;
      assert p * k >= 0;
    }
  }

  lemma FieldInjective(x: nat, y: nat, width: nat)
    ensures Field(x, width) == Field(y, width) <==> x == y
  {
    FieldValue(x, width);
    FieldValue(y, width);
  }

  // The code 0 is the all-zero field.
  lemma FieldZero(width: nat)
    requires width >= 1
    ensures Field(0, width) == Zeros(width)
  {
  }

  lemma {:induction false} OnesValue(n: nat)
    ensures ValueOf(Ones(n)) == Pow2(n) - 1
  {
    if n > 0 {
      OnesValue(n - 1);
      assert Ones(n)[..n - 1] == Ones(n - 1);
    }
  }

  lemma {:induction false} ValueBound(s: Bits)
    ensures ValueOf(s) < Pow2(|s|)
  {
    if s != [] {
      ValueBound(s[..|s| - 1]);
    }
  }

  lemma {:induction false} ValueInjective(s: Bits, t: Bits)
    requires |s| == |t|
    ensures ValueOf(s) == ValueOf(t) <==> s == t
  {
    if s != [] {
      var n := |s| - 1;
      ValueInjective(s[..n], t[..n]);
      if ValueOf(s) == ValueOf(t) {
        assert s == s[..n] + [s[n]] && t == t[..n] + [t[n]];
      }
    }
  }

  // The number 2^n - 1 over n positions, or more, is a run of ones on the right.
  lemma FieldOnes(n: nat, width: nat)
    requires 1 <= n <= width
    ensures Field(Pow2(n) - 1, width) == Zeros(width - n) + Ones(n)
  {
    OnesValue(n);
    LeadingZerosValue(width - n, Ones(n));
    FieldValue(Pow2(n) - 1, width);
    Pow2Monotone(n, width);
    FieldLength(Pow2(n) - 1, width);
    var ones := Zeros(width - n) + Ones(n);
    ValueInjective(Field(Pow2(n) - 1, width), ones);
  }

  // A ternary match: every position selected by the mask carries the pattern's bit.
  ghost predicate Matches(word: Bits, pattern: Bits, mask: Bits) {
    && |word| == |pattern| == |mask|
    && forall i :: 0 <= i < |word| && mask[i] ==> word[i] == pattern[i]
  }

  lemma NothingMatches()
    ensures Matches([], [], [])
  {
  }

  lemma MatchesZeros(w: Bits, p: Bits)
    requires |w| == |p|
    ensures Matches(w, p, Zeros(|w|))
  {
  }

  // Fields of equal width match side by side, independently of each other.
  lemma MatchesConcat(w1: Bits, p1: Bits, m1: Bits, w2: Bits, p2: Bits, m2: Bits)
    requires |w1| == |p1| == |m1|
    requires |w2| == |p2| == |m2|
    ensures Matches(w1 + w2, p1 + p2, m1 + m2) <==> Matches(w1, p1, m1) && Matches(w2, p2, m2)
  {
    if Matches(w1 + w2, p1 + p2, m1 + m2) {
      forall i | 0 <= i < |w1| && m1[i]
        ensures w1[i] == p1[i]
      {
        assert (m1 + m2)[i] && (w1 + w2)[i] == w1[i] && (p1 + p2)[i] == p1[i];
      }
      forall i | 0 <= i < |w2| && m2[i]
        ensures w2[i] == p2[i]
      {
        assert (m1 + m2)[|w1| + i] && (w1 + w2)[|w1| + i] == w2[i] && (p1 + p2)[|w1| + i] == p2[i];
      }
    }
  }

  lemma MatchesOnes(w: Bits, p: Bits)
    requires |w| == |p|
    ensures Matches(w, p, Ones(|w|)) <==> w == p
  {
  }
}
