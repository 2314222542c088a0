// The AS-path part of a VMAC and the rule that matches it when a link fails:
// `add_as_path_encoding_to_route` and the fast-reroute block of xrs/participant_swift.py.
module FastReroute {
  import opened AsLinkEncoding
  import opened AsPaths
  import opened BitStrings
  import opened CodeMapping
  import opened Collections
  import opened EncodingState

  // What is written over the fields: an AS path, the rule's pattern or the rule's mask.
  datatype Content = OfPath(path: Path) | Pattern(depth: nat, link: Link) | Mask(depth: nat)

  // The field of depth i; depths without a mapping have no field.
  function FieldOf(maps: map<nat, Codes>, c: Content, i: nat): Bits {
    if i !in maps then []
    else
      match c
      case OfPath(p) => if 1 <= i <= |p| then CodeString(maps[i], p[i - 1]) else Zeros(maps[i].width)
      case Pattern(d, l) =>
        if i == d then CodeString(maps[i], l.from)
        else if i == d + 1 then CodeString(maps[i], l.to)
        else Zeros(maps[i].width)
      case Mask(d) => if i == d || i == d + 1 then Ones(maps[i].width) else Zeros(maps[i].width)
  }

  // The fields of the depths below n, side by side.
  function Laid(maps: map<nat, Codes>, c: Content, n: nat): Bits {
    if n == 0 then [] else Laid(maps, c, n - 1) + FieldOf(maps, c, n - 1)
  }

  function PathVmac(maps: map<nat, Codes>, path: Path, maxBytes: int): Bits {
    PadRight(Laid(maps, OfPath(path), |path| + 1), if maxBytes < 0 then 0 else maxBytes)
  }

  // `is_encoded`. The link next to the router is identified by its far end alone.
  ghost predicate IsEncoded(e: Enc, d: nat, l: Link) {
    if d == 1 then 2 in e.maps && l.to in e.maps[2].table
    else d in e.links && l in e.links[d]
  }

  ghost predicate AllWf(maps: map<nat, Codes>) {
    forall d :: d in maps ==> Wf(maps[d])
  }

  lemma SoundAllWf(e: Enc)
    requires Sound(e)
    ensures AllWf(e.maps)
  {
    forall d | d in e.maps
      ensures Wf(e.maps[d])
    {
      assert SoundAt(e.maps[d], e.links, d);
    }
  }

  lemma FieldLengths(maps: map<nat, Codes>, c: Content, i: nat)
    requires AllWf(maps)
    ensures |FieldOf(maps, c, i)| == WidthAt(maps, i)
  {
    hide Wf;
    if i in maps {
      match c
      case OfPath(p) =>
        if 1 <= i <= |p| {
          CodeStringLength(maps[i], p[i - 1]);
        }
      case Pattern(d, l) =>
        CodeStringLength(maps[i], l.from);
        CodeStringLength(maps[i], l.to);
      case Mask(d) =>
    }
  }

  // Every field starts where the widths say, whatever is written over the fields.
  lemma {:induction false} LaidLength(maps: map<nat, Codes>, c: Content, n: nat)
    requires AllWf(maps)
    ensures |Laid(maps, c, n)| == BitsBelow(maps, n)
  {
    hide AllWf, FieldOf;
    if n > 0 {
      LaidLength(maps, c, n - 1);
      FieldLengths(maps, c, n - 1);
    }
  }

  lemma {:induction false} LaidAt(maps: map<nat, Codes>, c: Content, n: nat, i: nat, j: nat)
    requires AllWf(maps) && i < n && j < WidthAt(maps, i)
    ensures BitsBelow(maps, i) + j < |Laid(maps, c, n)| && j < |FieldOf(maps, c, i)|
    ensures Laid(maps, c, n)[BitsBelow(maps, i) + j] == FieldOf(maps, c, i)[j]
  {
    hide AllWf, FieldOf;
    LaidLength(maps, c, n - 1);
    FieldLengths(maps, c, n - 1);
    FieldLengths(maps, c, i);
    if i < n - 1 {
      LaidAt(maps, c, n - 1, i, j);
    }
  }

  // In plain terms: behind the fields of the lesser depths comes, for depth i, the code of the
  // AS the path has there, in binary, or zeros if it has none or the AS has no code.
  lemma PathBits(maps: map<nat, Codes>, path: Path, maxBytes: int, n: nat, i: nat, j: nat)
    requires AllWf(maps) && BitsBelow(maps, n) == maxBytes && forall d :: d in maps ==> d < n
    requires i in maps && j < maps[i].width
    ensures var at := BitsBelow(maps, i) + j;
            && |PathVmac(maps, path, maxBytes)| == maxBytes && at < maxBytes
            && (PathVmac(maps, path, maxBytes)[at] <==>
                && 1 <= i <= |path| && path[i - 1] in maps[i].table
                && maps[i].table[path[i - 1]].code / Pow2(maps[i].width - 1 - j) % 2 == 1)
  {
    hide Laid, PathVmac, CodeString, Wf;
    PathVmacFields(maps, path, maxBytes, n);
    LaidLength(maps, OfPath(path), n);
    LaidAt(maps, OfPath(path), n, i, j);
    if 1 <= i <= |path| {
      CodeStringBits(maps[i], path[i - 1], j);
    }
  }

  // In plain terms, a rule: the codes of the ends of the link at its depths, and ones in the
  // mask there; zeros everywhere else.
  lemma RuleBits(maps: map<nat, Codes>, d: nat, l: Link, n: nat, i: nat, j: nat)
    requires AllWf(maps) && i in maps && i < n && j < maps[i].width
    ensures var at, pattern, mask := BitsBelow(maps, i) + j, Laid(maps, Pattern(d, l), n), Laid(maps, Mask(d), n);
            && |pattern| == |mask| == BitsBelow(maps, n) && at < |pattern|
            && (mask[at] <==> i == d || i == d + 1)
            && (pattern[at] <==>
                var a := if i == d then l.from else l.to;
                && (i == d || i == d + 1) && a in maps[i].table
                && maps[i].table[a].code / Pow2(maps[i].width - 1 - j) % 2 == 1)
  {
    hide Laid, CodeString, Wf;
    LaidLength(maps, Pattern(d, l), n);
    LaidLength(maps, Mask(d), n);
    LaidAt(maps, Pattern(d, l), n, i, j);
    LaidAt(maps, Mask(d), n, i, j);
    CodeStringBits(maps[i], l.from, j);
    CodeStringBits(maps[i], l.to, j);
  }

  // Depths the path does not reach are zero.
  lemma {:induction false} ShortPathIsPadded(maps: map<nat, Codes>, path: Path, n: nat)
    requires AllWf(maps) && n >= |path| + 1
    ensures BitsBelow(maps, n) >= BitsBelow(maps, |path| + 1)
    ensures Laid(maps, OfPath(path), n) ==
            Laid(maps, OfPath(path), |path| + 1) + Zeros(BitsBelow(maps, n) - BitsBelow(maps, |path| + 1))
    decreases n
  {
    hide Wf;
    if n > |path| + 1 {
      ShortPathIsPadded(maps, path, n - 1);
    }
  }

  // Depths beyond the last mapping are ignored.
  lemma {:induction false} LongPathIsCut(maps: map<nat, Codes>, c: Content, m: nat, n: nat)
    requires m <= n && forall d :: d in maps ==> d < m
    ensures Laid(maps, c, n) == Laid(maps, c, m)
    decreases n
  {
    if n > m {
      LongPathIsCut(maps, c, m, n - 1);
    }
  }

  // When the widths add up to `maxBytes`, the VMAC part of a path is exactly its fields.
  lemma PathVmacFields(maps: map<nat, Codes>, path: Path, maxBytes: int, n: nat)
    requires AllWf(maps) && BitsBelow(maps, n) == maxBytes
    requires forall d :: d in maps ==> d < n
    ensures PathVmac(maps, path, maxBytes) == Laid(maps, OfPath(path), n)
  {
    hide AllWf, Laid, BitsBelow;
    LaidLength(maps, OfPath(path), n);
    LaidLength(maps, OfPath(path), |path| + 1);
    if n >= |path| + 1 {
      ShortPathIsPadded(maps, path, n);
    } else {
      LongPathIsCut(maps, OfPath(path), n, |path| + 1);
    }
  }

  // Every VMAC part has the length of the rule's pattern exactly if the widths add up.
  lemma VmacAlignedIffBudgetSpent(maps: map<nat, Codes>, maxBytes: int, n: nat)
    requires AllWf(maps) && maxBytes >= 0
    requires forall d :: d in maps ==> 0 < d < n
    ensures (forall path :: |PathVmac(maps, path, maxBytes)| == BitsBelow(maps, n)) <==> BitsBelow(maps, n) == maxBytes
  {
    if BitsBelow(maps, n) == maxBytes {
      forall path
        ensures |PathVmac(maps, path, maxBytes)| == BitsBelow(maps, n)
      {
        PathVmacFields(maps, path, maxBytes, n);
        LaidLength(maps, OfPath(path), n);
      }
    } else {
      LaidLength(maps, OfPath([]), 1);
      assert |PathVmac(maps, [], maxBytes)| == maxBytes;
    }
  }

  // The same depths with the same widths.
  ghost predicate SameFields(maps0: map<nat, Codes>, maps: map<nat, Codes>) {
    maps0.Keys == maps.Keys && forall d :: d in maps ==> maps0[d].width == maps[d].width
  }

  // Field by field: only the two fields of the link decide. The path may have been written
  // with other codes, over the same fields.
  lemma {:induction false} FieldsDecide(maps0: map<nat, Codes>, maps: map<nat, Codes>, path: Path, d: nat, l: Link,
                                        n: nat)
    requires AllWf(maps0) && AllWf(maps) && SameFields(maps0, maps)
    ensures Matches(Laid(maps0, OfPath(path), n), Laid(maps, Pattern(d, l), n), Laid(maps, Mask(d), n)) <==>
            && (d < n && d in maps ==> FieldOf(maps0, OfPath(path), d) == CodeString(maps[d], l.from))
            && (d + 1 < n && d + 1 in maps ==> FieldOf(maps0, OfPath(path), d + 1) == CodeString(maps[d + 1], l.to))
  {
    hide Wf, CodeString, Matches;
    if n == 0 {
      NothingMatches();
    } else {
      var i := n - 1;
      FieldsDecide(maps0, maps, path, d, l, i);
      SameLengths(maps0, maps, path, d, l, i);
      MatchesConcat(Laid(maps0, OfPath(path), i), Laid(maps, Pattern(d, l), i), Laid(maps, Mask(d), i),
                    FieldOf(maps0, OfPath(path), i), FieldOf(maps, Pattern(d, l), i), FieldOf(maps, Mask(d), i));
      OneFieldDecides(maps0, maps, path, d, l, i);
    }
  }

  lemma SameLengths(maps0: map<nat, Codes>, maps: map<nat, Codes>, path: Path, d: nat, l: Link, i: nat)
    requires AllWf(maps0) && AllWf(maps) && SameFields(maps0, maps)
    ensures |Laid(maps0, OfPath(path), i)| == |Laid(maps, Pattern(d, l), i)| == |Laid(maps, Mask(d), i)|
    ensures |FieldOf(maps0, OfPath(path), i)| == |FieldOf(maps, Pattern(d, l), i)| == |FieldOf(maps, Mask(d), i)|
  {
    hide AllWf, Laid, FieldOf;
    LaidLength(maps0, OfPath(path), i);
    LaidLength(maps, Pattern(d, l), i);
    LaidLength(maps, Mask(d), i);
    FieldLengths(maps0, OfPath(path), i);
    FieldLengths(maps, Pattern(d, l), i);
    FieldLengths(maps, Mask(d), i);
    SameWidths(maps0, maps, i);
  }

  lemma {:induction false} SameWidths(maps0: map<nat, Codes>, maps: map<nat, Codes>, n: nat)
    requires SameFields(maps0, maps)
    ensures BitsBelow(maps0, n) == BitsBelow(maps, n) && WidthAt(maps0, n) == WidthAt(maps, n)
  {
    if n > 0 {
      SameWidths(maps0, maps, n - 1);
    }
  }

  lemma OneFieldDecides(maps0: map<nat, Codes>, maps: map<nat, Codes>, path: Path, d: nat, l: Link, i: nat)
    requires AllWf(maps0) && AllWf(maps) && SameFields(maps0, maps)
    ensures Matches(FieldOf(maps0, OfPath(path), i), FieldOf(maps, Pattern(d, l), i), FieldOf(maps, Mask(d), i)) <==>
            (i in maps && (i == d || i == d + 1) ==>
               FieldOf(maps0, OfPath(path), i) == CodeString(maps[i], if i == d then l.from else l.to))
  {
    hide Wf, CodeString, Matches;
    FieldLengths(maps0, OfPath(path), i);
    FieldLengths(maps, Pattern(d, l), i);
    var word, pattern := FieldOf(maps0, OfPath(path), i), FieldOf(maps, Pattern(d, l), i);
    if i in maps && (i == d || i == d + 1) {
      MatchesOnes(word, pattern);
    } else {
      MatchesZeros(word, pattern);
    }
  }

  // A field carries the code of an AS that owns one exactly if the path has that AS there:
  // zero padding and ASes without a code never look like it.
  lemma FieldNamesAs(maps: map<nat, Codes>, path: Path, i: nat, asn: Asn)
    requires AllWf(maps) && i in maps && i >= 1 && asn in maps[i].table
    ensures FieldOf(maps, OfPath(path), i) == CodeString(maps[i], asn) <==> |path| >= i && path[i - 1] == asn
  {
    hide CodeString;
    if |path| >= i {
      CodeStringExact(maps[i], asn, path[i - 1]);
    } else {
      CodeStringExact(maps[i], asn, asn);
    }
  }

  // The fast-reroute match is exact: the rule for an encoded link at depth d matches the
  // VMACs of exactly the paths that cross this link at this depth.
  lemma FastRerouteMatchIsExact(e: Enc, path: Path, d: nat, l: Link, maxDepth: nat, maxBytes: int)
    requires Sound(e) && (e.top == 1 || e.top <= maxDepth) && d >= 1
    requires IsEncoded(e, d, l) && BitsBelow(e.maps, maxDepth + 2) == maxBytes
    ensures Matches(PathVmac(e.maps, path, maxBytes),
                    Laid(e.maps, Pattern(d, l), maxDepth + 2), Laid(e.maps, Mask(d), maxDepth + 2)) <==>
            |path| > d && path[d] == l.to && (d > 1 ==> path[d - 1] == l.from)
  {
    hide SoundAt, Matches, CodeString, FieldOf, BitsBelow, Wf;
    SoundAllWf(e);
    PathVmacFields(e.maps, path, maxBytes, maxDepth + 2);
    FieldsDecide(e.maps, e.maps, path, d, l, maxDepth + 2);
    if d > 1 {
      EncodedIsCounted(e, d, l);
      FieldNamesAs(e.maps, path, d, l.from);
    }
    FieldNamesAs(e.maps, path, d + 1, l.to);
  }

  // Both ends of an encoded link own a code, so that its rule has both fields; next to the
  // router the far end alone counts.
  lemma EncodedEndsHaveCodes(e: Enc, d: nat, l: Link)
    requires Sound(e) && d >= 1 && IsEncoded(e, d, l)
    ensures d + 1 in e.maps && l.to in e.maps[d + 1].table
    ensures d > 1 ==> d in e.maps && l.from in e.maps[d].table
  {
    hide SoundAt;
    if d > 1 {
      EncodedIsCounted(e, d, l);
    }
  }

  // Two links encoded at one depth never match the same path.
  lemma RulesOfOneDepthAreDisjoint(e: Enc, path: Path, d: nat, l: Link, k: Link, maxDepth: nat, maxBytes: int)
    requires Sound(e) && (e.top == 1 || e.top <= maxDepth) && d > 1 && l != k
    requires IsEncoded(e, d, l) && IsEncoded(e, d, k) && BitsBelow(e.maps, maxDepth + 2) == maxBytes
    ensures !(Matches(PathVmac(e.maps, path, maxBytes),
                      Laid(e.maps, Pattern(d, l), maxDepth + 2), Laid(e.maps, Mask(d), maxDepth + 2)) &&
              Matches(PathVmac(e.maps, path, maxBytes),
                      Laid(e.maps, Pattern(d, k), maxDepth + 2), Laid(e.maps, Mask(d), maxDepth + 2)))
  {
    hide Sound, IsEncoded, Matches, Laid, PathVmac;
    FastRerouteMatchIsExact(e, path, d, l, maxDepth, maxBytes);
    FastRerouteMatchIsExact(e, path, d, k, maxDepth, maxBytes);
  }

  // ---- the loops that build the strings ----

  // The value the mappings of an encoder have.
  ghost function Maps(encoding: Encoding): map<nat, Codes>
    requires encoding.Owned()
    reads encoding, encoding.Repr
  {
    encoding.State().maps
  }

  // `add_as_path_encoding_to_route`.
  method AddAsPathEncoding(encoding: Encoding, asPath: Path) returns (vMac: Bits)
    requires encoding.Owned() && 0 !in encoding.mapping
    ensures vMac == PathVmac(Maps(encoding), asPath, encoding.maxBytes)
  {
    hide CodeString, Sound;
    vMac := [];
    var deep := 1;
    while deep <= |asPath|
      invariant 1 <= deep <= |asPath| + 1
      invariant vMac == Laid(Maps(encoding), OfPath(asPath), deep)
    {
      if deep in encoding.mapping {
        var depthValue := encoding.mapping[deep].GetMappingString(asPath[deep - 1]);
        vMac := vMac + depthValue;
      }
      deep := deep + 1;
    }
    vMac := PadRight(vMac, if encoding.maxBytes < 0 then 0 else encoding.maxBytes);
  }

  method CheckEncoded(encoding: Encoding, d: nat, l: Link) returns (b: bool)
    requires encoding.Owned() && d >= 1
    ensures b <==> IsEncoded(encoding.State(), d, l)
  {
    if d == 1 {
      if d + 1 in encoding.mapping {
        return l.to in encoding.mapping[d + 1].mapping;
      }
      return false;
    }
    if d in encoding.encodedAslinks {
      return l in encoding.encodedAslinks[d];
    }
    return false;
  }

  // The pattern and the mask of the rule for link `e` at depth `d`.
  method BuildRule(encoding: Encoding, d: nat, e: Link) returns (partial: Bits, bitmask: Bits)
    requires encoding.Owned() && 0 !in encoding.mapping && 1 !in encoding.mapping
    requires d + 1 in encoding.mapping && (d > 1 ==> d in encoding.mapping)
    ensures partial == Laid(Maps(encoding), Pattern(d, e), encoding.maxDepth + 2)
    ensures bitmask == Laid(Maps(encoding), Mask(d), encoding.maxDepth + 2)
  {
    partial, bitmask := [], [];
    var i := 2;
    ghost var maps := Maps(encoding);
    assert FieldOf(maps, Pattern(d, e), 0) == [] && FieldOf(maps, Mask(d), 0) == [];
    assert FieldOf(maps, Pattern(d, e), 1) == [] && FieldOf(maps, Mask(d), 1) == [];
    assert Laid(maps, Pattern(d, e), 0) == [] && Laid(maps, Mask(d), 0) == [];
    assert Laid(maps, Pattern(d, e), 1) == [] && Laid(maps, Mask(d), 1) == [];
    assert Laid(maps, Pattern(d, e), 2) == [] && Laid(maps, Mask(d), 2) == [];
    while i < encoding.maxDepth + 2
      invariant 2 <= i <= encoding.maxDepth + 2
      invariant partial == Laid(Maps(encoding), Pattern(d, e), i)
      invariant bitmask == Laid(Maps(encoding), Mask(d), i)
    {
      if i == d {
        var code := encoding.mapping[i].GetMappingString(e.from);
        partial, bitmask := partial + code, bitmask + Ones(encoding.mapping[i].nbBytes);
      } else if i == d + 1 {
        var code := encoding.mapping[i].GetMappingString(e.to);
        partial, bitmask := partial + code, bitmask + Ones(encoding.mapping[i].nbBytes);
      } else if i in encoding.mapping {
        partial := partial + Zeros(encoding.mapping[i].nbBytes);
        bitmask := bitmask + Zeros(encoding.mapping[i].nbBytes);
      }
      i := i + 1;
    }
  }

  // What `run_peer` puts into the queue of the route server for a failed link.
  datatype FrMessage = FrMessage(asPathVmac: Bits, asPathBitmask: Bits, depth: nat)

  function RuleMessage(maps: map<nat, Codes>, d: nat, e: Link, maxDepth: nat): FrMessage {
    FrMessage(Laid(maps, Pattern(d, e), maxDepth + 2), Laid(maps, Mask(d), maxDepth + 2), d)
  }

  // One rule for each of the depths at which the failed link is encoded.
  method RulesOfFailedLink(encoding: Encoding, depthSet: set<nat>, e: Link) returns (messages: seq<FrMessage>)
    requires encoding.Valid() && 0 !in depthSet
    ensures forall d :: d in depthSet && IsEncoded(encoding.State(), d, e) <==>
                        RuleMessage(Maps(encoding), d, e, encoding.maxDepth) in messages
    ensures forall m :: m in messages ==>
              m == RuleMessage(Maps(encoding), m.depth, e, encoding.maxDepth)
    ensures NoDuplicates(messages)
    ensures forall m :: m in messages ==>
              && m.depth in depthSet
              && if m.depth == 1 then 2 in encoding.mapping && e.to in encoding.mapping[2].mapping
                 else m.depth in encoding.encodedAslinks && e in encoding.encodedAslinks[m.depth]
  {
    hide Sound, Laid, IsEncoded;
    messages := [];
    var rest := depthSet;
    while rest != {}
      invariant rest <= depthSet
      invariant forall d :: d in depthSet - rest && IsEncoded(encoding.State(), d, e) <==>
                            RuleMessage(Maps(encoding), d, e, encoding.maxDepth) in messages
      invariant forall m :: m in messages ==>
                  m == RuleMessage(Maps(encoding), m.depth, e, encoding.maxDepth)
      invariant NoDuplicates(messages)
      invariant forall m :: m in messages ==> m.depth in depthSet && IsEncoded(encoding.State(), m.depth, e)
      decreases rest
    {
      var d :| d in rest;
      var encoded := CheckEncoded(encoding, d, e);
      if encoded {
        CodesInMappings(encoding, d, e);
        var partial, bitmask := BuildRule(encoding, d, e);
        messages := messages + [FrMessage(partial, bitmask, d)];
      }
      rest := rest - {d};
    }
    forall m | m in messages
      ensures if m.depth == 1 then 2 in encoding.mapping && e.to in encoding.mapping[2].mapping
              else m.depth in encoding.encodedAslinks && e in encoding.encodedAslinks[m.depth]
    {
      EncodedPlain(encoding, m.depth, e);
    }
  }

  lemma EncodedPlain(encoding: Encoding, d: nat, e: Link)
    requires encoding.Owned()
    ensures IsEncoded(encoding.State(), d, e) <==>
            if d == 1 then 2 in encoding.mapping && e.to in encoding.mapping[2].mapping
            else d in encoding.encodedAslinks && e in encoding.encodedAslinks[d]
  {
  }

  lemma CodesInMappings(encoding: Encoding, d: nat, e: Link)
    requires encoding.Valid() && d >= 1 && IsEncoded(encoding.State(), d, e)
    ensures 0 !in encoding.mapping && 1 !in encoding.mapping
    ensures d + 1 in encoding.mapping && (d > 1 ==> d in encoding.mapping)
  {
    hide SoundAt, IsEncoded;
    assert 0 !in encoding.State().maps && 1 !in encoding.State().maps;
    EncodedEndsHaveCodes(encoding.State(), d, e);
  }
}
