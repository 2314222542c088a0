// What the messages of a run do to the AS-link encoder of a peer, on values: which links
// are encoded follows from the graph of the current paths, message by message.
module EncoderSteps {
  import opened AsLinkEncoding
  import opened AsPaths
  import opened AsTopology
  import opened BudgetRun
  import opened CodeMapping
  import opened Collections
  import opened EncodingState
  import opened PeerRun
  import opened SortedLinks
  import opened TurnOrder

  datatype EncoderSettings = EncoderSettings(maxDepth: nat, maxBytes: int, percentile: seq<int> -> real, threshold: int)

  // The links of the graph are those of the paths, with their numbers.
  ghost predicate GraphOf(edges: Edges, rib: map<Prefix, Path>) {
    forall d: nat, l: Link {:trigger Live(edges, d, l)} ::
      && (Live(edges, d, l) <==> Total(RibBag(rib), At(l, d)) > 0)
      && (Live(edges, d, l) ==> Weight(edges, d, l) == Total(RibBag(rib), At(l, d)))
  }

  // In plain terms: a link is there, at a depth, if a path crosses it there, and its number is
  // how many prefixes have such a path.
  lemma GraphPlain(edges: Edges, rib: map<Prefix, Path>, d: nat, l: Link)
    requires GraphOf(edges, rib)
    ensures l in edges && d in edges[l].depth <==>
            exists q :: q in rib && 1 <= d < |rib[q]| && rib[q][d - 1] == l.from && rib[q][d] == l.to
    ensures l in edges && d in edges[l].depth ==>
              edges[l].depth[d] ==
              |set q | q in rib && 1 <= d < |rib[q]| && rib[q][d - 1] == l.from && rib[q][d] == l.to|
  {
    hide Total, RibBag;
    SpotsCount(rib, At(l, d));
    var prefixes := CrossingAt(rib, d, l);
    SpotsOfPrefixes(rib, d, l);
    SameNumber(prefixes, d - 1);
    assert Live(edges, d, l) <==> l in edges && d in edges[l].depth;
    assert Total(RibBag(rib), At(l, d)) == |prefixes|;
    assert CrossingAt(rib, d, l) ==
           set q | q in rib && 1 <= d < |rib[q]| && rib[q][d - 1] == l.from && rib[q][d] == l.to;
    if q :| q in rib && 1 <= d < |rib[q]| && rib[q][d - 1] == l.from && rib[q][d] == l.to {
      assert q in prefixes;
    }
  }

  ghost function CrossingAt(rib: map<Prefix, Path>, d: nat, l: Link): set<Prefix> {
    set q | q in rib && 1 <= d < |rib[q]| && rib[q][d - 1] == l.from && rib[q][d] == l.to
  }

  lemma SpotsOfPrefixes(rib: map<Prefix, Path>, d: nat, l: Link)
    ensures Spots(rib, At(l, d)) == AllAt(CrossingAt(rib, d, l), d - 1)
  {
    var pairs := AllAt(CrossingAt(rib, d, l), d - 1);
    forall q | q in CrossingAt(rib, d, l)
      ensures (q, d - 1) in Spots(rib, At(l, d))
    {
      assert LinkAt(rib[q], d - 1) == l;
    }
    forall x | x in Spots(rib, At(l, d))
      ensures x in pairs
    {
      assert x.1 == d - 1 && x.0 in CrossingAt(rib, d, l);
    }
  }

  ghost function AllAt(prefixes: set<Prefix>, k: int): set<(Prefix, int)> {
    set q | q in prefixes :: (q, k)
  }

  lemma {:induction false} SameNumber(prefixes: set<Prefix>, k: int)
    ensures |AllAt(prefixes, k)| == |prefixes|
  {
    if prefixes != {} {
      var q := AnyOf(prefixes);
      SameNumber(prefixes - {q}, k);
      assert AllAt(prefixes, k) == AllAt(prefixes - {q}, k) + {(q, k)};
    }
  }

  // The encoder as `compute_encoding` leaves it on this graph: it handles exactly the depths
  // in use, has taken up their links in turn, and its thresholds are those of the encoded ones.
  ghost predicate JustComputed(e: Enc, edges: Edges, maxDepth: nat, maxBytes: int, percentile: seq<int> -> real) {
    && Sound(e) && (forall d :: d in e.links <==> 2 <= d <= maxDepth && InUse(edges, d))
    && Calibrated(e, edges, percentile)
    && Computed(Empty(e.top, e.links.Keys), e, edges, maxDepth, maxBytes)
  }

  // Such an encoder encodes something exactly if there is a link to encode and the bits
  // suffice for the first codes of two mappings.
  lemma EncodesSomethingIff(e: Enc, edges: Edges, maxDepth: nat, maxBytes: int, percentile: seq<int> -> real)
    requires JustComputed(e, edges, maxDepth, maxBytes, percentile)
    ensures (exists d :: d in e.links && e.links[d] != {}) <==>
            maxBytes >= 6 && exists d :: 2 <= d <= maxDepth && InUse(edges, d)
  {
    hide Sound, Calibrated, Allocates, Live, TakeTurns, HeaviestFirst;
    var start := Empty(e.top, e.links.Keys);
    var turns: seq<Turn>, depths: seq<nat> :|
      Examines(turns, edges, maxDepth) && Allocates(start, e, turns, depths, maxBytes);
    AllocatedLinks(start, e, turns, depths, maxBytes);
    DepthsHandled(e);
    if maxBytes < 6 {
      NothingFits(e.top, e.links.Keys, turns, maxBytes);
    } else if d :| 2 <= d <= maxDepth && InUse(edges, d) {
      var l :| Live(edges, d, l);
      assert Turn(d, Item(Weight(edges, d, l), l)) in turns;
      assert turns[0] == Turn(turns[0].depth, turns[0].item) && turns[0] in turns;
      assert InUse(edges, turns[0].depth);
      FirstFits(e.top, e.links.Keys, turns, maxBytes);
    }
  }

  lemma DepthsHandled(e: Enc)
    requires Sound(e)
    ensures forall d :: d in e.links <==> 2 <= d <= e.top
    ensures e.top >= 1
  {
    hide SoundAt;
  }

  lemma AllocatedLinks(start: Enc, e: Enc, turns: seq<Turn>, depths: seq<nat>, maxBytes: int)
    requires Allocates(start, e, turns, depths, maxBytes)
    ensures e.links == TakeTurns(start, turns, maxBytes).0.links
  {
    hide TakeTurns, FewestFirst, Grow;
    WideningKeepsLinks(TakeTurns(start, turns, maxBytes).0, depths);
  }

  lemma {:induction false} WideningKeepsLinks(e: Enc, depths: seq<nat>)
    ensures WidenAll(e, depths).links == e.links
    decreases |depths|
  {
    hide Grow;
    if depths != [] {
      WideningKeepsLinks(e, depths[..|depths| - 1]);
    }
  }

  // The first code of a mapping costs two bits.
  lemma {:induction false} NothingFits(top: nat, depths: set<nat>, turns: seq<Turn>, maxBytes: int)
    requires maxBytes < 6
    ensures TakeTurns(Empty(top, depths), turns, maxBytes) == (Empty(top, depths), 0)
    decreases |turns|
  {
    hide Spend, MappingDepths;
    if turns != [] {
      NothingFits(top, depths, turns[..|turns| - 1], maxBytes);
    }
  }

  lemma {:induction false} FirstFits(top: nat, depths: set<nat>, turns: seq<Turn>, maxBytes: int)
    requires maxBytes >= 6 && turns != [] && 2 <= turns[0].depth <= top && turns[0].depth in depths
    ensures var links := TakeTurns(Empty(top, depths), turns, maxBytes).0.links;
            turns[0].depth in links && turns[0].item.link in links[turns[0].depth]
    decreases |turns|
  {
    hide Added;
    var front := turns[..|turns| - 1];
    if front == [] {
      assert turns[0].depth in MappingDepths(top) && turns[0].depth + 1 in MappingDepths(top);
    } else {
      FirstFits(top, depths, front, maxBytes);
    }
  }

  // Computed before the withdrawal, then the links that died went.
  ghost predicate WithdrawnFromComputed(e: Enc, edges0: Edges, edges: Edges, maxDepth: nat, maxBytes: int,
                                        percentile: seq<int> -> real) {
    exists e0 :: JustComputed(e0, edges0, maxDepth, maxBytes, percentile) && OnlyLiveKept(e0, e, edges)
  }

  // An announcement, with the graph and the table after it.
  ghost predicate AnnounceStep(c: EncoderSettings, e: Option<Enc>, e': Option<Enc>, edges: Edges,
                               rib: map<Prefix, Path>, r: Route) {
    if e.Some? then e'.Some? && Advertised(e.value, e'.value, edges, r.asPath, c.percentile)
    else if |rib.Keys| > c.threshold then
      e'.Some? && JustComputed(e'.value, edges, c.maxDepth, c.maxBytes, c.percentile)
    else e' == None
  }

  // A withdrawal, with the graphs before and after it.
  ghost predicate WithdrawStep(c: EncoderSettings, e: Option<Enc>, e': Option<Enc>, edges0: Edges, edges: Edges) {
    && e'.Some?
    && if e.Some? then OnlyLiveKept(e.value, e'.value, edges)
       else WithdrawnFromComputed(e'.value, edges0, edges, c.maxDepth, c.maxBytes, c.percentile)
  }

  // A message: its announcement, then its withdrawal.
  ghost predicate EncoderStep(c: EncoderSettings, e: Option<Enc>, e': Option<Enc>, rib: map<Prefix, Path>, m: Message) {
    exists mid, edges1, edges2 :: StepVia(c, e, mid, e', rib, edges1, edges2, m)
  }

  ghost predicate StepVia(c: EncoderSettings, e: Option<Enc>, mid: Option<Enc>, e': Option<Enc>, rib: map<Prefix, Path>,
                          edges1: Edges, edges2: Edges, m: Message) {
    && GraphOf(edges1, RibAnnounced(rib, m)) && GraphOf(edges2, RibAfter(rib, m))
    && (if m.announce.Some? then AnnounceStep(c, e, mid, edges1, RibAnnounced(rib, m), m.announce.value) else mid == e)
    && (if m.withdraw.Some? then WithdrawStep(c, mid, e', edges1, edges2) else e' == mid)
  }

  function RibAfterAll(rib: map<Prefix, Path>, messages: seq<Message>): map<Prefix, Path> {
    if messages == [] then rib
    else RibAfter(RibAfterAll(rib, messages[..|messages| - 1]), messages[|messages| - 1])
  }

  // A run: the encoder before the first message and after each, one step after the other.
  ghost predicate EncoderRun(c: EncoderSettings, states: seq<Option<Enc>>, rib: map<Prefix, Path>,
                             messages: seq<Message>) {
    && |states| == |messages| + 1
    && forall i {:trigger messages[i]} :: 0 <= i < |messages| ==>
         EncoderStep(c, states[i], states[i + 1], RibAfterAll(rib, messages[..i]), messages[i])
  }

  lemma OneMoreStep(c: EncoderSettings, states: seq<Option<Enc>>, e: Option<Enc>, rib: map<Prefix, Path>,
                    messages: seq<Message>, n: nat)
    requires n < |messages| && EncoderRun(c, states, rib, messages[..n])
    requires EncoderStep(c, states[n], e, RibAfterAll(rib, messages[..n]), messages[n])
    ensures EncoderRun(c, states + [e], rib, messages[..n + 1])
    ensures RibAfterAll(rib, messages[..n + 1]) == RibAfter(RibAfterAll(rib, messages[..n]), messages[n])
  {
    hide EncoderStep;
    var front, more := messages[..n], messages[..n + 1];
    assert more[..n] == front;
    forall i {:trigger more[i]} | 0 <= i < n + 1
      ensures EncoderStep(c, (states + [e])[i], (states + [e])[i + 1], RibAfterAll(rib, more[..i]), more[i])
    {
      if i < n {
        assert front[i] == more[i] && front[..i] == more[..i];
      }
    }
  }

  lemma NoSteps(c: EncoderSettings, e: Option<Enc>, rib: map<Prefix, Path>)
    ensures EncoderRun(c, [e], rib, []) && RibAfterAll(rib, []) == rib
  {
    hide EncoderStep;
  }
}
