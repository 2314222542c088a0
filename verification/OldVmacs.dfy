// VMACs outlive the codes they were made with: what the current rule of a link still says
// about a VMAC that was handed out in an earlier state of the encoder.
module OldVmacs {
  import opened AsLinkEncoding
  import opened AsPaths
  import opened AsTopology
  import opened BitStrings
  import opened CodeMapping
  import opened Collections
  import opened EncoderSteps
  import opened EncodingState
  import opened FastReroute
  import opened PeerRun
  import opened RefreshRun

  // Field i of a VMAC made in e0 shows the code that AS a owns in e.
  ghost predicate Shows(e0: Enc, e: Enc, path: Path, i: nat, a: Asn) {
    && i in e0.maps && i in e.maps && 1 <= i <= |path|
    && path[i - 1] in e0.maps[i].table && a in e.maps[i].table
    && e0.maps[i].table[path[i - 1]].code == e.maps[i].table[a].code
  }

  lemma FieldShows(e0: Enc, e: Enc, path: Path, i: nat, a: Asn)
    requires Sound(e0) && Sound(e) && SameFields(e0.maps, e.maps) && i in e.maps && i >= 1 && a in e.maps[i].table
    ensures FieldOf(e0.maps, OfPath(path), i) == CodeString(e.maps[i], a) <==> Shows(e0, e, path, i, a)
  {
    hide Sound, SoundAt, CodeString, Wf;
    SoundAllWf(e0);
    SoundAllWf(e);
    if |path| < i {
      CodeStringExact(e.maps[i], a, a);
    } else {
      CodesShow(e0.maps[i], e.maps[i], path[i - 1], a);
    }
  }

  lemma CodesShow(m0: Codes, m: Codes, b: Asn, a: Asn)
    requires Wf(m0) && Wf(m) && m0.width == m.width && a in m.table
    ensures CodeString(m0, b) == CodeString(m, a) <==> b in m0.table && m0.table[b].code == m.table[a].code
  {
    CodeStringExact(m, a, a);
    if b in m0.table {
      FieldInjective(m0.table[b].code, m.table[a].code, m.width);
    }
  }

  // The current rule of an encoded link matches an old VMAC exactly if the VMAC shows the
  // codes that the ends of the link own now.
  lemma RuleOnOldVmac(e0: Enc, e: Enc, path: Path, d: nat, l: Link, maxDepth: nat, maxBytes: int)
    requires Sound(e0) && Sound(e) && SameFields(e0.maps, e.maps) && (e.top == 1 || e.top <= maxDepth) && d >= 1
    requires IsEncoded(e, d, l) && BitsBelow(e.maps, maxDepth + 2) == maxBytes
    ensures Matches(PathVmac(e0.maps, path, maxBytes),
                    Laid(e.maps, Pattern(d, l), maxDepth + 2), Laid(e.maps, Mask(d), maxDepth + 2)) <==>
            Shows(e0, e, path, d + 1, l.to) && (d > 1 ==> Shows(e0, e, path, d, l.from))
  {
    hide SoundAt, Matches, CodeString, FieldOf, Laid, BitsBelow, Wf, Shows;
    SoundAllWf(e0);
    SoundAllWf(e);
    SameWidths(e0.maps, e.maps, maxDepth + 2);
    PathVmacFields(e0.maps, path, maxBytes, maxDepth + 2);
    FieldsDecide(e0.maps, e.maps, path, d, l, maxDepth + 2);
    EncodedEndsHaveCodes(e, d, l);
    FieldShows(e0, e, path, d + 1, l.to);
    if d > 1 {
      FieldShows(e0, e, path, d, l.from);
    }
  }

  // ---- codes that were not released ----

  // Every AS of the path that owned a code at its depth still owns it.
  ghost predicate NoneReleased(e0: Enc, e: Enc, path: Path) {
    forall i {:trigger path[i - 1]} :: 1 <= i <= |path| && i in e0.maps && path[i - 1] in e0.maps[i].table ==>
      i in e.maps && path[i - 1] in e.maps[i].table &&
      e.maps[i].table[path[i - 1]].code == e0.maps[i].table[path[i - 1]].code
  }

  // The ends of the link owned codes when the VMAC was made.
  ghost predicate HadCodes(e0: Enc, d: nat, l: Link) {
    && d + 1 in e0.maps && l.to in e0.maps[d + 1].table
    && (d > 1 ==> d in e0.maps && l.from in e0.maps[d].table)
  }

  // As long as no code of its path has been released, an old VMAC is matched by the rules of
  // exactly the links its path crosses, among those that had codes when it was made.
  lemma OldVmacIsExact(e0: Enc, e: Enc, path: Path, d: nat, l: Link, maxDepth: nat, maxBytes: int)
    requires Sound(e0) && Sound(e) && SameFields(e0.maps, e.maps) && (e.top == 1 || e.top <= maxDepth) && d >= 1
    requires IsEncoded(e, d, l) && BitsBelow(e.maps, maxDepth + 2) == maxBytes && NoneReleased(e0, e, path)
    ensures Matches(PathVmac(e0.maps, path, maxBytes),
                    Laid(e.maps, Pattern(d, l), maxDepth + 2), Laid(e.maps, Mask(d), maxDepth + 2)) <==>
            && HadCodes(e0, d, l)
            && |path| > d && path[d] == l.to && (d > 1 ==> path[d - 1] == l.from)
  {
    hide Sound, Matches, PathVmac, Laid, BitsBelow, Shows, NoneReleased, IsEncoded;
    RuleOnOldVmac(e0, e, path, d, l, maxDepth, maxBytes);
    EncodedEndsHaveCodes(e, d, l);
    HeldShows(e0, e, path, d + 1, l.to);
    if d > 1 {
      HeldShows(e0, e, path, d, l.from);
    }
  }

  lemma HeldShows(e0: Enc, e: Enc, path: Path, i: nat, a: Asn)
    requires Sound(e) && SameFields(e0.maps, e.maps) && NoneReleased(e0, e, path)
    requires i in e.maps && i >= 1 && a in e.maps[i].table
    ensures Shows(e0, e, path, i, a) <==> |path| >= i && path[i - 1] == a && a in e0.maps[i].table
  {
    assert SoundAt(e.maps[i], e.links, i);
    if |path| >= i && path[i - 1] in e0.maps[i].table {
      assert e.maps[i].table[path[i - 1]].code == e0.maps[i].table[path[i - 1]].code;
    }
  }

  // ---- exactly when the nearest link is still told right ----

  // The AS at depth i owns its old code, or owned and owns none, and nobody else owns it now.
  ghost predicate CodeHeld(e0: Enc, e: Enc, path: Path, i: nat)
    requires i in e0.maps && i in e.maps && i >= 1
  {
    |path| >= i ==>
      var b, t0, t := path[i - 1], e0.maps[i].table, e.maps[i].table;
      && (b in t ==> b in t0 && t0[b].code == t[b].code)
      && (b in t0 ==> forall a: Asn :: a in t && a != b ==> t[a].code != t0[b].code)
  }

  // At the depth next to the router, the rules of all links read an old VMAC right exactly
  // if the code it carries there is still held.
  lemma NearestLinkIff(e0: Enc, e: Enc, path: Path, maxDepth: nat, maxBytes: int)
    requires Sound(e0) && Sound(e) && SameFields(e0.maps, e.maps) && 2 in e.maps && e.top <= maxDepth
    requires BitsBelow(e.maps, maxDepth + 2) == maxBytes
    ensures (forall l :: IsEncoded(e, 1, l) ==>
               (Matches(PathVmac(e0.maps, path, maxBytes),
                        Laid(e.maps, Pattern(1, l), maxDepth + 2), Laid(e.maps, Mask(1), maxDepth + 2)) <==>
                |path| > 1 && path[1] == l.to))
            <==> CodeHeld(e0, e, path, 2)
  {
    hide Sound, Matches, PathVmac, Laid, BitsBelow, SameFields;
    forall l | IsEncoded(e, 1, l)
      ensures Matches(PathVmac(e0.maps, path, maxBytes),
                      Laid(e.maps, Pattern(1, l), maxDepth + 2), Laid(e.maps, Mask(1), maxDepth + 2)) <==>
              Shows(e0, e, path, 2, l.to)
    {
      RuleOnOldVmac(e0, e, path, 1, l, maxDepth, maxBytes);
    }
    assert 2 in e0.maps by { SameDepths(e0, e); }
    assert forall a: Asn :: a in e.maps[2].table ==> IsEncoded(e, 1, Link(0, a));
  }

  // At the depths beyond it, where links have two codes: the link the path crosses still has
  // both, if it is encoded, and no other encoded link has them.
  ghost predicate BothHeld(e0: Enc, e: Enc, path: Path, d: nat)
    requires d in e0.maps && d + 1 in e0.maps && d in e.maps && d + 1 in e.maps && d in e.links && d >= 1
  {
    |path| > d ==>
      var u, v, t0, t1 := path[d - 1], path[d], e0.maps[d].table, e0.maps[d + 1].table;
      var had := u in t0 && v in t1;
      && (Link(u, v) in e.links[d] ==> had && Owns(e, d, u, t0[u].code) && Owns(e, d + 1, v, t1[v].code))
      && (had ==> forall l :: l in e.links[d] && Owns(e, d, l.from, t0[u].code) && Owns(e, d + 1, l.to, t1[v].code) ==>
                    l == Link(u, v))
  }

  ghost predicate Owns(e: Enc, i: nat, a: Asn, code: nat)
    requires i in e.maps
  {
    a in e.maps[i].table && e.maps[i].table[a].code == code
  }

  // There, the rules of all links read an old VMAC right exactly if that is so.
  lemma DeeperLinkIff(e0: Enc, e: Enc, path: Path, d: nat, maxDepth: nat, maxBytes: int)
    requires Sound(e0) && Sound(e) && SameFields(e0.maps, e.maps) && e.top <= maxDepth && d >= 2 && d in e.links
    requires BitsBelow(e.maps, maxDepth + 2) == maxBytes
    ensures d in e0.maps && d + 1 in e0.maps && d in e.maps && d + 1 in e.maps
    ensures (forall l :: l in e.links[d] ==>
               (Matches(PathVmac(e0.maps, path, maxBytes),
                        Laid(e.maps, Pattern(d, l), maxDepth + 2), Laid(e.maps, Mask(d), maxDepth + 2)) <==>
                |path| > d && path[d] == l.to && path[d - 1] == l.from))
            <==> BothHeld(e0, e, path, d)
  {
    hide Sound, Matches, PathVmac, Laid, BitsBelow, SameFields;
    SameDepths(e0, e);
    EncodedDepths(e, d);
    forall l | l in e.links[d]
      ensures Matches(PathVmac(e0.maps, path, maxBytes),
                      Laid(e.maps, Pattern(d, l), maxDepth + 2), Laid(e.maps, Mask(d), maxDepth + 2)) <==>
              Shows(e0, e, path, d + 1, l.to) && Shows(e0, e, path, d, l.from)
      ensures l.from in e.maps[d].table && l.to in e.maps[d + 1].table
    {
      RuleOnOldVmac(e0, e, path, d, l, maxDepth, maxBytes);
      EncodedEndsHaveCodes(e, d, l);
    }
  }

  lemma EncodedDepths(e: Enc, d: nat)
    requires Sound(e) && d in e.links
    ensures d in e.maps && d + 1 in e.maps
  {
    hide SoundAt;
  }

  lemma SameDepths(e0: Enc, e: Enc)
    requires SameFields(e0.maps, e.maps)
    ensures e0.maps.Keys == e.maps.Keys
  {
  }

  // ---- who keeps a code ----

  // What the encoder does at a time: links that died go, a mapping is refreshed, a link is
  // encoded over free codes, or nothing.
  // The graph may be another one each time.
  ghost predicate Elementary(e: Enc, e': Enc, percentile: seq<int> -> real) {
    || e' == e
    || (exists edges :: OnlyLiveKept(e, e', edges))
    || (exists edges, t :: Refreshed(e, e', edges, t, percentile))
    || (exists d, l :: EncodesAt(e, e', d, l))
  }

  ghost predicate EncodesAt(e: Enc, e': Enc, d: nat, l: Link) {
    Room(e, d) && l !in e.links[d] && e' == Encode(e, d, l, false)
  }

  // No AS that owns a code before and after changes it.
  lemma ElementaryKeepsCode(e: Enc, e': Enc, percentile: seq<int> -> real, i: nat, a: Asn)
    requires Elementary(e, e', percentile) && i in e.maps && i in e'.maps
    requires a in e.maps[i].table && a in e'.maps[i].table
    ensures e'.maps[i].table[a].code == e.maps[i].table[a].code
  {
    hide OnlyLiveKept, Refreshed, EncodesAt;
    if edges :| OnlyLiveKept(e, e', edges) {
      WithdrawalKeepsCode(e, e', edges, i, a);
    } else if edges, t :| Refreshed(e, e', edges, t, percentile) {
      RefreshKeepsCode(e, e', edges, t, percentile, i, a);
    } else if d, l :| EncodesAt(e, e', d, l) {
      EncodingKeepsCode(e, e', d, l, i, a);
    }
  }

  lemma WithdrawalKeepsCode(e: Enc, e': Enc, edges: Edges, i: nat, a: Asn)
    requires OnlyLiveKept(e, e', edges) && i in e.maps && i in e'.maps
    requires a in e.maps[i].table && a in e'.maps[i].table
    ensures e'.maps[i].table[a].code == e.maps[i].table[a].code
  {
  }

  lemma RefreshKeepsCode(e: Enc, e': Enc, edges: Edges, t: nat, percentile: seq<int> -> real, i: nat, a: Asn)
    requires Refreshed(e, e', edges, t, percentile) && i in e.maps && i in e'.maps
    requires a in e.maps[i].table && a in e'.maps[i].table
    ensures e'.maps[i].table[a].code == e.maps[i].table[a].code
  {
    hide LightestFirst, Thresholds;
    assert CodesKept(e, e'.(minimum := e.minimum));
    assert a in e'.(minimum := e.minimum).maps[i].table;
  }

  lemma EncodingKeepsCode(e: Enc, e': Enc, d: nat, l: Link, i: nat, a: Asn)
    requires EncodesAt(e, e', d, l) && i in e.maps && i in e'.maps && a in e.maps[i].table
    ensures a in e'.maps[i].table && e'.maps[i].table[a].code == e.maps[i].table[a].code
  {
  }

  // The states of the encoder, one elementary step after the other.
  ghost predicate Steps(chain: seq<Enc>, percentile: seq<int> -> real) {
    && |chain| > 0
    && forall k {:trigger chain[k]} :: 0 < k < |chain| ==> Elementary(chain[k - 1], chain[k], percentile)
  }

  // In every state, the ASes of the path that owned a code at first own one.
  ghost predicate NeverReleased(chain: seq<Enc>, path: Path) {
    forall k, i {:trigger chain[k], path[i - 1]} ::
      0 <= k < |chain| && 1 <= i <= |path| && i in chain[0].maps && path[i - 1] in chain[0].maps[i].table ==>
        i in chain[k].maps && path[i - 1] in chain[k].maps[i].table
  }

  lemma FrontOfSteps(chain: seq<Enc>, path: Path, percentile: seq<int> -> real)
    requires Steps(chain, percentile) && NeverReleased(chain, path) && |chain| > 1
    ensures var front := chain[..|chain| - 1];
            Steps(front, percentile) && NeverReleased(front, path) && front[0] == chain[0]
    ensures chain[..|chain| - 1][|chain| - 2] == chain[|chain| - 2]
    ensures Elementary(chain[|chain| - 2], chain[|chain| - 1], percentile)
  {
    hide Elementary;
    assert chain[|chain| - 1] == chain[|chain| - 1];
  }

  // An AS that is never without a code keeps the one it has: nothing of the path is released.
  lemma {:induction false} StepsKeepCodes(chain: seq<Enc>, path: Path, percentile: seq<int> -> real)
    requires Steps(chain, percentile) && NeverReleased(chain, path)
    ensures NoneReleased(chain[0], chain[|chain| - 1], path)
    decreases |chain|
  {
    hide Elementary;
    var n := |chain| - 1;
    if n > 0 {
      FrontOfSteps(chain, path, percentile);
      StepsKeepCodes(chain[..n], path, percentile);
      forall i | 1 <= i <= |path| && i in chain[0].maps && path[i - 1] in chain[0].maps[i].table
        ensures && i in chain[n].maps && path[i - 1] in chain[n].maps[i].table
                && chain[n].maps[i].table[path[i - 1]].code == chain[0].maps[i].table[path[i - 1]].code
      {
        ElementaryKeepsCode(chain[n - 1], chain[n], percentile, i, path[i - 1]);
      }
    }
  }

  // ---- a run is made of such steps ----

  lemma Longer(chain: seq<Enc>, e: Enc, percentile: seq<int> -> real)
    requires Steps(chain, percentile) && Elementary(chain[|chain| - 1], e, percentile)
    ensures Steps(chain + [e], percentile)
  {
    hide Elementary;
    var more := chain + [e];
    forall k {:trigger more[k]} | 0 < k < |more|
      ensures Elementary(more[k - 1], more[k], percentile)
    {
      if k < |chain| {
        assert more[k] == chain[k] && more[k - 1] == chain[k - 1];
      }
    }
  }

  // An offered link adds the refreshes it causes, and itself.
  lemma OfferSteps(chain: seq<Enc>, e': Enc, edges: Edges, d: nat, l: Link, percentile: seq<int> -> real)
    returns (more: seq<Enc>)
    requires Steps(chain, percentile) && OfferedToAdd(chain[|chain| - 1], e', edges, d, l, percentile)
    ensures Steps(more, percentile) && chain <= more && more[|more| - 1] == e'
  {
    hide Refreshed, OnlyLiveKept, Encode;
    var e := chain[|chain| - 1];
    var mid, ready, added :| AddOutcome(e, mid, ready, e', edges, d, l, added, percentile);
    if e' == e {
      more := chain;
    } else {
      assert e' == ready || EncodesAt(ready, e', d, l);
      Longer(chain, mid, percentile);
      Longer(chain + [mid], ready, percentile);
      Longer(chain + [mid] + [ready], e', percentile);
      more := chain + [mid] + [ready] + [e'];
    }
  }

  lemma DeadLinksGo(e: Enc, e': Enc, edges: Edges, percentile: seq<int> -> real)
    requires OnlyLiveKept(e, e', edges)
    ensures Elementary(e, e', percentile)
  {
    hide OnlyLiveKept;
  }

  // An advertisement withdraws the old path and offers the links of the new one.
  lemma AdvertisementSteps(chain: seq<Enc>, e': Enc, edges: Edges, path: Path, percentile: seq<int> -> real)
    returns (more: seq<Enc>)
    requires Steps(chain, percentile) && Advertised(chain[|chain| - 1], e', edges, path, percentile)
    ensures Steps(more, percentile) && chain <= more && more[|more| - 1] == e'
  {
    hide OnlyLiveKept, OfferedToAdd, Refreshed, EncodesAt, Elementary;
    var offers :| AdvertisedBy(chain[|chain| - 1], e', offers, LinkCount(path), edges, path, percentile);
    DeadLinksGo(chain[|chain| - 1], offers[0], edges, percentile);
    Longer(chain, offers[0], percentile);
    more := chain + [offers[0]];
    var i := 0;
    while i < LinkCount(path)
      invariant 0 <= i <= LinkCount(path) && |more| > 0
      invariant Steps(more, percentile) && chain <= more && more[|more| - 1] == offers[i]
    {
      assert OfferedToAdd(offers[i], offers[i + 1], edges, i + 1, LinkAt(path, i), percentile);
      more := OfferSteps(more, offers[i + 1], edges, i + 1, LinkAt(path, i), percentile);
      i := i + 1;
    }
  }

  lemma WithdrawalSteps(chain: seq<Enc>, e': Option<Enc>, c: EncoderSettings, edges0: Edges, edges: Edges)
    returns (more: seq<Enc>)
    requires Steps(chain, c.percentile) && WithdrawStep(c, Some(chain[|chain| - 1]), e', edges0, edges)
    ensures Steps(more, c.percentile) && chain <= more && e' == Some(more[|more| - 1])
  {
    hide OnlyLiveKept, JustComputed;
    Longer(chain, e'.value, c.percentile);
    more := chain + [e'.value];
  }

  // A message, once there is an encoder.
  lemma MessageSteps(chain: seq<Enc>, e': Option<Enc>, c: EncoderSettings, rib: map<Prefix, Path>, m: Message)
    returns (more: seq<Enc>)
    requires Steps(chain, c.percentile) && EncoderStep(c, Some(chain[|chain| - 1]), e', rib, m)
    ensures Steps(more, c.percentile) && chain <= more && e' == Some(more[|more| - 1])
  {
    hide Advertised, WithdrawStep, GraphOf, Elementary;
    var mid, edges1, edges2 :| StepVia(c, Some(chain[|chain| - 1]), mid, e', rib, edges1, edges2, m);
    more := chain;
    if m.announce.Some? {
      more := AdvertisementSteps(chain, mid.value, edges1, m.announce.value.asPath, c.percentile);
    }
    if m.withdraw.Some? {
      more := WithdrawalSteps(more, e', c, edges1, edges2);
    }
  }

  // The chain leads through the states of the encoder between the messages, in their order.
  ghost predicate Traces(chain: seq<Enc>, at: seq<nat>, states: seq<Option<Enc>>) {
    && |at| == |states| > 0 && at[0] == 0 && at[|at| - 1] == |chain| - 1
    && (forall i, j :: 0 <= i < j < |at| ==> at[i] <= at[j])
    && forall i {:trigger states[i]} {:trigger at[i]} :: 0 <= i < |at| ==>
         at[i] < |chain| && states[i] == Some(chain[at[i]])
  }

  // What any run of messages does to an encoder.
  lemma {:induction false} RunSteps(c: EncoderSettings, states: seq<Option<Enc>>, rib: map<Prefix, Path>,
                                    messages: seq<Message>)
    returns (chain: seq<Enc>, at: seq<nat>)
    requires EncoderRun(c, states, rib, messages) && states[0].Some?
    ensures Steps(chain, c.percentile) && Traces(chain, at, states)
    decreases |messages|
  {
    hide EncoderStep, Elementary;
    if messages == [] {
      chain, at := [states[0].value], [0];
    } else {
      var n := |messages| - 1;
      FrontOfRun(c, states, rib, messages);
      chain, at := RunSteps(c, states[..n + 1], rib, messages[..n]);
      assert states[n] == states[..n + 1][n] == Some(chain[at[n]]);
      var more := MessageSteps(chain, states[n + 1], c, RibAfterAll(rib, messages[..n]), messages[n]);
      TraceGrows(chain, more, at, states);
      chain, at := more, at + [|more| - 1];
    }
  }

  lemma FrontOfRun(c: EncoderSettings, states: seq<Option<Enc>>, rib: map<Prefix, Path>, messages: seq<Message>)
    requires EncoderRun(c, states, rib, messages) && messages != []
    ensures var n := |messages| - 1;
            && EncoderRun(c, states[..n + 1], rib, messages[..n])
            && EncoderStep(c, states[n], states[n + 1], RibAfterAll(rib, messages[..n]), messages[n])
  {
    hide EncoderStep;
    var n := |messages| - 1;
    assert forall i :: 0 <= i < n ==> messages[..n][i] == messages[i] && messages[..n][..i] == messages[..i];
  }

  lemma TraceGrows(chain: seq<Enc>, more: seq<Enc>, at: seq<nat>, states: seq<Option<Enc>>)
    requires |states| > 1 && Traces(chain, at, states[..|states| - 1]) && chain <= more && more != []
    requires states[|states| - 1] == Some(more[|more| - 1])
    ensures Traces(more, at + [|more| - 1], states)
  {
    var front, more' := states[..|states| - 1], at + [|more| - 1];
    forall i {:trigger states[i]} {:trigger more'[i]} | 0 <= i < |more'|
      ensures more'[i] < |more| && states[i] == Some(more[more'[i]])
    {
      if i < |at| {
        assert front[i] == states[i] && at[i] < |chain|;
      }
    }
  }

  // An old VMAC is read right by the rule of a link.
  ghost predicate ReadRight(e0: Enc, e: Enc, path: Path, d: nat, l: Link, maxDepth: nat, maxBytes: int) {
    Matches(PathVmac(e0.maps, path, maxBytes),
            Laid(e.maps, Pattern(d, l), maxDepth + 2), Laid(e.maps, Mask(d), maxDepth + 2)) <==>
    HadCodes(e0, d, l) && |path| > d && path[d] == l.to && (d > 1 ==> path[d - 1] == l.from)
  }

  // After any run of messages, if the encoder can have got there without releasing a code of
  // its path, a VMAC handed out before the run is still matched by exactly the rules of the
  // links its path crosses.
  lemma OldVmacAfterRun(c: EncoderSettings, states: seq<Option<Enc>>, rib: map<Prefix, Path>, messages: seq<Message>,
                        path: Path, d: nat, l: Link)
    requires EncoderRun(c, states, rib, messages) && states[0].Some? && states[|messages|].Some? && d >= 1
    requires var e0, e := states[0].value, states[|messages|].value;
             && Sound(e0) && Sound(e) && SameFields(e0.maps, e.maps) && (e.top == 1 || e.top <= c.maxDepth)
             && IsEncoded(e, d, l) && BitsBelow(e.maps, c.maxDepth + 2) == c.maxBytes
    ensures exists chain, at :: Steps(chain, c.percentile) && Traces(chain, at, states)
    ensures (exists chain, at :: Steps(chain, c.percentile) && Traces(chain, at, states) && NeverReleased(chain, path))
            ==> ReadRight(states[0].value, states[|messages|].value, path, d, l, c.maxDepth, c.maxBytes)
  {
    hide Sound, SameFields, Matches, PathVmac, Laid, BitsBelow, NeverReleased, NoneReleased, IsEncoded, EncoderStep,
      Elementary, HadCodes;
    var aChain, anAt := RunSteps(c, states, rib, messages);
    if chain, at :| Steps(chain, c.percentile) && Traces(chain, at, states) && NeverReleased(chain, path) {
      StepsKeepCodes(chain, path, c.percentile);
      OldVmacIsExact(states[0].value, states[|messages|].value, path, d, l, c.maxDepth, c.maxBytes);
    }
  }
}
