// The per-peer process of xrs/participant_swift.py: `run_peer` keeps two weighted graphs,
// a sliding window of withdrawals, a burst flag and the AS-link encoder in step.
module SwiftPeer {
  import opened AsLinkEncoding
  import opened AsPaths
  import opened AsTopology
  import opened BitStrings
  import opened BudgetRun
  import opened Collections
  import opened EncoderSteps
  import opened EncodingState
  import opened FastReroute
  import opened PeerRun
  import opened TurnOrder

  // ---- xrs/rib.py ----

  class RIBPeer {
    var rib: map<Prefix, Path>

    constructor ()
      ensures rib == map[]
    {
      rib := map[];
    }

    method Update(prefix: Prefix, asPath: Path) returns (previous: Path)
      modifies this
      ensures rib == old(rib)[prefix := asPath]
      ensures previous == PathOf(old(rib), prefix)
    {
      previous := if prefix in rib then rib[prefix] else [];
      rib := rib[prefix := asPath];
    }

    method Withdraw(prefix: Prefix) returns (previous: Path)
      modifies this
      ensures rib == old(rib) - {prefix}
      ensures previous == PathOf(old(rib), prefix)
    {
      if prefix in rib {
        previous := rib[prefix];
        rib := rib - {prefix};
      } else {
        previous := [];
        assert rib == rib - {prefix};
      }
    }
  }

  // The prefixes whose path crosses a link at all.
  function Linked(rib: map<Prefix, Path>): map<Prefix, Path> {
    map q | q in rib && LinkCount(rib[q]) > 0 :: rib[q]
  }

  lemma RibBagUpdate(rib: map<Prefix, Path>, q: Prefix, path: Path)
    ensures RibBag(rib) == Weighing(PathOf(rib, q)) + RibBag(rib - {q})
    ensures RibBag(rib[q := path]) == RibBag(rib - {q}) + Weighing(path)
  {
    hide RibBag;
    if q in rib {
      RibBagSplit(rib, q);
    } else {
      assert rib - {q} == rib;
    }
    RibBagSplit(rib[q := path], q);
    assert rib[q := path] - {q} == rib - {q};
  }

  // ---- xrs/bgp_messages.py ----

  class BGPMessagesQueue {
    const time: int
    var messages: seq<Withdrawal>

    constructor (time: int)
      ensures this.time == time && messages == []
    {
      this.time, messages := time, [];
    }

    method Append(w: Withdrawal)
      modifies this
      ensures messages == old(messages) + [w]
    {
      messages := messages + [w];
    }

    // `refresh_iter`: pops and returns the expired messages at the front.
    method RefreshIter(ts: int) returns (expired: seq<Withdrawal>)
      modifies this
      ensures expired + messages == old(messages)
      ensures forall i :: 0 <= i < |expired| ==> ts - expired[i].time > time
      ensures messages != [] ==> ts - messages[0].time <= time
    {
      expired := [];
      while |messages| > 0 && ts - messages[0].time > time
        invariant expired + messages == old(messages)
        invariant forall i :: 0 <= i < |expired| ==> ts - expired[i].time > time
        decreases |messages|
      {
        expired := expired + [messages[0]];
        messages := messages[1..];
      }
    }
  }

  // The paths of a list of withdrawals.
  function QueueBag(s: seq<Withdrawal>): multiset<Path> {
    if s == [] then multiset{} else Weighing(s[0].asPath) + QueueBag(s[1..])
  }

  lemma {:induction false} QueueBagConcat(s: seq<Withdrawal>, t: seq<Withdrawal>)
    ensures QueueBag(s + t) == QueueBag(s) + QueueBag(t)
  {
    if s == [] {
      assert s + t == t;
    } else {
      assert (s + t)[1..] == s[1..] + t;
      QueueBagConcat(s[1..], t);
    }
  }

  lemma QueueBagAppend(s: seq<Withdrawal>, w: Withdrawal)
    ensures QueueBag(s + [w]) == QueueBag(s) + Weighing(w.asPath)
  {
    QueueBagConcat(s, [w]);
    assert [w][1..] == [];
  }

  // ---- what the graph says about the encoder's links ----

  lemma LiveIffCounted(nodes: Nodes, edges: Edges, silent: bool, bag: multiset<Path>, owner: map<Prefix, Path>,
                       d: nat, l: Link)
    requires Consistent(nodes, edges, silent, bag, owner)
    ensures Live(edges, d, l) <==> Total(bag, At(l, d)) > 0
  {
  }

  // The graph of a bag of paths has no gap between its depths.
  lemma GraphIsContiguous(nodes: Nodes, edges: Edges, silent: bool, bag: multiset<Path>, owner: map<Prefix, Path>,
                          maxDepth: nat)
    requires Consistent(nodes, edges, silent, bag, owner)
    ensures Contiguous(edges, maxDepth)
  {
    hide Consistent;
    forall d | 2 < d <= maxDepth && InUse(edges, d)
      ensures InUse(edges, d - 1)
    {
      var l :| Live(edges, d, l);
      LiveIffCounted(nodes, edges, silent, bag, owner, d, l);
      var k := DepthsAreContiguous(bag, l, d);
      LiveIffCounted(nodes, edges, silent, bag, owner, d - 1, k);
    }
  }

  // After a path was exchanged, an encoded link is live or lies on the path that went.
  lemma ExchangeKeepsLive(e: Enc, t: ASTopology, edges0: Edges, bag0: multiset<Path>, oldPath: Path, newPath: Path)
    requires LinksLive(e, edges0) && t.Valid()
    requires forall d, l :: Live(edges0, d, l) ==> Total(bag0, At(l, d)) > 0
    requires LinkCount(oldPath) > 0 ==> oldPath in bag0
    requires t.bag == bag0 - Weighing(oldPath) + Weighing(newPath)
    ensures LinksLiveExcept(e, t.edge, oldPath)
    ensures forall i :: 0 <= i < LinkCount(newPath) ==> Live(t.edge, i + 1, LinkAt(newPath, i))
  {
    hide Total, Hits, Consistent;
    forall d, l | d in e.links && l in e.links[d]
      ensures Live(t.edge, d, l) || OnPath(oldPath, d, l)
    {
      assert Live(edges0, d, l);
      ExchangeCount(bag0, oldPath, newPath, At(l, d));
      HitsAtDepth(l, d, oldPath, LinkCount(oldPath));
      LiveIffCounted(t.node, t.edge, t.silent, t.bag, t.owner, d, l);
    }
    forall i | 0 <= i < LinkCount(newPath)
      ensures Live(t.edge, i + 1, LinkAt(newPath, i))
    {
      var l := LinkAt(newPath, i);
      ExchangeCount(bag0, oldPath, newPath, At(l, i + 1));
      HitsAtDepth(l, i + 1, newPath, LinkCount(newPath));
      LiveIffCounted(t.node, t.edge, t.silent, t.bag, t.owner, i + 1, l);
    }
  }

  lemma ExchangeCount(bag: multiset<Path>, oldPath: Path, newPath: Path, c: Counter)
    requires LinkCount(oldPath) > 0 ==> oldPath in bag
    ensures Total(bag - Weighing(oldPath) + Weighing(newPath), c) ==
            Total(bag, c) - Contribution(c, oldPath) + Contribution(c, newPath)
    ensures Total(bag, c) >= Contribution(c, oldPath)
  {
    var less := bag - Weighing(oldPath);
    if LinkCount(oldPath) > 0 {
      TotalSplit(bag, oldPath, c);
    } else {
      assert less == bag;
    }
    if LinkCount(newPath) > 0 {
      TotalAdd(less, newPath, c);
    } else {
      assert less + Weighing(newPath) == less;
    }
  }

  // ---- run_peer ----

  function Min(a: int, b: int): int {
    if a <= b then a else b
  }

  // The widths add up to the budget, once links are encoded at all.
  ghost predicate BudgetSpent(e: Enc, maxBytes: int, maxDepth: nat) {
    BitsBelow(e.maps, maxDepth + 2) == if e.top >= 2 then Spendable(maxBytes) + 2 else 0
  }

  class Peer {
    const winSize: nat
    const burstStart: int  // nb_withdrawals_burst_start
    const burstEnd: int    // nb_withdrawals_burst_end
    const runEncodingThreshold: int
    const maxBytes: int    // nb_bits_aspath
    const maxDepth: nat
    const percentile: seq<int> -> real
    const g: ASTopology
    const gW: ASTopology
    const rib: RIBPeer
    const wQueue: BGPMessagesQueue

    var encoding: Encoding?
    var pending: seq<Route>    // routes_without_as_path_encoding
    var burst: Option<Burst>
    var lastTs: int

    ghost var history: seq<Withdrawal>  // every withdrawal of a known path
    ghost var gone: seq<Withdrawal>     // those neither in the window nor in the burst

    function Deleted(): seq<Withdrawal>
      reads `burst
    {
      if burst.Some? then burst.value.deleted else []
    }

    // The main graph counts the current paths, the other one the window and the burst.
    ghost predicate GraphsMatch()
      reads `burst, g, gW, rib, wQueue
    {
      && g != gW && gW.wThreshold == burstStart
      && g.Valid() && g.bag == RibBag(rib.rib) && g.owner == Linked(rib.rib)
      && gW.Valid() && gW.bag == QueueBag(Deleted()) + QueueBag(wQueue.messages) && gW.owner == map[]
    }

    ghost predicate EncoderMatches()
      reads `encoding, g, encoding, if encoding != null then encoding.Repr else {}
    {
      encoding != null ==>
        && encoding.g == g && encoding.maxDepth == maxDepth && encoding.maxBytes == maxBytes
        && encoding.percentile == percentile
        && encoding.Valid() && LinksLive(encoding.State(), g.edge)
        && BudgetSpent(encoding.State(), maxBytes, maxDepth)
    }

    ghost predicate WindowMatches()
      reads `history, `gone, `burst, `lastTs, wQueue
    {
      wQueue.time == winSize && Window(history, gone, Deleted(), wQueue.messages, lastTs, winSize)
    }

    // What holds between two messages.
    ghost predicate Valid()
      reads this, g, gW, rib, wQueue, encoding, if encoding != null then encoding.Repr else {}
    {
      && GraphsMatch() && EncoderMatches() && WindowMatches()
      && (encoding != null ==> pending == [])
      && (forall i :: 0 <= i < |history| ==> history[i].time <= lastTs)
      && (burst.None? ==> |wQueue.messages| < burstStart)
      && (burst.Some? ==> |wQueue.messages| >= Min(burstStart, burstEnd))
    }

    constructor (winSize: nat, burstStart: int, burstEnd: int, runEncodingThreshold: int, maxBytes: int, maxDepth: nat,
                 percentile: seq<int> -> real, silent: bool)
      requires burstStart >= 1
      ensures Valid() && Snap() == START
      ensures Configured() == Settings(silent, winSize, burstStart, burstEnd, runEncodingThreshold)
      ensures g.wThreshold == 1 && gW.wThreshold == burstStart && wQueue.time == winSize
    {
      hide Consistent, Recent, Ends;
      this.winSize, this.burstStart, this.burstEnd := winSize, burstStart, burstEnd;
      this.runEncodingThreshold, this.maxBytes, this.maxDepth := runEncodingThreshold, maxBytes, maxDepth;
      this.percentile := percentile;
      g := new ASTopology(1, silent);
      gW := new ASTopology(burstStart, silent);
      rib := new RIBPeer();
      wQueue := new BGPMessagesQueue(winSize);
      encoding, pending, burst, lastTs, history, gone := null, [], None, 0, [], [];
    }

    function Configured(): Settings {
      Settings(g.silent, winSize, burstStart, burstEnd, runEncodingThreshold)
    }

    // The state as the messages change it.
    ghost function Snap(): Snapshot
      reads rib, `encoding, `pending, `history, `lastTs, `burst
    {
      Snapshot(rib.rib, encoding != null, pending, history, lastTs, burst)
    }

    // The encoder as a value.
    ghost function Encoded(): Option<Enc>
      reads `encoding, Encoders()
    {
      if encoding != null && encoding.Owned() then Some(encoding.State()) else None
    }

    function EncoderConfigured(): EncoderSettings {
      EncoderSettings(maxDepth, maxBytes, percentile, runEncodingThreshold)
    }

    // The objects of the encoder, if there is one.
    ghost function Encoders(): set<object>
      reads `encoding, encoding
    {
      if encoding != null then {encoding} + encoding.Repr else {}
    }

    // The widths of the encoder's mappings.
    ghost function FieldWidths(): map<nat, nat>
      reads `encoding, Encoders()
    {
      if encoding != null && encoding.Owned() then Widths(encoding.State()) else map[]
    }

    // `init_encoding`.
    method InitEncoding()
      requires g.Valid()
      modifies `encoding
      ensures encoding != null && fresh(encoding) && fresh(encoding.Repr) && EncoderMatches()
      ensures encoding.Owned() && JustComputed(encoding.State(), g.edge, maxDepth, maxBytes, percentile)
    {
      hide *;
      var e := new Encoding(g, maxBytes, maxDepth, percentile);
      TopologyIsContiguous(g, maxDepth);
      ghost var filled := e.ComputeEncoding();
      FreshBudget(e);
      encoding := e;
      FreshMatches(e);
    }

    lemma FreshMatches(e: Encoding)
      requires encoding == e && e.g == g && e.maxDepth == maxDepth && e.maxBytes == maxBytes
      requires e.percentile == percentile
      requires e.Valid() && LinksLive(e.State(), g.edge) && BudgetSpent(e.State(), maxBytes, maxDepth)
      requires Computed(Empty(e.top, e.encodedAslinks.Keys), e.State(), g.edge, maxDepth, maxBytes)
      requires forall d :: d in e.encodedAslinks <==> 2 <= d <= maxDepth && InUse(g.edge, d)
      requires Calibrated(e.State(), g.edge, percentile)
      ensures EncoderMatches() && encoding.Owned()
      ensures JustComputed(encoding.State(), g.edge, maxDepth, maxBytes, percentile)
    {
      hide LinksLive, BudgetSpent, Sound, Computed, Empty, Calibrated, InUse;
    }

    // An announcement. Without an encoder the route waits. With the prefix sets kept, it fails exactly if
    // the prefix had a path that crosses a link twice.
    method Announce(prefix: Prefix, asPath: Path) returns (ok: bool)
      requires GraphsMatch() && EncoderMatches()
      modifies rib, g, `encoding, `pending, Encoders()
      ensures ok <==> g.silent || NoRepeatedLink(PathOf(old(rib.rib), prefix))
      ensures rib.rib == old(rib.rib)[prefix := asPath]
      ensures ok ==> GraphsMatch() && EncoderMatches() && fresh(Encoders() - old(Encoders()))
      ensures ok && old(encoding) != null ==> encoding == old(encoding) && FieldWidths() == old(FieldWidths())
      ensures ok && old(encoding) != null ==>
                encoding.Owned() &&
                Advertised(old(encoding.State()), encoding.State(), g.edge, asPath, percentile)
      ensures ok ==> pending == old(pending) + if encoding == null then [Route(prefix, asPath)] else []
      ensures ok && old(encoding) == null ==>
                && (encoding != null <==> |rib.rib.Keys| > runEncodingThreshold)
                && (encoding != null ==>
                      encoding.Owned() && JustComputed(encoding.State(), g.edge, maxDepth, maxBytes, percentile))
    {
      hide Advertised, JustComputed, Linked, RibBag, QueueBag, NoRepeatedLink, Sound, LinksLive, BudgetSpent,
        Consistent, Widths, Weighing, Live, Total;
      ghost var rib0, edges0, bag0 := rib.rib, g.edge, g.bag;
      var oldPath := rib.Update(prefix, asPath);
      ok := ExchangePath(prefix, oldPath, asPath, rib0);
      if ok && encoding != null {
        AdvertiseToEncoder(oldPath, asPath, edges0, bag0);
      } else if ok {
        Await(Route(prefix, asPath));
      }
    }

    // Without an encoder: enough prefixes make one, otherwise the route waits.
    method Await(r: Route)
      requires GraphsMatch() && encoding == null
      modifies `encoding, `pending
      ensures GraphsMatch() && EncoderMatches() && fresh(Encoders())
      ensures encoding != null <==> |rib.rib.Keys| > runEncodingThreshold
      ensures encoding != null ==>
                encoding.Owned() && JustComputed(encoding.State(), g.edge, maxDepth, maxBytes, percentile)
      ensures pending == old(pending) + if encoding == null then [r] else []
    {
      hide JustComputed, Linked, RibBag, QueueBag, Sound, LinksLive, BudgetSpent, Consistent, Widths;
      if |rib.rib.Keys| > runEncodingThreshold {
        InitEncoding();
      } else {
        pending := pending + [r];
      }
    }

    // `encoding.advertisement`, once the main graph has been updated.
    method AdvertiseToEncoder(oldPath: Path, newPath: Path, ghost edges0: Edges, ghost bag0: multiset<Path>)
      requires encoding != null && encoding.g == g && encoding.maxDepth == maxDepth && encoding.maxBytes == maxBytes
      requires encoding.percentile == percentile
      requires encoding.Valid() && LinksLive(encoding.State(), edges0) &&
               BudgetSpent(encoding.State(), maxBytes, maxDepth)
      requires g.Valid() && forall d, l :: Live(edges0, d, l) ==> Total(bag0, At(l, d)) > 0
      requires LinkCount(oldPath) > 0 ==> oldPath in bag0
      requires g.bag == bag0 - Weighing(oldPath) + Weighing(newPath)
      modifies encoding, encoding.Repr
      ensures encoding == old(encoding) && Encoders() == old(Encoders()) && EncoderMatches()
      ensures FieldWidths() == old(FieldWidths())
      ensures encoding.Owned() &&
              Advertised(old(encoding.State()), encoding.State(), g.edge, newPath, percentile)
    {
      hide Advertised, Sound, LinksLive, BudgetSpent, Widths, OnlyPathAdded, LinksLiveExcept;
      ghost var e := encoding.State();
      ExchangeKeepsLive(e, g, edges0, bag0, oldPath, newPath);
      ghost var chain := encoding.Advertisement(oldPath, newPath);
      BudgetKept(e, encoding.State(), maxBytes, maxDepth);
    }

    // `encoding.withdraw`, once the main graph has been updated.
    method WithdrawFromEncoder(oldPath: Path, ghost edges0: Edges, ghost bag0: multiset<Path>)
      requires encoding != null && encoding.g == g && encoding.maxDepth == maxDepth && encoding.maxBytes == maxBytes
      requires encoding.percentile == percentile
      requires encoding.Valid() && LinksLive(encoding.State(), edges0) &&
               BudgetSpent(encoding.State(), maxBytes, maxDepth)
      requires g.Valid() && forall d, l :: Live(edges0, d, l) ==> Total(bag0, At(l, d)) > 0
      requires LinkCount(oldPath) > 0 ==> oldPath in bag0
      requires g.bag == bag0 - Weighing(oldPath)
      modifies encoding, encoding.Repr
      ensures encoding == old(encoding) && Encoders() == old(Encoders()) && EncoderMatches()
      ensures FieldWidths() == old(FieldWidths())
      ensures encoding.Owned() && OnlyLiveKept(old(encoding.State()), encoding.State(), g.edge)
    {
      hide Sound, LinksLive, BudgetSpent, Widths, LinksLiveExcept, OnlyLiveKept;
      ghost var e := encoding.State();
      assert g.bag == bag0 - Weighing(oldPath) + Weighing([]);
      ExchangeKeepsLive(e, g, edges0, bag0, oldPath, []);
      encoding.Withdraw(oldPath);
      OnlyLiveFacts(e, encoding.State(), g.edge);
      BudgetKept(e, encoding.State(), maxBytes, maxDepth);
    }

    // The path of a withdrawn prefix is taken out of the main graph.
    method TakeOut(prefix: Prefix, oldPath: Path, ghost rib0: map<Prefix, Path>) returns (ok: bool)
      requires g.Valid() && g.bag == RibBag(rib0) && g.owner == Linked(rib0) && oldPath == PathOf(rib0, prefix)
      modifies g
      ensures LinkCount(oldPath) > 0 ==> oldPath in old(g.bag)
      ensures forall d, l :: Live(old(g.edge), d, l) ==> Total(old(g.bag), At(l, d)) > 0
      ensures ok <==> g.silent || NoRepeatedLink(oldPath)
      ensures ok ==>
                && g.Valid() && g.bag == old(g.bag) - Weighing(oldPath)
                && g.bag == RibBag(rib0 - {prefix}) && g.owner == Linked(rib0 - {prefix})
    {
      hide *;
      ExchangeBags(rib0, prefix, []);
      ExchangeOwners(rib0, prefix, []);
      AllLiveCounted(g);
      ok := g.Remove(oldPath, Some(prefix));
    }

    // A withdrawal, up to the encoder. It fails exactly if the withdrawn path crosses a
    // link twice while the prefix sets are kept.
    method WithdrawPrefix(prefix: Prefix, time: int) returns (ok: bool, oldPath: Path)
      requires GraphsMatch() && EncoderMatches() && WindowMatches()
      requires lastTs <= time && forall i :: 0 <= i < |history| ==> history[i].time <= time
      modifies rib, g, gW, wQueue, `encoding, `history, Encoders()
      ensures ok <==> g.silent || NoRepeatedLink(PathOf(old(rib.rib), prefix))
      ensures oldPath == PathOf(old(rib.rib), prefix)
      ensures rib.rib == old(rib.rib) - {prefix}
      ensures ok ==> GraphsMatch() && EncoderMatches() && WindowMatches()
      ensures ok ==> history == old(history) + Known(PathOf(old(rib.rib), prefix), time)
      ensures ok ==> wQueue.messages == old(wQueue.messages) + Known(PathOf(old(rib.rib), prefix), time)
      ensures ok ==> fresh(Encoders() - old(Encoders()))
      ensures ok && old(encoding) != null ==> encoding == old(encoding) && FieldWidths() == old(FieldWidths())
      ensures ok && old(encoding) != null ==>
                encoding.Owned() && OnlyLiveKept(old(encoding.State()), encoding.State(), g.edge)
      ensures ok && old(encoding) == null ==>
                encoding != null && encoding.Owned() &&
                WithdrawnFromComputed(encoding.State(), old(g.edge), g.edge, maxDepth, maxBytes, percentile)
    {
      hide OnlyLiveKept, JustComputed, GraphsMatch, EncoderMatches, WindowMatches, NoRepeatedLink, Widths, Known;
      if encoding == null {
        InitForWithdrawal();
      }
      ok, oldPath := WithdrawKnown(prefix, time);
    }

    method InitForWithdrawal()
      requires GraphsMatch() && WindowMatches()
      modifies `encoding
      ensures encoding != null && fresh(Encoders()) && EncoderMatches()
      ensures GraphsMatch() && WindowMatches()
      ensures encoding.Owned() && JustComputed(encoding.State(), g.edge, maxDepth, maxBytes, percentile)
    {
      hide JustComputed, Linked, RibBag, QueueBag, Sound, LinksLive, BudgetSpent, Consistent, Widths, Window;
      InitEncoding();
    }

    method WithdrawKnown(prefix: Prefix, time: int) returns (ok: bool, oldPath: Path)
      requires GraphsMatch() && EncoderMatches() && WindowMatches() && encoding != null
      requires lastTs <= time && forall i :: 0 <= i < |history| ==> history[i].time <= time
      modifies rib, g, gW, wQueue, `history, Encoders()
      ensures ok <==> g.silent || NoRepeatedLink(PathOf(old(rib.rib), prefix))
      ensures oldPath == PathOf(old(rib.rib), prefix)
      ensures rib.rib == old(rib.rib) - {prefix}
      ensures ok ==> GraphsMatch() && EncoderMatches() && WindowMatches()
      ensures ok ==> history == old(history) + Known(PathOf(old(rib.rib), prefix), time)
      ensures ok ==> wQueue.messages == old(wQueue.messages) + Known(PathOf(old(rib.rib), prefix), time)
      ensures ok ==> Encoders() == old(Encoders())
      ensures ok ==> FieldWidths() == old(FieldWidths())
      ensures ok ==> encoding.Owned() && OnlyLiveKept(old(encoding.State()), encoding.State(), g.edge)
    {
      hide OnlyLiveKept, Linked, RibBag, QueueBag, NoRepeatedLink, Sound, LinksLive, BudgetSpent, Consistent, Widths,
        Window, Weighing, Known, Live, Total;
      ghost var rib0, edges0, bag0 := rib.rib, g.edge, g.bag;
      oldPath := rib.Withdraw(prefix);
      ok := TakeOut(prefix, oldPath, rib0);
      if ok {
        PassOn(oldPath, time, edges0, bag0);
      }
    }

    // The queue and the encoder, once the main graph has been updated.
    method PassOn(oldPath: Path, time: int, ghost edges0: Edges, ghost bag0: multiset<Path>)
      requires GraphsMatch() && WindowMatches()
      requires encoding != null && encoding.g == g && encoding.maxDepth == maxDepth && encoding.maxBytes == maxBytes
      requires encoding.percentile == percentile
      requires encoding.Valid() && LinksLive(encoding.State(), edges0) &&
               BudgetSpent(encoding.State(), maxBytes, maxDepth)
      requires forall d, l :: Live(edges0, d, l) ==> Total(bag0, At(l, d)) > 0
      requires LinkCount(oldPath) > 0 ==> oldPath in bag0
      requires g.bag == bag0 - Weighing(oldPath)
      requires lastTs <= time && forall i :: 0 <= i < |history| ==> history[i].time <= time
      modifies gW, wQueue, `history, encoding, encoding.Repr
      ensures GraphsMatch() && EncoderMatches() && WindowMatches()
      ensures history == old(history) + Known(oldPath, time)
      ensures wQueue.messages == old(wQueue.messages) + Known(oldPath, time)
      ensures encoding == old(encoding) && Encoders() == old(Encoders()) && FieldWidths() == old(FieldWidths())
      ensures encoding.Owned() && OnlyLiveKept(old(encoding.State()), encoding.State(), g.edge)
    {
      hide OnlyLiveKept, EncoderMatches, Linked, RibBag, QueueBag, Sound, LinksLive, BudgetSpent, Consistent, Widths,
        Window, Weighing,
        Known, Live, Total;
      QueueWithdrawal(oldPath, time);
      WithdrawFromEncoder(oldPath, edges0, bag0);
    }

    // The withdrawn path enters the graph of withdrawals and, if known, the queue.
    method QueueWithdrawal(oldPath: Path, time: int)
      requires gW.Valid() && gW.owner == map[] && WindowMatches()
      requires gW.bag == QueueBag(Deleted()) + QueueBag(wQueue.messages)
      requires lastTs <= time && forall i :: 0 <= i < |history| ==> history[i].time <= time
      modifies gW, wQueue, `history
      ensures gW.Valid() && gW.owner == map[] && WindowMatches()
      ensures gW.bag == QueueBag(Deleted()) + QueueBag(wQueue.messages)
      ensures history == old(history) + Known(oldPath, time)
      ensures wQueue.messages == old(wQueue.messages) + Known(oldPath, time)
    {
      hide QueueBag, Window, Consistent;
      gW.Add(oldPath, None);
      if oldPath != [] {
        var w := Withdrawal(time, oldPath);
        WindowGrows(history, gone, Deleted(), wQueue.messages, lastTs, winSize, w);
        QueueBagAppend(wQueue.messages, w);
        wQueue.Append(w);
        history := history + [w];
      }
    }

    // ---- the passage of time ----

    // Paths that left the queue leave the graph of withdrawals.
    method Subtract(s: seq<Withdrawal>, ghost rest: multiset<Path>)
      requires gW.Valid() && gW.owner == map[] && gW.bag == QueueBag(s) + rest
      modifies gW
      ensures gW.Valid() && gW.owner == map[] && gW.bag == rest
    {
      hide Consistent, NoRepeatedLink, QueueBag, AtOrAbove;
      var i := 0;
      while i < |s|
        invariant i <= |s|
        invariant gW.Valid() && gW.owner == map[] && gW.bag == QueueBag(s[i..]) + rest
      {
        QueueBagFirst(s, i);
        var ok := gW.Remove(s[i].asPath, None);
        i := i + 1;
      }
      assert s[i..] == [];
      EmptyBag();
    }

    // The loop that catches up second by second while a burst is on.
    method CatchUp(time: int)
      requires g != gW && gW.Valid() && gW.owner == map[] && WindowMatches()
      requires gW.bag == QueueBag(Deleted()) + QueueBag(wQueue.messages)
      requires burst.Some? && lastTs <= time && |wQueue.messages| >= Min(burstStart, burstEnd)
      modifies gW, wQueue, `burst, `lastTs, `gone
      ensures gW.Valid() && gW.owner == map[] && WindowMatches()
      ensures gW.bag == QueueBag(Deleted()) + QueueBag(wQueue.messages)
      ensures lastTs <= time
      ensures burst.Some? ==> lastTs == time && |wQueue.messages| >= Min(burstStart, burstEnd) && gone == old(gone)
      ensures burst.None? <==> Ends(history, old(lastTs), time, winSize, burstEnd)
      ensures burst.Some? ==>
                burst.value.realPrefixes == old(burst.value.realPrefixes) &&
                old(burst.value.deleted) <= burst.value.deleted
    {
      hide QueueBag, Window, Consistent, Recent;
      while lastTs != time
        invariant gW.Valid() && gW.owner == map[] && WindowMatches()
        invariant gW.bag == QueueBag(Deleted()) + QueueBag(wQueue.messages)
        invariant burst.Some? && lastTs <= time && |wQueue.messages| >= Min(burstStart, burstEnd)
        invariant burst.value.realPrefixes == old(burst.value.realPrefixes)
        invariant old(burst.value.deleted) <= burst.value.deleted
        invariant gone == old(gone) && old(lastTs) <= lastTs && !Ends(history, old(lastTs), lastTs, winSize, burstEnd)
        decreases time - lastTs
      {
        DeleteExpired(lastTs + 1);
        RecentIsWindow(history, gone, Deleted(), wQueue.messages, lastTs, winSize);
        if |wQueue.messages| < burstEnd {
          EndBurst();
          break;
        }
      }
    }

    // One second of a burst: what expires moves from the queue to the burst.
    method DeleteExpired(ts: int)
      requires burst.Some? && lastTs <= ts && WindowMatches()
      modifies wQueue, `burst, `lastTs
      ensures burst.Some? && lastTs == ts && WindowMatches()
      ensures burst.value.realPrefixes == old(burst.value.realPrefixes)
      ensures old(burst.value.deleted) <= burst.value.deleted
      ensures QueueBag(Deleted()) + QueueBag(wQueue.messages) ==
              old(QueueBag(Deleted()) + QueueBag(wQueue.messages))
    {
      hide QueueBag, Window;
      ghost var deleted, window := Deleted(), wQueue.messages;
      var expired := wQueue.RefreshIter(ts);
      WindowAdvances(history, gone, deleted, window, lastTs, winSize, expired, wQueue.messages, ts);
      QueueBagConcat(deleted, expired);
      QueueBagConcat(expired, wQueue.messages);
      burst := Some(burst.value.(deleted := burst.value.deleted + expired));
      lastTs := ts;
    }

    method EndBurst()
      requires burst.Some? && gW.Valid() && gW.owner == map[] && WindowMatches()
      requires gW.bag == QueueBag(Deleted()) + QueueBag(wQueue.messages)
      modifies gW, `burst, `gone
      ensures burst.None? && gW.Valid() && gW.owner == map[] && WindowMatches()
      ensures gW.bag == QueueBag(Deleted()) + QueueBag(wQueue.messages)
    {
      hide Window, Consistent;
      Subtract(burst.value.deleted, QueueBag(wQueue.messages));
      WindowForgets(history, gone, Deleted(), wQueue.messages, lastTs, winSize);
      gone := gone + Deleted();
      burst := None;
    }

    // Without a burst the expired withdrawals leave the queue and the graph.
    method DropExpired(ts: int)
      requires burst.None? && lastTs <= ts && WindowMatches() && gW.Valid() && gW.owner == map[]
      requires gW.bag == QueueBag(Deleted()) + QueueBag(wQueue.messages)
      modifies gW, wQueue, `lastTs, `gone
      ensures lastTs == ts && WindowMatches() && gW.Valid() && gW.owner == map[]
      ensures gW.bag == QueueBag(Deleted()) + QueueBag(wQueue.messages)
    {
      hide Window, Consistent;
      ghost var window := wQueue.messages;
      var expired := wQueue.RefreshIter(ts);
      QueueBagConcat(expired, wQueue.messages);
      Subtract(expired, QueueBag(wQueue.messages));
      WindowAdvances(history, gone, [], window, lastTs, winSize, expired, wQueue.messages, ts);
      assert [] + expired == expired;
      WindowForgets(history, gone, expired, wQueue.messages, ts, winSize);
      gone := gone + expired;
      lastTs := ts;
    }

    // The passage of time up to the message, second by second during a burst.
    method PassTime(time: int)
      requires GraphsMatch() && WindowMatches() && lastTs <= time
      requires burst.Some? ==> |wQueue.messages| >= Min(burstStart, burstEnd)
      modifies gW, wQueue, `burst, `lastTs, `gone
      ensures GraphsMatch() && WindowMatches() && lastTs == time
      ensures burst.Some? <==> old(burst.Some?) && !Ends(history, old(lastTs), time, winSize, burstEnd)
      ensures burst.Some? ==> |wQueue.messages| >= Min(burstStart, burstEnd) && gone == old(gone)
      ensures burst.Some? ==>
                burst == Some(Burst(old(burst.value.deleted) + Lapsed(history, old(lastTs), time, winSize),
                                    old(burst.value.realPrefixes)))
    {
      hide QueueBag, Window, Consistent, Ends, Lapsed;
      ghost var deleted, window := Deleted(), wQueue.messages;
      if burst.Some? {
        CatchUp(time);
        if burst.Some? {
          LapsedIsDeleted(history, gone, deleted, window, Deleted(), wQueue.messages, old(lastTs), time, winSize);
        }
      }
      if burst.None? {
        DropExpired(time);
      }
      lastTs := time;
    }

    // The burst notes the withdrawn prefix. Unless the peer is silent it writes down the
    // path of a prefix it has not seen, and fails exactly if there is none.
    method AddRealPrefix(m: Message, carried: Option<Path>) returns (ok: bool)
      requires burst.Some?
      modifies `burst
      ensures ok <==> g.silent || m.withdraw.None? || carried.Some? ||
                      m.withdraw.value.prefix in old(burst.value.realPrefixes)
      ensures burst.Some? && burst.value.deleted == old(burst.value.deleted)
      ensures ok ==> burst.value.realPrefixes == RealAfter(old(burst.value.realPrefixes), m)
    {
      ok := true;
      if m.withdraw.Some? {
        if !g.silent && m.withdraw.value.prefix !in burst.value.realPrefixes && carried.None? {
          return false;
        }
        burst := Some(burst.value.(realPrefixes := burst.value.realPrefixes + {m.withdraw.value.prefix}));
      }
    }

    // A burst starts when the queue has reached the start threshold.
    method StartBurst()
      requires GraphsMatch() && WindowMatches()
      requires burst.Some? ==> |wQueue.messages| >= Min(burstStart, burstEnd)
      modifies `burst
      ensures GraphsMatch() && WindowMatches()
      ensures burst.None? ==> |wQueue.messages| < burstStart
      ensures burst.Some? ==> |wQueue.messages| >= Min(burstStart, burstEnd)
      ensures old(burst).Some? ==> burst == old(burst)
      ensures old(burst).None? ==>
                burst == if |Recent(history, lastTs, winSize)| >= burstStart then Some(Burst([], {})) else None
    {
      hide QueueBag, Window, Consistent, Recent;
      RecentIsWindow(history, gone, Deleted(), wQueue.messages, lastTs, winSize);
      if burst.None? && |wQueue.messages| >= burstStart {
        burst := Some(Burst([], {}));
        EmptyBag();
      }
    }

    // The part of the loop body that follows the message itself. A burst that goes on keeps
    // all it took from the queue, a new one starts empty.
    method Advance(m: Message, carried: Option<Path>) returns (ok: bool)
      requires GraphsMatch() && WindowMatches() && lastTs <= m.time
      requires burst.Some? ==> |wQueue.messages| >= Min(burstStart, burstEnd)
      modifies gW, wQueue, `burst, `lastTs, `gone
      ensures var goesOn := old(burst).Some? && !Ends(history, old(lastTs), m.time, winSize, burstEnd);
              && (ok <==> !(goesOn && !g.silent && m.withdraw.Some? && carried.None? &&
                            m.withdraw.value.prefix !in old(burst).value.realPrefixes))
              && (ok && goesOn ==>
                    gone == old(gone) &&
                    burst == Some(Burst(old(burst).value.deleted + Lapsed(history, old(lastTs), m.time, winSize),
                                        RealAfter(old(burst).value.realPrefixes, m))))
              && (ok && !goesOn ==>
                    burst == if |Recent(history, m.time, winSize)| >= burstStart then Some(Burst([], {})) else None)
      ensures ok ==> GraphsMatch() && WindowMatches() && lastTs == m.time
      ensures ok && burst.None? ==> |wQueue.messages| < burstStart
      ensures ok && burst.Some? ==> |wQueue.messages| >= Min(burstStart, burstEnd)
    {
      hide QueueBag, Window, Consistent, Recent, Ends, Lapsed;
      PassTime(m.time);
      ok := true;
      if burst.Some? {
        ok := AddRealPrefix(m, carried);
        if !ok {
          return;
        }
      }
      StartBurst();
    }

    // The announcement of a message, in terms of the encoder as a value.
    method AnnounceRoute(r: Route) returns (ok: bool)
      requires GraphsMatch() && EncoderMatches()
      modifies rib, g, `encoding, `pending, Encoders()
      ensures ok <==> g.silent || NoRepeatedLink(PathOf(old(rib.rib), r.prefix))
      ensures rib.rib == old(rib.rib)[r.prefix := r.asPath]
      ensures ok ==> GraphsMatch() && EncoderMatches() && fresh(Encoders() - old(Encoders()))
      ensures ok && old(encoding) != null ==> encoding == old(encoding) && FieldWidths() == old(FieldWidths())
      ensures ok ==> pending == old(pending) + if encoding == null then [r] else []
      ensures ok ==> (encoding != null <==> old(encoding) != null || |rib.rib.Keys| > runEncodingThreshold)
      ensures ok ==> AnnounceStep(EncoderConfigured(), old(Encoded()), Encoded(), g.edge, rib.rib, r)
    {
      hide GraphsMatch, EncoderMatches, NoRepeatedLink, Widths, Advertised, JustComputed, Encoding.Owned,
        Encoding.State;
      EncoderIsOwned();
      ok := Announce(r.prefix, r.asPath);
      if ok {
        EncoderIsOwned();
      }
    }

    // Its withdrawal, with the path the message carries afterwards.
    method WithdrawRoute(w: WithdrawnRoute, time: int) returns (ok: bool, carried: Option<Path>)
      requires GraphsMatch() && EncoderMatches() && WindowMatches()
      requires lastTs <= time && forall i :: 0 <= i < |history| ==> history[i].time <= time
      modifies rib, g, gW, wQueue, `encoding, `history, Encoders()
      ensures ok <==> g.silent || NoRepeatedLink(PathOf(old(rib.rib), w.prefix))
      ensures carried == if PathOf(old(rib.rib), w.prefix) == [] then w.asPath else Some(PathOf(old(rib.rib), w.prefix))
      ensures rib.rib == old(rib.rib) - {w.prefix}
      ensures ok ==> GraphsMatch() && EncoderMatches() && WindowMatches() && encoding != null
      ensures ok ==> history == old(history) + Known(PathOf(old(rib.rib), w.prefix), time)
      ensures ok ==> |wQueue.messages| >= old(|wQueue.messages|)
      ensures ok ==> fresh(Encoders() - old(Encoders()))
      ensures ok && old(encoding) != null ==> encoding == old(encoding) && FieldWidths() == old(FieldWidths())
      ensures ok ==> WithdrawStep(EncoderConfigured(), old(Encoded()), Encoded(), old(g.edge), g.edge)
    {
      hide GraphsMatch, EncoderMatches, WindowMatches, NoRepeatedLink, Widths, OnlyLiveKept, JustComputed, Known,
        WithdrawnFromComputed, Encoding.Owned, Encoding.State;
      EncoderIsOwned();
      var oldPath;
      ok, oldPath := WithdrawPrefix(w.prefix, time);
      carried := if oldPath != [] then Some(oldPath) else w.asPath;
      if ok {
        EncoderIsOwned();
      }
    }

    // The message itself: its announcement, then its withdrawal. The path the message
    // carries afterwards is that of the prefix, if it was known.
    method Receive(m: Message) returns (ok: bool, carried: Option<Path>)
      requires GraphsMatch() && EncoderMatches() && WindowMatches()
      requires lastTs <= m.time && forall i :: 0 <= i < |history| ==> history[i].time <= m.time
      modifies rib, g, gW, wQueue, `encoding, `pending, `history, Encoders()
      ensures ok <==> !RemovalFails(Configured(), old(Snap()), m)
      ensures ok && m.withdraw.Some? ==> carried == Carried(old(Snap()), m)
      ensures ok ==> GraphsMatch() && EncoderMatches() && WindowMatches()
      ensures ok ==> rib.rib == RibAfter(old(rib.rib), m) && history == HistoryAfter(old(Snap()), m)
      ensures ok ==> (encoding != null <==> EncodedAfter(Configured(), old(Snap()), m))
      ensures ok ==> pending == Waiting(Configured(), old(Snap()), m)
      ensures ok ==> EncoderStep(EncoderConfigured(), old(Encoded()), Encoded(), old(rib.rib), m)
      ensures ok ==> |wQueue.messages| >= old(|wQueue.messages|)
      ensures ok ==> fresh(Encoders() - old(Encoders()))
      ensures ok && old(encoding) != null ==> encoding == old(encoding) && FieldWidths() == old(FieldWidths())
    {
      hide GraphOf, AnnounceStep, WithdrawStep, GraphsMatch, EncoderMatches, WindowMatches, NoRepeatedLink, FieldWidths,
        Encoded;
      ok, carried := true, None;
      NothingIsClean();
      ghost var rib0, e := rib.rib, Encoded();
      if m.announce.Some? {
        ok := AnnounceRoute(m.announce.value);
        if !ok {
          return;
        }
      }
      ghost var mid, edges1 := Encoded(), g.edge;
      GraphIsOfRib();
      if m.withdraw.Some? {
        ok, carried := WithdrawRoute(m.withdraw.value, m.time);
        if !ok {
          return;
        }
      }
      GraphIsOfRib();
      assert StepVia(EncoderConfigured(), e, mid, Encoded(), rib0, edges1, g.edge, m);
    }

    lemma EncoderIsOwned()
      requires EncoderMatches()
      ensures encoding != null ==> encoding.Owned() && Encoded() == Some(encoding.State())
      ensures encoding == null ==> Encoded() == None
    {
    }

    lemma GraphIsOfRib()
      requires GraphsMatch()
      ensures GraphOf(g.edge, rib.rib)
    {
      RibIsCounted(g.node, g.edge, g.silent, g.bag, g.owner, rib.rib);
    }

    // Once there is an encoder, the waiting routes get their VMACs and are sent. It fails
    // exactly if one of them is for the prefix the message withdraws.
    method Replay(m: Message) returns (ok: bool, sent: seq<Bits>)
      requires EncoderMatches()
      modifies `pending
      ensures EncoderMatches()
      ensures ok <==> !(encoding != null && m.withdraw.Some? && WaitsFor(old(pending), m.withdraw.value.prefix))
      ensures ok ==> pending == if encoding != null then [] else old(pending)
      ensures ok && encoding != null ==>
                && encoding.Owned() && |sent| == |old(pending)|
                && forall i :: 0 <= i < |sent| ==>
                     sent[i] == PathVmac(encoding.State().maps, old(pending)[i].asPath, maxBytes)
    {
      hide PathVmac, LinksLive, BudgetSpent, SoundAt;
      sent, ok := [], true;
      if |pending| > 0 && encoding != null {
        assert 0 !in encoding.State().maps;
        var i := 0;
        while i < |pending|
          invariant i <= |pending| && |sent| == i && pending == old(pending)
          invariant m.withdraw.Some? ==> !WaitsFor(pending[..i], m.withdraw.value.prefix)
          invariant forall k :: 0 <= k < i ==>
                      sent[k] == PathVmac(encoding.State().maps, pending[k].asPath, maxBytes)
        {
          if m.withdraw.Some? && pending[i].prefix == m.withdraw.value.prefix {
            ok := false;
            return;
          }
          var vMac := AddAsPathEncoding(encoding, pending[i].asPath);
          sent := sent + [vMac];
          i := i + 1;
        }
        assert pending[..i] == pending;
        pending := [];
      }
    }

    // One message of `run_peer`, predictions apart. It survives exactly as it should, and
    // then every invariant holds again.
    method HandleMessage(m: Message) returns (ok: bool)
      requires Valid() && lastTs <= m.time
      modifies this, rib, g, gW, wQueue, Encoders()
      ensures ok <==> Survives(Configured(), old(Snap()), m)
      ensures ok ==> Valid() && Snap() == Next(Configured(), old(Snap()), m)
      ensures ok ==> EncoderStep(EncoderConfigured(), old(Encoded()), Encoded(), old(rib.rib), m)
      ensures ok ==> fresh(Encoders() - old(Encoders()))
      ensures ok && old(encoding) != null ==> encoding == old(encoding) && FieldWidths() == old(FieldWidths())
    {
      hide EncoderStep, GraphsMatch, EncoderMatches, WindowMatches, NoRepeatedLink, Widths, Encoding.Owned,
        Encoding.State, RibAfter, RemovalFails, Waiting, EncodedAfter, HistoryAfter, WaitsFor, Ends, Recent, TakenPath,
        RealAfter, Lapsed;
      ghost var s := Snap();
      WithdrawalEncodes(Configured(), s, m);
      var carried;
      ok, carried := Receive(m);
      if !ok {
        return;
      }
      TakenAt(s, m);
      TwoGraphs();
      var sent;
      ok, sent := Replay(m);
      if ok {
        ok := Advance(m, carried);
      }
    }

    // A whole run: from a state between two messages, whatever messages follow in order.
    // The ghost result is the encoder before the first message and after each.
    method Run(messages: seq<Message>) returns (ok: bool, ghost states: seq<Option<Enc>>)
      requires Valid() && InTimeOrder(lastTs, messages)
      modifies this, rib, g, gW, wQueue, Encoders()
      ensures ok <==> AllSurvive(Configured(), old(Snap()), messages)
      ensures ok ==> Valid() && Snap() == NextAll(Configured(), old(Snap()), messages)
      ensures ok ==> EncoderRun(EncoderConfigured(), states, old(rib.rib), messages)
      ensures ok ==> states[0] == old(Encoded()) && states[|messages|] == Encoded()
      ensures ok && old(encoding) != null ==> encoding == old(encoding) && FieldWidths() == old(FieldWidths())
    {
      hide Valid, FieldWidths, Encoded, Next, Survives, RibAfter, RibAfterAll, EncoderRun, EncoderStep;
      ghost var s := Snap();
      states := [Encoded()];
      NoSteps(EncoderConfigured(), Encoded(), s.rib);
      assert messages[..0] == [];
      var i := 0;
      ok := true;
      assert messages[0..] == messages;
      while i < |messages|
        invariant i <= |messages| && Valid() && InTimeOrder(lastTs, messages[i..])
        invariant fresh(Encoders() - old(Encoders()))
        invariant AllSurvive(Configured(), Snap(), messages[i..]) <==> AllSurvive(Configured(), s, messages)
        invariant NextAll(Configured(), Snap(), messages[i..]) == NextAll(Configured(), s, messages)
        invariant rib.rib == RibAfterAll(s.rib, messages[..i])
        invariant |states| == i + 1 && states[0] == old(Encoded()) && states[i] == Encoded()
        invariant EncoderRun(EncoderConfigured(), states, s.rib, messages[..i])
        invariant old(encoding) != null ==> encoding == old(encoding) && FieldWidths() == old(FieldWidths())
      {
        assert messages[i..][0] == messages[i] && messages[i..][1..] == messages[i + 1..];
        NextFacts(Configured(), Snap(), messages[i]);
        ok := HandleMessage(messages[i]);
        if !ok {
          return;
        }
        OneMoreStep(EncoderConfigured(), states, Encoded(), s.rib, messages, i);
        states := states + [Encoded()];
        i := i + 1;
      }
      assert messages[i..] == [] && messages[..i] == messages;
    }

    // Between any two messages, the queue holds exactly the withdrawals of known paths that
    // are at most `winSize` old: the end of the history, with everything older before it.
    lemma WindowIsExact()
      requires Valid()
      ensures wQueue.messages == Recent(history, lastTs, winSize)
      ensures |wQueue.messages| <= |history| && wQueue.messages == history[|history| - |wQueue.messages|..]
      ensures forall i :: 0 <= i < |history| ==>
                (lastTs - history[i].time <= winSize <==> i >= |history| - |wQueue.messages|)
      ensures forall i :: 0 <= i < |Deleted()| ==> lastTs - Deleted()[i].time > winSize
    {
      RecentIsWindow(history, gone, Deleted(), wQueue.messages, lastTs, winSize);
    }

    // Between two messages the main graph shows what the current paths are: how often they
    // leave, enter and cross, and, unless the peer is silent, whose paths cross a link. Its
    // threshold sets hold the ASes that reach the threshold.
    lemma GraphIsExact(a: Asn, l: Link, d: nat)
      requires Valid()
      ensures (if a in g.node then g.node[a].outPrefixes else 0) ==
              |set q, i | q in rib.rib && 0 <= i < |rib.rib[q]| - 1 && rib.rib[q][i] == a :: (q, i)|
      ensures (if a in g.node then g.node[a].inPrefixes else 0) ==
              |set q, i | q in rib.rib && 0 <= i < |rib.rib[q]| - 1 && rib.rib[q][i + 1] == a :: (q, i)|
      ensures (if l in g.edge then g.edge[l].prefixCounter else 0) ==
              |set q, i | q in rib.rib && 0 <= i < |rib.rib[q]| - 1
                          && rib.rib[q][i] == l.from && rib.rib[q][i + 1] == l.to :: (q, i)|
      ensures (if l in g.edge && d in g.edge[l].depth then g.edge[l].depth[d] else 0) ==
              |set q, i | q in rib.rib && 0 <= i < |rib.rib[q]| - 1
                          && rib.rib[q][i] == l.from && rib.rib[q][i + 1] == l.to && i + 1 == d :: (q, i)|
      ensures l in g.edge && d in g.edge[l].depth ==> g.edge[l].depth[d] > 0
      ensures a in g.nodesForward <==> a in g.node && g.node[a].outPrefixes >= g.wThreshold
      ensures a in g.nodesBackward <==> a in g.node && g.node[a].inPrefixes >= g.wThreshold
    {
      hide Total, RibBag, Linked, EncoderMatches, WindowMatches, ExactPrefixSets, OwnersKnown;
      CountersPlain(rib.rib, a, l, d);
      assert Reading(g.node, g.edge, OutOf(a)) == Total(RibBag(rib.rib), OutOf(a));
      assert Reading(g.node, g.edge, InTo(a)) == Total(RibBag(rib.rib), InTo(a));
      assert Reading(g.node, g.edge, On(l)) == Total(RibBag(rib.rib), On(l));
      assert Reading(g.node, g.edge, At(l, d)) == Total(RibBag(rib.rib), At(l, d));
      assert l in g.edge && d in g.edge[l].depth ==> Live(g.edge, d, l);
    }

    lemma PrefixesAreExact(l: Link, q: Prefix)
      requires Valid() && !g.silent && l in g.edge
      ensures q in g.edge[l].prefixes <==>
              && q in rib.rib
              && exists i :: 0 <= i < |rib.rib[q]| - 1 && rib.rib[q][i] == l.from && rib.rib[q][i + 1] == l.to
    {
      hide Total, RibBag, EncoderMatches, WindowMatches, OwnersKnown, Crosses;
      assert q in g.edge[l].prefixes <==> q in g.owner && Crosses(g.owner[q], l);
      if q in rib.rib {
        CrossesPlain(rib.rib[q], l);
      }
    }

    // The graph of withdrawals counts every link of the window and of the burst.
    lemma WithdrawalGraphCounts(d: nat, l: Link)
      requires Valid()
      ensures Reading(gW.node, gW.edge, At(l, d)) ==
              Total(QueueBag(Deleted()), At(l, d)) + Total(QueueBag(Recent(history, lastTs, winSize)), At(l, d))
    {
      hide Recent, QueueBag, Total;
      WindowIsExact();
      TotalUnion(QueueBag(Deleted()), QueueBag(wQueue.messages), At(l, d));
    }

    // In every state a run can reach, the rule of an encoded link matches exactly the VMACs
    // of the paths that cross it.
    lemma RulesAreExact(path: Path, d: nat, l: Link)
      requires Valid() && encoding != null && maxBytes >= 2 && d >= 1
      requires IsEncoded(encoding.State(), d, l)
      ensures var maps := encoding.State().maps;
              Matches(PathVmac(maps, path, maxBytes), Laid(maps, Pattern(d, l), maxDepth + 2),
                      Laid(maps, Mask(d), maxDepth + 2)) <==>
              |path| > d && path[d] == l.to && (d > 1 ==> path[d - 1] == l.from)
    {
      hide SoundAt, BitsBelow, Matches, PathVmac, Laid, GraphsMatch, WindowMatches, LinksLive;
      assert EncoderMatches();
      FastRerouteMatchIsExact(encoding.State(), path, d, l, maxDepth, maxBytes);
    }

    lemma TwoGraphs()
      requires GraphsMatch()
      ensures g != gW
    {
    }

    // The path of a prefix is exchanged in the main graph.
    method ExchangePath(prefix: Prefix, oldPath: Path, newPath: Path, ghost rib0: map<Prefix, Path>) returns (ok: bool)
      requires g.Valid() && g.bag == RibBag(rib0) && g.owner == Linked(rib0) && oldPath == PathOf(rib0, prefix)
      modifies g
      ensures LinkCount(oldPath) > 0 ==> oldPath in old(g.bag)
      ensures forall d, l :: Live(old(g.edge), d, l) ==> Total(old(g.bag), At(l, d)) > 0
      ensures ok <==> g.silent || NoRepeatedLink(oldPath)
      ensures ok ==>
                && g.Valid()
                && g.bag == old(g.bag) - Weighing(oldPath) + Weighing(newPath)
                && g.bag == RibBag(rib0[prefix := newPath]) && g.owner == Linked(rib0[prefix := newPath])
    {
      hide *;
      ExchangeBags(rib0, prefix, newPath);
      ExchangeOwners(rib0, prefix, newPath);
      AllLiveCounted(g);
      ok := g.Remove(oldPath, Some(prefix));
      if ok {
        g.Add(newPath, Some(prefix));
      }
    }
  }

  lemma {:induction false} TotalUnion(a: multiset<Path>, b: multiset<Path>, c: Counter)
    ensures Total(a + b, c) == Total(a, c) + Total(b, c)
    decreases |a|
  {
    if a == multiset{} {
      assert a + b == b;
    } else {
      var p := AnyPath(a);
      TotalSplit(a, p, c);
      TotalSplit(a + b, p, c);
      assert a + b - multiset{p} == (a - multiset{p}) + b;
      TotalUnion(a - multiset{p}, b, c);
    }
  }

  lemma RibIsCounted(nodes: Nodes, edges: Edges, silent: bool, bag: multiset<Path>, owner: map<Prefix, Path>,
                     rib: map<Prefix, Path>)
    requires Consistent(nodes, edges, silent, bag, owner) && bag == RibBag(rib)
    ensures GraphOf(edges, rib)
  {
    hide Total, RibBag;
    forall d: nat, l: Link
      ensures Live(edges, d, l) <==> Total(bag, At(l, d)) > 0
      ensures Live(edges, d, l) ==> Weight(edges, d, l) == Total(bag, At(l, d))
    {
      LiveIffCounted(nodes, edges, silent, bag, owner, d, l);
      assert Reading(nodes, edges, At(l, d)) == Total(bag, At(l, d));
    }
  }

  lemma NothingIsClean()
    ensures NoRepeatedLink([])
  {
  }

  lemma WithdrawalEncodes(c: Settings, s: Snapshot, m: Message)
    ensures m.withdraw.Some? ==> EncodedAfter(c, s, m)
  {
  }

  lemma NextFacts(c: Settings, s: Snapshot, m: Message)
    ensures Next(c, s, m).lastTs == m.time && Next(c, s, m).rib == RibAfter(s.rib, m)
  {
  }

  lemma TakenAt(s: Snapshot, m: Message)
    requires forall i :: 0 <= i < |s.history| ==> s.history[i].time <= m.time
    ensures forall i :: 0 <= i < |HistoryAfter(s, m)| ==> HistoryAfter(s, m)[i].time <= m.time
  {
  }

  lemma QueueBagFirst(s: seq<Withdrawal>, i: nat)
    requires i < |s|
    ensures QueueBag(s[i..]) == Weighing(s[i].asPath) + QueueBag(s[i + 1..])
  {
  }

  lemma EmptyBag()
    ensures QueueBag([]) == multiset{}
  {
  }

  lemma OnlyLiveFacts(e: Enc, e': Enc, edges: Edges)
    requires OnlyLiveKept(e, e', edges)
    ensures Widths(e') == Widths(e) && e'.top == e.top
  {
  }

  lemma BudgetKept(e: Enc, e': Enc, maxBytes: int, maxDepth: nat)
    requires BudgetSpent(e, maxBytes, maxDepth) && Widths(e') == Widths(e) && e'.top == e.top
    ensures BudgetSpent(e', maxBytes, maxDepth)
  {
    BitsDependOnWidths(e, e', maxDepth + 2);
  }

  lemma TopologyIsContiguous(t: ASTopology, maxDepth: nat)
    requires t.Valid()
    ensures Contiguous(t.edge, maxDepth)
  {
    GraphIsContiguous(t.node, t.edge, t.silent, t.bag, t.owner, maxDepth);
  }

  lemma AllLiveCounted(t: ASTopology)
    requires t.Valid()
    ensures forall d, l :: Live(t.edge, d, l) ==> Total(t.bag, At(l, d)) > 0
  {
  }

  lemma FreshBudget(e: Encoding)
    requires e.Valid()
    requires forall d :: d in e.encodedAslinks <==> 2 <= d <= e.maxDepth && InUse(e.g.edge, d)
    requires BitsBelow(e.State().maps, e.maxDepth + 2) ==
             if InUse(e.g.edge, 2) && e.maxDepth >= 2 then Spendable(e.maxBytes) + 2 else 0
    ensures BudgetSpent(e.State(), e.maxBytes, e.maxDepth)
  {
  }

  lemma ExchangeBags(rib: map<Prefix, Path>, q: Prefix, newPath: Path)
    ensures var oldPath := PathOf(rib, q);
            && (LinkCount(oldPath) > 0 ==> oldPath in RibBag(rib))
            && RibBag(rib) - Weighing(oldPath) == RibBag(rib - {q})
            && RibBag(rib) - Weighing(oldPath) + Weighing(newPath) == RibBag(rib[q := newPath])
  {
    hide RibBag;
    RibBagUpdate(rib, q, newPath);
    var w := Weighing(PathOf(rib, q));
    assert w + RibBag(rib - {q}) - w == RibBag(rib - {q});
  }

  lemma CrossesPlain(p: Path, l: Link)
    ensures Crosses(p, l) <==> exists i :: 0 <= i < |p| - 1 && p[i] == l.from && p[i + 1] == l.to
  {
    if i :| 0 <= i < |p| - 1 && p[i] == l.from && p[i + 1] == l.to {
      assert LinkAt(p, i) == l;
    }
  }

  lemma ExchangeOwners(rib: map<Prefix, Path>, q: Prefix, newPath: Path)
    ensures var oldPath := PathOf(rib, q);
            && (LinkCount(oldPath) > 0 ==> q in Linked(rib) && Linked(rib)[q] == oldPath)
            && Uninstalled(Linked(rib), Some(q), oldPath) == Linked(rib - {q})
            && Installed(Linked(rib - {q}), Some(q), newPath) == Linked(rib[q := newPath])
            && q !in Linked(rib - {q})
  {
    hide Linked;
    LinkedWithout(rib, q);
    LinkedWith(rib, q, newPath);
  }

  lemma LinkedWithout(rib: map<Prefix, Path>, q: Prefix)
    ensures var oldPath := PathOf(rib, q);
            && (LinkCount(oldPath) > 0 ==> q in Linked(rib) && Linked(rib)[q] == oldPath)
            && Linked(rib - {q}) == (if LinkCount(oldPath) > 0 then Linked(rib) - {q} else Linked(rib))
            && q !in Linked(rib - {q})
  {
  }

  lemma LinkedWith(rib: map<Prefix, Path>, q: Prefix, path: Path)
    ensures Linked(rib[q := path]) ==
            if LinkCount(path) > 0 then Linked(rib - {q})[q := path] else Linked(rib - {q})
  {
  }
}
