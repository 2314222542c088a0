// What the messages of a run do to a peer of xrs/participant_swift.py, on values: its
// routing table, the routes that wait for an encoding, its window of withdrawals and its
// burst, and the messages it does not survive.
module PeerRun {
  import opened AsPaths
  import opened Collections

  datatype Route = Route(prefix: Prefix, asPath: Path)

  // A withdrawal carries a path only if the update it came in had attributes.
  datatype WithdrawnRoute = WithdrawnRoute(prefix: Prefix, asPath: Option<Path>)

  datatype Message = Message(time: int, announce: Option<Route>, withdraw: Option<WithdrawnRoute>)

  // The known path of a prefix, [] for an unknown one.
  function PathOf(rib: map<Prefix, Path>, prefix: Prefix): Path {
    if prefix in rib then rib[prefix] else []
  }

  // ---- the window of withdrawals ----

  // A withdrawal in the queue: when it arrived and the path it took away.
  datatype Withdrawal = Withdrawal(time: int, asPath: Path)

  predicate Expired(w: Withdrawal, ts: int, winSize: int) {
    ts - w.time > winSize
  }

  ghost predicate InOrder(s: seq<Withdrawal>) {
    forall i, j :: 0 <= i < j < |s| ==> s[i].time <= s[j].time
  }

  // The withdrawals seen so far split into those that are over, those of the burst that
  // left the window, and the window; at time ts exactly the window has not expired.
  ghost predicate Window(history: seq<Withdrawal>, gone: seq<Withdrawal>, deleted: seq<Withdrawal>,
                         window: seq<Withdrawal>, ts: int, winSize: int) {
    && history == gone + deleted + window
    && InOrder(history)
    && (forall i :: 0 <= i < |gone| ==> Expired(gone[i], ts, winSize))
    && (forall i :: 0 <= i < |deleted| ==> Expired(deleted[i], ts, winSize))
    && (forall i :: 0 <= i < |window| ==> !Expired(window[i], ts, winSize))
  }

  // Some second in between saw the window shrink below the end threshold.
  ghost predicate Ends(history: seq<Withdrawal>, start: int, end: int, winSize: int, burstEnd: int) {
    exists t {:trigger Recent(history, t, winSize)} :: start < t <= end && |Recent(history, t, winSize)| < burstEnd
  }

  // Popping the expired front of an ordered window leaves exactly what has not expired.
  lemma WindowAdvances(history: seq<Withdrawal>, gone: seq<Withdrawal>, deleted: seq<Withdrawal>,
                       window: seq<Withdrawal>, ts: int, winSize: int,
                       expired: seq<Withdrawal>, rest: seq<Withdrawal>, ts': int)
    requires Window(history, gone, deleted, window, ts, winSize) && ts <= ts'
    requires expired + rest == window
    requires forall i :: 0 <= i < |expired| ==> Expired(expired[i], ts', winSize)
    requires rest != [] ==> !Expired(rest[0], ts', winSize)
    ensures Window(history, gone, deleted + expired, rest, ts', winSize)
  {
    assert history == gone + (deleted + expired) + rest;
    var k := |gone| + |deleted| + |expired|;
    forall i | 0 <= i < |rest|
      ensures !Expired(rest[i], ts', winSize)
    {
      assert history[k] == rest[0] && history[k + i] == rest[i];
    }
  }

  lemma WindowGrows(history: seq<Withdrawal>, gone: seq<Withdrawal>, deleted: seq<Withdrawal>,
                    window: seq<Withdrawal>, ts: int, winSize: int, w: Withdrawal)
    requires Window(history, gone, deleted, window, ts, winSize)
    requires winSize >= 0 && ts <= w.time && forall i :: 0 <= i < |history| ==> history[i].time <= w.time
    ensures Window(history + [w], gone, deleted, window + [w], ts, winSize)
  {
  }

  lemma WindowForgets(history: seq<Withdrawal>, gone: seq<Withdrawal>, deleted: seq<Withdrawal>,
                      window: seq<Withdrawal>, ts: int, winSize: int)
    requires Window(history, gone, deleted, window, ts, winSize)
    ensures Window(history, gone + deleted, [], window, ts, winSize)
  {
  }

  // The withdrawals of a history that have not expired.
  function Recent(history: seq<Withdrawal>, ts: int, winSize: int): seq<Withdrawal> {
    if history == [] then []
    else (if Expired(history[0], ts, winSize) then [] else [history[0]]) + Recent(history[1..], ts, winSize)
  }

  lemma {:induction false} RecentIsWindow(history: seq<Withdrawal>, gone: seq<Withdrawal>, deleted: seq<Withdrawal>,
                                          window: seq<Withdrawal>, ts: int, winSize: int)
    requires Window(history, gone, deleted, window, ts, winSize)
    ensures window == Recent(history, ts, winSize)
  {
    RecentSkips(gone + deleted, window, ts, winSize);
    RecentKeeps(window, ts, winSize);
  }

  lemma {:induction false} RecentSkips(over: seq<Withdrawal>, rest: seq<Withdrawal>, ts: int, winSize: int)
    requires forall i :: 0 <= i < |over| ==> Expired(over[i], ts, winSize)
    ensures Recent(over + rest, ts, winSize) == Recent(rest, ts, winSize)
  {
    if over == [] {
      assert over + rest == rest;
    } else {
      assert (over + rest)[1..] == over[1..] + rest;
      RecentSkips(over[1..], rest, ts, winSize);
    }
  }

  lemma {:induction false} RecentKeeps(window: seq<Withdrawal>, ts: int, winSize: int)
    requires forall i :: 0 <= i < |window| ==> !Expired(window[i], ts, winSize)
    ensures Recent(window, ts, winSize) == window
  {
    if window != [] {
      RecentKeeps(window[1..], ts, winSize);
    }
  }

  // The withdrawals that expire after one time and up to another.
  function Lapsed(history: seq<Withdrawal>, start: int, end: int, winSize: int): seq<Withdrawal> {
    if history == [] then []
    else (if !Expired(history[0], start, winSize) && Expired(history[0], end, winSize) then [history[0]] else [])
         + Lapsed(history[1..], start, end, winSize)
  }

  lemma {:induction false} LapsedConcat(a: seq<Withdrawal>, b: seq<Withdrawal>, start: int, end: int, winSize: int)
    ensures Lapsed(a + b, start, end, winSize) == Lapsed(a, start, end, winSize) + Lapsed(b, start, end, winSize)
  {
    if a == [] {
      assert a + b == b;
    } else {
      assert (a + b)[1..] == a[1..] + b;
      LapsedConcat(a[1..], b, start, end, winSize);
    }
  }

  lemma {:induction false} LapsedAlike(s: seq<Withdrawal>, start: int, end: int, winSize: int, all: bool)
    requires forall i :: 0 <= i < |s| ==> (!Expired(s[i], start, winSize) && Expired(s[i], end, winSize) <==> all)
    ensures Lapsed(s, start, end, winSize) == if all then s else []
  {
    if s != [] {
      LapsedAlike(s[1..], start, end, winSize, all);
    }
  }

  // What a burst takes from the window while it goes on.
  lemma LapsedIsDeleted(history: seq<Withdrawal>, gone: seq<Withdrawal>, deleted: seq<Withdrawal>,
                        window: seq<Withdrawal>, deleted': seq<Withdrawal>, window': seq<Withdrawal>, start: int,
                        end: int, winSize: int)
    requires Window(history, gone, deleted, window, start, winSize) && start <= end
    requires Window(history, gone, deleted', window', end, winSize) && deleted <= deleted'
    ensures deleted' == deleted + Lapsed(history, start, end, winSize)
  {
    hide Lapsed, Expired;
    var over, lapsed := gone + deleted, deleted'[|deleted|..];
    SplitAgain(gone, deleted, window, deleted', window');
    assert history == over + (lapsed + window');
    LapsedConcat(over, lapsed + window', start, end, winSize);
    LapsedConcat(lapsed, window', start, end, winSize);
    AllLapsed(gone, deleted, window, deleted', window', start, end, winSize, history);
  }

  lemma SplitAgain(gone: seq<Withdrawal>, deleted: seq<Withdrawal>, window: seq<Withdrawal>, deleted': seq<Withdrawal>,
                   window': seq<Withdrawal>)
    requires gone + deleted + window == gone + deleted' + window' && deleted <= deleted'
    ensures window == deleted'[|deleted|..] + window'
  {
    var n := |gone| + |deleted|;
    assert window == (gone + deleted + window)[n..];
    assert deleted'[|deleted|..] + window' == (gone + deleted' + window')[n..];
  }

  lemma AllLapsed(gone: seq<Withdrawal>, deleted: seq<Withdrawal>, window: seq<Withdrawal>, deleted': seq<Withdrawal>,
                  window': seq<Withdrawal>, start: int, end: int, winSize: int, history: seq<Withdrawal>)
    requires Window(history, gone, deleted, window, start, winSize) && start <= end
    requires Window(history, gone, deleted', window', end, winSize) && deleted <= deleted'
    requires window == deleted'[|deleted|..] + window'
    ensures Lapsed(gone + deleted, start, end, winSize) == []
    ensures Lapsed(deleted'[|deleted|..], start, end, winSize) == deleted'[|deleted|..]
    ensures Lapsed(window', start, end, winSize) == []
  {
    hide Lapsed, InOrder;
    var lapsed := deleted'[|deleted|..];
    assert forall i :: 0 <= i < |lapsed| ==> lapsed[i] == window[i] && lapsed[i] == deleted'[|deleted| + i];
    LapsedAlike(gone + deleted, start, end, winSize, false);
    LapsedAlike(lapsed, start, end, winSize, true);
    LapsedAlike(window', start, end, winSize, false);
  }

  lemma {:induction false} RecentConcat(a: seq<Withdrawal>, b: seq<Withdrawal>, ts: int, winSize: int)
    ensures Recent(a + b, ts, winSize) == Recent(a, ts, winSize) + Recent(b, ts, winSize)
  {
    if a == [] {
      assert a + b == b;
    } else {
      assert (a + b)[1..] == a[1..] + b;
      RecentConcat(a[1..], b, ts, winSize);
    }
  }

  // The number of withdrawals that are at most the window's size old.
  ghost function NoOlder(history: seq<Withdrawal>, ts: int, winSize: int): nat {
    |set i | 0 <= i < |history| && ts - history[i].time <= winSize|
  }

  lemma {:induction false} RecentCount(history: seq<Withdrawal>, ts: int, winSize: int)
    ensures |Recent(history, ts, winSize)| == NoOlder(history, ts, winSize)
  {
    if history != [] {
      hide Recent, NoOlder;
      var k := |history| - 1;
      assert history == history[..k] + [history[k]];
      RecentCount(history[..k], ts, winSize);
      RecentConcat(history[..k], [history[k]], ts, winSize);
      OneRecent(history[k], ts, winSize);
      NoOlderGrows(history[..k], history[k], ts, winSize);
    }
  }

  lemma OneRecent(w: Withdrawal, ts: int, winSize: int)
    ensures |Recent([w], ts, winSize)| == if ts - w.time <= winSize then 1 else 0
  {
    assert [w][1..] == [];
  }

  lemma NoOlderGrows(front: seq<Withdrawal>, w: Withdrawal, ts: int, winSize: int)
    ensures NoOlder(front + [w], ts, winSize) == NoOlder(front, ts, winSize) + if ts - w.time <= winSize then 1 else 0
  {
    var before := set i | 0 <= i < |front| && ts - front[i].time <= winSize;
    var all := set i | 0 <= i < |front + [w]| && ts - (front + [w])[i].time <= winSize;
    assert all == before + if ts - w.time <= winSize then {|front|} else {};
  }

  // ---- what a message does ----

  // The withdrawals the burst deleted from the queue, and the prefixes withdrawn meanwhile.
  datatype Burst = Burst(deleted: seq<Withdrawal>, realPrefixes: set<Prefix>)

  datatype Settings = Settings(silent: bool, winSize: int, burstStart: int, burstEnd: int, encodingThreshold: int)

  // `pending` are the routes announced before there was an encoder.
  datatype Snapshot = Snapshot(rib: map<Prefix, Path>, encoded: bool, pending: seq<Route>,
                               history: seq<Withdrawal>, lastTs: int, burst: Option<Burst>)

  const START: Snapshot := Snapshot(map[], false, [], [], 0, None)

  function RibAnnounced(rib: map<Prefix, Path>, m: Message): map<Prefix, Path> {
    if m.announce.Some? then rib[m.announce.value.prefix := m.announce.value.asPath] else rib
  }

  function RibAfter(rib: map<Prefix, Path>, m: Message): map<Prefix, Path> {
    if m.withdraw.Some? then RibAnnounced(rib, m) - {m.withdraw.value.prefix} else RibAnnounced(rib, m)
  }

  // The path the message takes away.
  function TakenPath(rib: map<Prefix, Path>, m: Message): Path {
    if m.withdraw.Some? then PathOf(RibAnnounced(rib, m), m.withdraw.value.prefix) else []
  }

  // What a withdrawal of a known path adds to the queue.
  function Known(path: Path, time: int): seq<Withdrawal> {
    if path == [] then [] else [Withdrawal(time, path)]
  }

  // There is an encoder once the announcement has been handled.
  predicate EncodedEarly(c: Settings, s: Snapshot, m: Message) {
    s.encoded || (m.announce.Some? && |RibAnnounced(s.rib, m).Keys| > c.encodingThreshold)
  }

  // There is one after the message; a withdrawal always makes one.
  predicate EncodedAfter(c: Settings, s: Snapshot, m: Message) {
    EncodedEarly(c, s, m) || m.withdraw.Some?
  }

  // The routes that wait when both parts of the message have been handled.
  function Waiting(c: Settings, s: Snapshot, m: Message): seq<Route> {
    if m.announce.Some? && !EncodedEarly(c, s, m) then s.pending + [m.announce.value] else s.pending
  }

  function HistoryAfter(s: Snapshot, m: Message): seq<Withdrawal> {
    s.history + Known(TakenPath(s.rib, m), m.time)
  }

  // The burst goes on until the time of the message.
  ghost predicate GoesOn(c: Settings, s: Snapshot, m: Message) {
    s.burst.Some? && !Ends(HistoryAfter(s, m), s.lastTs, m.time, c.winSize, c.burstEnd)
  }

  function RealAfter(prefixes: set<Prefix>, m: Message): set<Prefix> {
    if m.withdraw.Some? then prefixes + {m.withdraw.value.prefix} else prefixes
  }

  ghost function BurstAfter(c: Settings, s: Snapshot, m: Message): Option<Burst> {
    if GoesOn(c, s, m) then
      Some(Burst(s.burst.value.deleted + Lapsed(HistoryAfter(s, m), s.lastTs, m.time, c.winSize),
                 RealAfter(s.burst.value.realPrefixes, m)))
    else if |Recent(HistoryAfter(s, m), m.time, c.winSize)| >= c.burstStart then Some(Burst([], {}))
    else None
  }

  ghost function Next(c: Settings, s: Snapshot, m: Message): Snapshot {
    Snapshot(RibAfter(s.rib, m), EncodedAfter(c, s, m), if EncodedAfter(c, s, m) then [] else Waiting(c, s, m),
             HistoryAfter(s, m), m.time, BurstAfter(c, s, m))
  }

  // ---- the same in plain terms ----

  // The announcement is entered first, then the withdrawal takes its prefix out; a known path
  // enters the history with the time of the message. Without an encoder announced routes wait,
  // unless the table has outgrown the threshold or there is a withdrawal.
  lemma TableAfter(c: Settings, s: Snapshot, m: Message)
    ensures var s' := Next(c, s, m);
            && s'.lastTs == m.time
            && (forall q :: q in s'.rib <==>
                  && !(m.withdraw.Some? && m.withdraw.value.prefix == q)
                  && (q in s.rib || (m.announce.Some? && m.announce.value.prefix == q)))
            && (forall q :: q in s'.rib ==>
                  s'.rib[q] == if m.announce.Some? && m.announce.value.prefix == q then m.announce.value.asPath
                               else s.rib[q])
    ensures var s' := Next(c, s, m);
            && (s'.encoded <==>
                  || s.encoded || m.withdraw.Some?
                  || (m.announce.Some? && |s.rib.Keys + {m.announce.value.prefix}| > c.encodingThreshold))
            && s'.pending == if s'.encoded then []
                             else if m.announce.Some? then s.pending + [m.announce.value] else s.pending
  {
    hide BurstAfter;
    if m.announce.Some? {
      assert RibAnnounced(s.rib, m).Keys == s.rib.Keys + {m.announce.value.prefix};
    }
  }

  // The path a withdrawal takes away is the one just announced, or the known one, or none.
  lemma HistoryGrows(c: Settings, s: Snapshot, m: Message)
    ensures m.withdraw.None? ==> Next(c, s, m).history == s.history
    ensures m.withdraw.Some? ==>
              var q := m.withdraw.value.prefix;
              var path := if m.announce.Some? && m.announce.value.prefix == q then m.announce.value.asPath
                          else if q in s.rib then s.rib[q] else [];
              Next(c, s, m).history == s.history + if path == [] then [] else [Withdrawal(m.time, path)]
  {
    hide BurstAfter;
  }

  // A burst goes on unless in some second since the last message fewer withdrawals than the
  // end threshold were at most the window's size old.
  lemma GoesOnIff(c: Settings, s: Snapshot, m: Message)
    ensures var h := Next(c, s, m).history;
            GoesOn(c, s, m) <==>
            && s.burst.Some?
            && forall t :: s.lastTs < t <= m.time ==>
                 NoOlder(h, t, c.winSize) >= c.burstEnd
  {
    hide Recent, BurstAfter, NoOlder;
    var h := HistoryAfter(s, m);
    forall t
      ensures |Recent(h, t, c.winSize)| == NoOlder(h, t, c.winSize)
    {
      RecentCount(h, t, c.winSize);
    }
  }

  // One that goes on has taken from the queue exactly what became too old meanwhile, and knows
  // one prefix more. Otherwise there is a new one exactly if enough withdrawals are recent.
  lemma BurstPlain(c: Settings, s: Snapshot, m: Message, a: nat, b: nat)
    requires var h := Next(c, s, m).history;
             && a <= b <= |h|
             && (forall i :: 0 <= i < |h| ==> (s.lastTs - h[i].time > c.winSize <==> i < a))
             && (forall i :: 0 <= i < |h| ==> (m.time - h[i].time > c.winSize <==> i < b))
    ensures var s' := Next(c, s, m);
            s'.burst ==
            if GoesOn(c, s, m) then
              Some(Burst(s.burst.value.deleted + s'.history[a..b],
                         if m.withdraw.Some? then s.burst.value.realPrefixes + {m.withdraw.value.prefix}
                         else s.burst.value.realPrefixes))
            else if |s'.history| - b >= c.burstStart then Some(Burst([], {}))
            else None
  {
    hide Recent, Lapsed, GoesOn, HistoryAfter;
    var h := HistoryAfter(s, m);
    LapsedIsSlice(h, a, b, s.lastTs, m.time, c.winSize);
    RecentCount(h, m.time, c.winSize);
    var recent := set i | 0 <= i < |h| && m.time - h[i].time <= c.winSize;
    SuffixSize(recent, b, |h|);
  }

  lemma {:induction false} SuffixSize(s: set<int>, b: nat, n: nat)
    requires b <= n && forall i :: i in s <==> b <= i < n
    ensures |s| == n - b
    decreases n
  {
    if b < n {
      SuffixSize(s - {n - 1}, b, n - 1);
    } else {
      assert forall i :: i !in s;
    }
  }

  lemma LapsedIsSlice(h: seq<Withdrawal>, a: nat, b: nat, start: int, end: int, winSize: int)
    requires a <= b <= |h|
    requires forall i :: 0 <= i < |h| ==> (start - h[i].time > winSize <==> i < a)
    requires forall i :: 0 <= i < |h| ==> (end - h[i].time > winSize <==> i < b)
    ensures Lapsed(h, start, end, winSize) == h[a..b]
  {
    hide Lapsed;
    assert h == h[..a] + (h[a..b] + h[b..]);
    LapsedConcat(h[..a], h[a..b] + h[b..], start, end, winSize);
    LapsedConcat(h[a..b], h[b..], start, end, winSize);
    LapsedAlike(h[..a], start, end, winSize, false);
    LapsedAlike(h[a..b], start, end, winSize, true);
    LapsedAlike(h[b..], start, end, winSize, false);
  }

  // ---- the messages a peer does not survive ----

  // A path that crosses a link twice is taken out of a graph that keeps prefix sets.
  ghost predicate RemovalFails(c: Settings, s: Snapshot, m: Message) {
    && !c.silent
    && (|| (m.announce.Some? && !NoRepeatedLink(PathOf(s.rib, m.announce.value.prefix)))
        || !NoRepeatedLink(TakenPath(s.rib, m)))
  }

  // The withdrawn prefix has a route that waits: it is popped from a list by value.
  predicate ReplayFails(c: Settings, s: Snapshot, m: Message) {
    m.withdraw.Some? && WaitsFor(Waiting(c, s, m), m.withdraw.value.prefix)
  }

  predicate WaitsFor(pending: seq<Route>, q: Prefix) {
    exists i :: 0 <= i < |pending| && pending[i].prefix == q
  }

  // The path a withdrawal carries when the burst records it.
  function Carried(s: Snapshot, m: Message): Option<Path>
    requires m.withdraw.Some?
  {
    if TakenPath(s.rib, m) == [] then m.withdraw.value.asPath else Some(TakenPath(s.rib, m))
  }

  // A burst writes down a withdrawal it has not seen yet, and there is no path to write.
  ghost predicate RecordFails(c: Settings, s: Snapshot, m: Message) {
    && !c.silent && m.withdraw.Some? && GoesOn(c, s, m)
    && m.withdraw.value.prefix !in s.burst.value.realPrefixes && Carried(s, m) == None
  }

  ghost predicate Survives(c: Settings, s: Snapshot, m: Message) {
    !RemovalFails(c, s, m) && !ReplayFails(c, s, m) && !RecordFails(c, s, m)
  }

  // In plain terms: a message is fatal if, with the prefix sets kept, the path it replaces or
  // takes away crosses a link twice; if a route that waits is for the withdrawn prefix; or if a
  // burst that goes on has to write down the path of a withdrawn prefix it has not seen, and
  // there is none.
  lemma SurvivesPlain(c: Settings, s: Snapshot, m: Message)
    ensures var known := if m.announce.Some? && m.announce.value.prefix in s.rib then s.rib[m.announce.value.prefix]
                         else [];
            var taken := if m.withdraw.None? then []
                         else if m.announce.Some? && m.announce.value.prefix == m.withdraw.value.prefix then
                           m.announce.value.asPath
                         else if m.withdraw.value.prefix in s.rib then s.rib[m.withdraw.value.prefix] else [];
            var early := s.encoded ||
                         (m.announce.Some? && |s.rib.Keys + {m.announce.value.prefix}| > c.encodingThreshold);
            var waiting := if m.announce.Some? && !early then s.pending + [m.announce.value] else s.pending;
            Survives(c, s, m) <==>
            && (!c.silent ==>
                  && (forall i, j :: 0 <= i < j < |known| - 1 ==> known[i] != known[j] || known[i + 1] != known[j + 1])
                  && (forall i, j :: 0 <= i < j < |taken| - 1 ==> taken[i] != taken[j] || taken[i + 1] != taken[j + 1]))
            && (m.withdraw.Some? ==>
                  && (forall r :: r in waiting ==> r.prefix != m.withdraw.value.prefix)
                  && (!c.silent && GoesOn(c, s, m) && taken == [] && m.withdraw.value.asPath == None ==>
                        m.withdraw.value.prefix in s.burst.value.realPrefixes))
  {
    hide GoesOn, NoRepeatedLink, RibAnnounced, TakenPath, EncodedEarly, WaitsFor;
    PathsPlain(c, s, m);
    RepeatsPlain(if m.announce.Some? then PathOf(s.rib, m.announce.value.prefix) else []);
    RepeatsPlain(TakenPath(s.rib, m));
    if m.withdraw.Some? {
      WaitsForPlain(Waiting(c, s, m), m.withdraw.value.prefix);
    }
  }

  lemma WaitsForPlain(pending: seq<Route>, q: Prefix)
    ensures WaitsFor(pending, q) <==> !forall r :: r in pending ==> r.prefix != q
  {
  }

  lemma PathsPlain(c: Settings, s: Snapshot, m: Message)
    ensures TakenPath(s.rib, m) ==
            if m.withdraw.None? then []
            else if m.announce.Some? && m.announce.value.prefix == m.withdraw.value.prefix then
              m.announce.value.asPath
            else if m.withdraw.value.prefix in s.rib then s.rib[m.withdraw.value.prefix] else []
    ensures EncodedEarly(c, s, m) <==>
            || s.encoded
            || (m.announce.Some? && |s.rib.Keys + {m.announce.value.prefix}| > c.encodingThreshold)
  {
    if m.announce.Some? {
      assert RibAnnounced(s.rib, m).Keys == s.rib.Keys + {m.announce.value.prefix};
    }
  }

  lemma RepeatsPlain(p: Path)
    ensures NoRepeatedLink(p) <==>
            forall i, j :: 0 <= i < j < |p| - 1 ==> p[i] != p[j] || p[i + 1] != p[j + 1]
  {
    assert forall i :: 0 <= i < |p| - 1 ==> LinkAt(p, i) == Link(p[i], p[i + 1]);
  }

  // ---- runs ----

  ghost predicate InTimeOrder(ts: int, messages: seq<Message>)
    decreases |messages|
  {
    messages != [] ==> ts <= messages[0].time && InTimeOrder(messages[0].time, messages[1..])
  }

  ghost function NextAll(c: Settings, s: Snapshot, messages: seq<Message>): Snapshot
    decreases |messages|
  {
    if messages == [] then s else NextAll(c, Next(c, s, messages[0]), messages[1..])
  }

  ghost predicate AllSurvive(c: Settings, s: Snapshot, messages: seq<Message>)
    decreases |messages|
  {
    messages != [] ==> Survives(c, s, messages[0]) && AllSurvive(c, Next(c, s, messages[0]), messages[1..])
  }

  ghost predicate CleanRib(rib: map<Prefix, Path>) {
    forall q :: q in rib ==> NoRepeatedLink(rib[q])
  }

  // What is announced is clean, and what is withdrawn carries a path.
  ghost predicate WellBehaved(messages: seq<Message>) {
    forall i {:trigger messages[i]} :: 0 <= i < |messages| ==>
      && (messages[i].announce.Some? ==> Distinct(messages[i].announce.value.asPath))
      && (messages[i].withdraw.Some? ==> messages[i].withdraw.value.asPath.Some?)
  }

  // The message with which the encoder appears, if any, does not withdraw a waiting route.
  ghost predicate ReplayHarmless(c: Settings, s: Snapshot, messages: seq<Message>)
    decreases |messages|
  {
    messages != [] ==>
      if EncodedAfter(c, s, messages[0]) then !ReplayFails(c, s, messages[0])
      else ReplayHarmless(c, Next(c, s, messages[0]), messages[1..])
  }

  // A silent peer, or one that hears only clean paths, survives a run exactly if the one
  // message with which its encoder appears does not withdraw a route that waits for it.
  lemma {:induction false} RunSurvivesIff(c: Settings, s: Snapshot, messages: seq<Message>)
    requires s.encoded ==> s.pending == []
    requires c.silent || (CleanRib(s.rib) && WellBehaved(messages))
    ensures AllSurvive(c, s, messages) <==> s.encoded || ReplayHarmless(c, s, messages)
    decreases |messages|
  {
    if messages != [] {
      hide NoRepeatedLink, Distinct, GoesOn, BurstAfter, HistoryAfter;
      var m := messages[0];
      if !c.silent {
        NothingRepeats(s.rib, m, messages);
      }
      RunSurvivesIff(c, Next(c, s, m), messages[1..]);
    }
  }

  lemma NothingRepeats(rib: map<Prefix, Path>, m: Message, messages: seq<Message>)
    requires CleanRib(rib) && WellBehaved(messages) && messages != [] && m == messages[0]
    ensures CleanRib(RibAfter(rib, m)) && WellBehaved(messages[1..])
    ensures m.announce.Some? ==> NoRepeatedLink(PathOf(rib, m.announce.value.prefix))
    ensures NoRepeatedLink(TakenPath(rib, m))
    ensures m.withdraw.Some? ==> m.withdraw.value.asPath.Some?
  {
    hide NoRepeatedLink;
    CleanPathHasNoRepeatedLink([]);
    if m.announce.Some? {
      CleanPathHasNoRepeatedLink(m.announce.value.asPath);
    }
    assert forall i :: 0 <= i < |messages[1..]| ==> messages[1..][i] == messages[i + 1];
  }

  // With an encoder, such a peer survives everything.
  lemma EncodedPeerSurvives(c: Settings, s: Snapshot, messages: seq<Message>)
    requires s.encoded && s.pending == []
    requires c.silent || (CleanRib(s.rib) && WellBehaved(messages))
    ensures AllSurvive(c, s, messages)
  {
    RunSurvivesIff(c, s, messages);
  }

  // Announcing a prefix below the threshold and withdrawing it ends the process, silent or not.
  lemma AnnounceThenWithdrawFails(c: Settings, q: Prefix, path: Path)
    requires c.encodingThreshold >= 1
    ensures var m1 := Message(0, Some(Route(q, path)), None);
            var m2 := Message(1, None, Some(WithdrawnRoute(q, None)));
            AllSurvive(c, START, [m1]) && !AllSurvive(c, START, [m1, m2])
  {
    var m1 := Message(0, Some(Route(q, path)), None);
    var m2 := Message(1, None, Some(WithdrawnRoute(q, None)));
    var s := Next(c, START, m1);
    assert [m1, m2][1..] == [m2] && [m1][1..] == [];
    CleanPathHasNoRepeatedLink([]);
    assert RibAnnounced(map[], m1).Keys == {q};
    assert s.pending == [Route(q, path)];
    assert s.pending[0].prefix == q;
    assert ReplayFails(c, s, m2);
  }

  // A path with an AS prepended twice is accepted and ends the process when the prefix is
  // withdrawn, unless the peer is silent.
  lemma PrependedPathFails(c: Settings, q: Prefix, a: Asn)
    requires c.encodingThreshold == 0
    ensures var m1 := Message(0, Some(Route(q, [a, a, a])), None);
            var m2 := Message(1, None, Some(WithdrawnRoute(q, None)));
            AllSurvive(c, START, [m1]) && (AllSurvive(c, START, [m1, m2]) <==> c.silent)
  {
    var m1 := Message(0, Some(Route(q, [a, a, a])), None);
    var m2 := Message(1, None, Some(WithdrawnRoute(q, None)));
    var s := Next(c, START, m1);
    assert [m1, m2][1..] == [m2] && [m1][1..] == [] && [m2][1..] == [];
    CleanPathHasNoRepeatedLink([]);
    assert RibAnnounced(map[], m1).Keys == {q};
    assert s.encoded && s.pending == [];
    assert s.rib == map[q := [a, a, a]];
    assert LinkAt([a, a, a], 0) == LinkAt([a, a, a], 1);
    assert !NoRepeatedLink(TakenPath(s.rib, m2));
    LastMessage(c, s, m2);
    TwoMessages(c, START, m1, m2);
  }

  lemma LastMessage(c: Settings, s: Snapshot, m: Message)
    ensures AllSurvive(c, s, [m]) <==> Survives(c, s, m)
  {
    assert [m][1..] == [];
  }

  lemma TwoMessages(c: Settings, s: Snapshot, m1: Message, m2: Message)
    ensures AllSurvive(c, s, [m1, m2]) <==> Survives(c, s, m1) && Survives(c, Next(c, s, m1), m2)
  {
    assert [m1, m2][1..] == [m2];
    LastMessage(c, Next(c, s, m1), m2);
  }

  // During a burst, the withdrawal of an unknown prefix ends the process, unless it is
  // silent, has seen the prefix withdrawn in this burst, or the message carries a path.
  lemma UnknownWithdrawalFails(c: Settings, q: Prefix, r: Prefix)
    requires !c.silent && c.encodingThreshold == 0 && c.burstStart == 1 && c.winSize >= 0
    ensures var m1 := Message(0, Some(Route(q, [1, 2])), None);
            var m2 := Message(0, None, Some(WithdrawnRoute(q, None)));
            var m3 := Message(0, None, Some(WithdrawnRoute(r, None)));
            AllSurvive(c, START, [m1, m2]) && !AllSurvive(c, START, [m1, m2, m3])
  {
    var m1 := Message(0, Some(Route(q, [1, 2])), None);
    var m2 := Message(0, None, Some(WithdrawnRoute(q, None)));
    var m3 := Message(0, None, Some(WithdrawnRoute(r, None)));
    var s1 := Next(c, START, m1);
    var s2 := Next(c, s1, m2);
    hide Survives, NoRepeatedLink, Recent, Ends;
    FirstOfBurst(c, q);
    TwoMessages(c, START, m1, m2);
    assert [m1, m2, m3][1..] == [m2, m3];
    TwoMessages(c, s1, m2, m3);
    NotEnded(c, s2, m3);
  }

  lemma FirstOfBurst(c: Settings, q: Prefix)
    requires !c.silent && c.encodingThreshold == 0 && c.burstStart == 1 && c.winSize >= 0
    ensures var m1 := Message(0, Some(Route(q, [1, 2])), None);
            var m2 := Message(0, None, Some(WithdrawnRoute(q, None)));
            var s1 := Next(c, START, m1);
            && Survives(c, START, m1) && Survives(c, s1, m2)
            && Next(c, s1, m2).rib == map[] && Next(c, s1, m2).burst == Some(Burst([], {}))
            && Next(c, s1, m2).lastTs == 0
  {
    var m1 := Message(0, Some(Route(q, [1, 2])), None);
    var m2 := Message(0, None, Some(WithdrawnRoute(q, None)));
    var s1 := Next(c, START, m1);
    CleanPathHasNoRepeatedLink([]);
    CleanPathHasNoRepeatedLink([1, 2]);
    assert RibAnnounced(map[], m1).Keys == {q};
    assert s1.rib == map[q := [1, 2]] && s1.encoded && s1.pending == [] && s1.burst == None;
    var w := Withdrawal(0, [1, 2]);
    assert HistoryAfter(s1, m2) == [w];
    assert [w][1..] == [];
    assert Recent([w], 0, c.winSize) == [w] + Recent([], 0, c.winSize);
  }

  lemma NotEnded(c: Settings, s: Snapshot, m: Message)
    requires !c.silent && s.burst == Some(Burst([], {})) && s.rib == map[] && s.lastTs == m.time && m.announce.None?
    requires m.withdraw.Some? && m.withdraw.value.asPath == None
    ensures !Survives(c, s, m)
  {
    assert RecordFails(c, s, m);
  }
}
