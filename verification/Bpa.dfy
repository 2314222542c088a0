// The inference of failed links, xrs/bpa.py: from the graph of current paths and the graph
// of withdrawn ones, the links whose failure explains the withdrawals best.
module Bpa {
  import opened AsPaths
  import opened AsTopology

  // The Fowlkes-Mallows score of true positives, false positives and false negatives.
  type Score = (int, int, int) -> real

  ghost predicate PositiveOnHits(score: Score) {
    forall tp, fp, fn :: tp > 0 ==> score(tp, fp, fn) > 0.0
  }

  // A link with the numbers of withdrawn and of current paths across it.
  datatype Candidate = Candidate(link: Link, tp: int, fp: int, fn: int, fm: real)

  datatype Prediction = Prediction(links: set<Link>, fm: real, tp: int, fp: int, fn: int)

  const NOTHING := Prediction({}, 0.0, 0, 0, 0)

  function CandidateOf(g: Edges, gW: Edges, wNb: int, score: Score, l: Link): Candidate {
    var tp, fp := Reading(map[], gW, On(l)), Reading(map[], g, On(l));
    Candidate(l, tp, fp, wNb - tp, score(tp, fp, wNb - tp))
  }

  // A link out of a node that withdrawn paths crossed.
  predicate Blamable(gW: Edges, a: Asn, l: Link) {
    l in gW && l.from == a && gW[l].prefixCounter > 0
  }

  // ---- find_best_fmscore_single ----

  // The best single link: nothing scores higher, and it is named with its numbers.
  ghost predicate BestSingle(g: Edges, gW: Edges, wNb: int, score: Score, forward: set<Asn>, p: Prediction) {
    && (forall a, l :: a in forward && Blamable(gW, a, l) ==> CandidateOf(g, gW, wNb, score, l).fm <= p.fm)
    && (p == NOTHING ||
        exists a, l ::
          a in forward && Blamable(gW, a, l) && p == Alone(CandidateOf(g, gW, wNb, score, l)) && p.fm > 0.0)
  }

  function Alone(c: Candidate): Prediction {
    Prediction({c.link}, c.fm, c.tp, c.fp, c.fn)
  }

  method FindBestFmscoreSingle(g: Edges, gW: Edges, wNb: int, score: Score, nodesForward: set<Asn>)
    returns (best: Prediction)
    requires PositiveOnHits(score)
    ensures BestSingle(g, gW, wNb, score, nodesForward, best)
  {
    best := NOTHING;
    var rest := nodesForward;
    while rest != {}
      invariant rest <= nodesForward && best.fm >= 0.0
      invariant BestSingle(g, gW, wNb, score, nodesForward - rest, best)
      decreases rest
    {
      var fromNode :| fromNode in rest;
      best := BestLinkOf(g, gW, wNb, score, nodesForward - rest, fromNode, best);
      assert nodesForward - (rest - {fromNode}) == nodesForward - rest + {fromNode};
      rest := rest - {fromNode};
    }
    assert nodesForward - rest == nodesForward;
  }

  // The inner loop; the score of the last hit stays around when a link has none.
  method BestLinkOf(g: Edges, gW: Edges, wNb: int, score: Score, ghost before: set<Asn>, fromNode: Asn,
                    best0: Prediction)
      returns (best: Prediction)
    requires PositiveOnHits(score) && best0.fm >= 0.0 && BestSingle(g, gW, wNb, score, before, best0)
    ensures best.fm >= 0.0 && BestSingle(g, gW, wNb, score, before + {fromNode}, best)
  {
    best := best0;
    var currentFmscore := 0.0;
    var links := set l | l in gW && l.from == fromNode;
    var rest := links;
    while rest != {}
      invariant rest <= links && currentFmscore <= best.fm && best.fm >= best0.fm
      invariant forall l :: l in links - rest && Blamable(gW, fromNode, l) ==>
                CandidateOf(g, gW, wNb, score, l).fm <= best.fm
      invariant best == best0 ||
                (exists l ::
                   Blamable(gW, fromNode, l) && best == Alone(CandidateOf(g, gW, wNb, score, l)) && best.fm > 0.0)
      decreases rest
    {
      var l :| l in rest;
      var c := CandidateOf(g, gW, wNb, score, l);
      if c.tp > 0 {
        currentFmscore := c.fm;
      }
      if best.fm < currentFmscore {
        best := Alone(c);
      }
      rest := rest - {l};
    }
  }

  // ---- the candidates of a node, best first ----

  ghost predicate BestFirst(s: seq<Candidate>) {
    forall i, j :: 0 <= i < j < |s| ==> s[i].fm >= s[j].fm
  }

  function InsertCandidate(c: Candidate, s: seq<Candidate>): seq<Candidate> {
    if s == [] || c.fm > s[0].fm then [c] + s else [s[0]] + InsertCandidate(c, s[1..])
  }

  lemma {:induction false} CandidateInOrder(c: Candidate, s: seq<Candidate>)
    requires BestFirst(s)
    ensures BestFirst(InsertCandidate(c, s)) && |InsertCandidate(c, s)| == |s| + 1 &&
            forall x :: x in InsertCandidate(c, s) <==> x == c || x in s
  {
    if s != [] && c.fm <= s[0].fm {
      CandidateInOrder(c, s[1..]);
      var rest := InsertCandidate(c, s[1..]);
      assert forall x :: x in s <==> x == s[0] || x in s[1..];
      forall i | 0 <= i < |rest|
        ensures rest[i].fm <= s[0].fm
      {
        assert rest[i] in rest;
        assert rest[i] == c || rest[i] in s[1..];
      }
    }
  }

  // The candidates of a node that count: exactly its hits, each once.
  ghost predicate CandidatesOf(g: Edges, gW: Edges, wNb: int, score: Score, a: Asn, links: set<Link>,
                               s: seq<Candidate>) {
    && BestFirst(s)
    && (forall c :: c in s <==>
        c.link in links && Blamable(gW, a, c.link) && c == CandidateOf(g, gW, wNb, score, c.link))
    && (forall i, j :: 0 <= i < j < |s| ==> s[i].link != s[j].link)
  }

  // ---- the greedy choice ----

  function TpOf(s: seq<Candidate>, k: nat): int
    requires k <= |s|
  {
    if k == 0 then 0 else TpOf(s, k - 1) + s[k - 1].tp
  }

  function FpOf(s: seq<Candidate>, k: nat): int
    requires k <= |s|
  {
    if k == 0 then 0 else FpOf(s, k - 1) + s[k - 1].fp
  }

  // The score of the first k candidates together.
  function FmOf(s: seq<Candidate>, k: nat, wNb: int, score: Score): real
    requires k <= |s|
  {
    if k == 0 then 0.0 else score(TpOf(s, k), FpOf(s, k), wNb - TpOf(s, k))
  }

  function LinksOf(s: seq<Candidate>, k: nat): set<Link>
    requires k <= |s|
  {
    set i | 0 <= i < k :: s[i].link
  }

  // Every step up to k raised the score, the next one does not.
  ghost predicate GreedyPrefix(s: seq<Candidate>, k: nat, wNb: int, score: Score) {
    && k <= |s|
    && (forall j: nat {:trigger FmOf(s, j, wNb, score)} :: 0 < j <= k ==>
        FmOf(s, j - 1, wNb, score) < FmOf(s, j, wNb, score))
    && (k < |s| ==> FmOf(s, k + 1, wNb, score) <= FmOf(s, k, wNb, score))
  }

  function ChoiceOf(s: seq<Candidate>, k: nat, wNb: int, score: Score): Prediction
    requires k <= |s|
  {
    Prediction(LinksOf(s, k), FmOf(s, k, wNb, score), TpOf(s, k), FpOf(s, k), if k == 0 then 0 else wNb - TpOf(s, k))
  }

  // The choice of one node: a greedy prefix of its candidates.
  ghost predicate GreedyChoice(g: Edges, gW: Edges, wNb: int, score: Score, a: Asn, p: Prediction) {
    exists s, k: nat ::
      && CandidatesOf(g, gW, wNb, score, a, gW.Keys, s) && GreedyPrefix(s, k, wNb, score)
      && k <= |s| && p == ChoiceOf(s, k, wNb, score)
  }

  lemma {:induction false} ScoreRises(s: seq<Candidate>, i: nat, j: nat, wNb: int, score: Score)
    requires j <= |s|
    requires forall m: nat {:trigger FmOf(s, m, wNb, score)} :: 0 < m <= j ==>
               FmOf(s, m - 1, wNb, score) < FmOf(s, m, wNb, score)
    requires i <= j
    ensures FmOf(s, i, wNb, score) <= FmOf(s, j, wNb, score)
    decreases j
  {
    hide FmOf;
    if i < j {
      ScoreRises(s, i, j - 1, wNb, score);
      assert FmOf(s, j - 1, wNb, score) < FmOf(s, j, wNb, score);
    }
  }

  lemma GreedyAtLeastFirst(s: seq<Candidate>, k: nat, wNb: int, score: Score)
    requires GreedyPrefix(s, k, wNb, score) && PositiveOnHits(score)
    requires s != [] ==> s[0].tp > 0 && s[0].fm == score(s[0].tp, s[0].fp, wNb - s[0].tp)
    ensures k == 0 <==> s == []
    ensures s != [] ==> FmOf(s, k, wNb, score) >= s[0].fm > 0.0
  {
    if s != [] {
      assert TpOf(s, 1) == TpOf(s, 0) + s[0].tp && FpOf(s, 1) == FpOf(s, 0) + s[0].fp;
      assert FmOf(s, 1, wNb, score) == s[0].fm;
      if k > 0 {
        ScoreRises(s, 1, k, wNb, score);
      }
    }
  }

  lemma CandidateFacts(g: Edges, gW: Edges, wNb: int, score: Score, a: Asn, s: seq<Candidate>)
    requires CandidatesOf(g, gW, wNb, score, a, gW.Keys, s)
    ensures s != [] ==>
              && Blamable(gW, a, s[0].link)
              && s[0].tp > 0 && s[0].fm == score(s[0].tp, s[0].fp, wNb - s[0].tp)
    ensures forall l :: Blamable(gW, a, l) ==> s != [] && CandidateOf(g, gW, wNb, score, l).fm <= s[0].fm
  {
    if s != [] {
      assert s[0] in s;
    }
    forall l | Blamable(gW, a, l)
      ensures s != [] && CandidateOf(g, gW, wNb, score, l).fm <= s[0].fm
    {
      var c := CandidateOf(g, gW, wNb, score, l);
      assert c.link in gW.Keys && Blamable(gW, a, c.link);
      assert c in s;
      var i :| 0 <= i < |s| && s[i] == c;
    }
  }

  // A node's greedy choice scores at least as high as each of its links alone, and its
  // numbers add up.
  lemma GreedyBeatsSingles(g: Edges, gW: Edges, wNb: int, score: Score, a: Asn, p: Prediction)
    requires PositiveOnHits(score) && GreedyChoice(g, gW, wNb, score, a, p)
    ensures p.fm >= 0.0 && forall l :: Blamable(gW, a, l) ==> CandidateOf(g, gW, wNb, score, l).fm <= p.fm
    ensures p == NOTHING || (p.fm > 0.0 && p.links != {} && p.tp + p.fn == wNb)
    ensures p == NOTHING <==> forall l :: !Blamable(gW, a, l)
  {
    hide CandidatesOf, GreedyPrefix, PositiveOnHits, Blamable, CandidateOf;
    var s: seq<Candidate>, k: nat :| && CandidatesOf(g, gW, wNb, score, a, gW.Keys, s) && GreedyPrefix(s, k, wNb, score)
                                     && k <= |s| && p == ChoiceOf(s, k, wNb, score);
    CandidateFacts(g, gW, wNb, score, a, s);
    GreedyAtLeastFirst(s, k, wNb, score);
    assert LinksOf(s, 0) == {};
    assert k > 0 ==> s[0].link in LinksOf(s, k);
  }

  // ---- find_best_fmscore_forward ----

  ghost predicate Wins(choices: map<Asn, Prediction>, a: Asn, fm: real) {
    a in choices && choices[a].fm == fm
  }

  // The links of all nodes whose choices reach the score.
  ghost function WinningLinks(choices: map<Asn, Prediction>, fm: real): set<Link> {
    set a, l | a in choices && choices[a].fm == fm && l in choices[a].links :: l
  }

  // The outcome over the choices of the nodes: the best score and the links of all that
  // reach it; the numbers are those of the only winner, -1 on a tie.
  ghost predicate BestOf(choices: map<Asn, Prediction>, p: Prediction) {
    && (forall a :: a in choices ==> 0.0 <= choices[a].fm <= p.fm)
    && p.links == WinningLinks(choices, p.fm)
    && (choices == map[] ==> p == NOTHING)
    && (choices != map[] ==> exists a :: Wins(choices, a, p.fm))
    && (forall a :: Wins(choices, a, p.fm) && p.fm > 0.0 && (forall b :: Wins(choices, b, p.fm) ==> a == b) ==>
          p == choices[a])
    && (forall a :: Wins(choices, a, p.fm) && (p.fm == 0.0 || exists b :: Wins(choices, b, p.fm) && a != b) ==>
          p.tp == -1 && p.fp == -1 && p.fn == -1)
  }

  method FindBestFmscoreForward(g: Edges, gW: Edges, wNb: int, score: Score, nodesForward: set<Asn>)
      returns (best: Prediction, ghost choices: map<Asn, Prediction>)
    requires PositiveOnHits(score)
    ensures choices.Keys == nodesForward
    ensures forall a :: a in choices ==> GreedyChoice(g, gW, wNb, score, a, choices[a])
    ensures BestOf(choices, best)
    ensures forall a, l :: a in nodesForward && Blamable(gW, a, l) ==> CandidateOf(g, gW, wNb, score, l).fm <= best.fm
    ensures best == NOTHING || (best.tp == -1 && best.fp == -1 && best.fn == -1) || best.tp + best.fn == wNb
  {
    hide GreedyChoice, BestOf, PositiveOnHits, Blamable, CandidateOf;
    best, choices := NOTHING, map[];
    NoChoices();
    var rest := nodesForward;
    while rest != {}
      invariant rest <= nodesForward && choices.Keys == nodesForward - rest
      invariant forall a :: a in choices ==> GreedyChoice(g, gW, wNb, score, a, choices[a])
      invariant BestOf(choices, best)
      decreases rest
    {
      var fromNode :| fromNode in rest;
      var current := GreedyNode(g, gW, wNb, score, fromNode);
      GreedyBeatsSingles(g, gW, wNb, score, fromNode, current);
      OneMoreChoice(choices, best, fromNode, current);
      if best.fm < current.fm {
        best := current;
      } else if best.fm == current.fm {
        best := Prediction(best.links + current.links, best.fm, -1, -1, -1);
      }
      choices := choices[fromNode := current];
      rest := rest - {fromNode};
    }
    NumbersAddUp(g, gW, wNb, score, best, choices);
    AtLeastEveryLink(g, gW, wNb, score, best, choices);
  }

  lemma AtLeastEveryLink(g: Edges, gW: Edges, wNb: int, score: Score, best: Prediction, choices: map<Asn, Prediction>)
    requires PositiveOnHits(score) && BestOf(choices, best)
    requires forall a :: a in choices ==> GreedyChoice(g, gW, wNb, score, a, choices[a])
    ensures forall a, l :: a in choices && Blamable(gW, a, l) ==> CandidateOf(g, gW, wNb, score, l).fm <= best.fm
  {
    hide GreedyChoice, PositiveOnHits, Blamable, CandidateOf;
    forall a, l | a in choices && Blamable(gW, a, l)
      ensures CandidateOf(g, gW, wNb, score, l).fm <= best.fm
    {
      GreedyBeatsSingles(g, gW, wNb, score, a, choices[a]);
    }
  }

  lemma NoChoices()
    ensures BestOf(map[], NOTHING)
  {
  }

  lemma OneMoreChoice(choices: map<Asn, Prediction>, best: Prediction, a: Asn, current: Prediction)
    requires BestOf(choices, best) && a !in choices && current.fm >= 0.0
    ensures BestOf(choices[a := current],
                   if best.fm < current.fm then current
                   else if best.fm == current.fm then Prediction(best.links + current.links, best.fm, -1, -1, -1)
                   else best)
  {
    hide WinningLinks;
    var choices' := choices[a := current];
    assert Wins(choices', a, current.fm);
    forall b, fm
      ensures Wins(choices', b, fm) <==> if b == a then current.fm == fm else Wins(choices, b, fm)
    {
    }
    LinksOfOneMore(choices, a, current, best.fm);
    LinksOfOneMore(choices, a, current, current.fm);
    if best.fm < current.fm {
      NobodyWins(choices, current.fm);
    }
  }

  lemma LinksOfOneMore(choices: map<Asn, Prediction>, a: Asn, current: Prediction, fm: real)
    requires a !in choices
    ensures WinningLinks(choices[a := current], fm) ==
            WinningLinks(choices, fm) + if current.fm == fm then current.links else {}
  {
    var choices' := choices[a := current];
    forall l
      ensures l in WinningLinks(choices', fm) <==>
              l in WinningLinks(choices, fm) || (current.fm == fm && l in current.links)
    {
      if l in WinningLinks(choices, fm) {
        var b :| b in choices && choices[b].fm == fm && l in choices[b].links;
        assert choices'[b] == choices[b];
      }
      if current.fm == fm && l in current.links {
        assert choices'[a] == current;
      }
    }
  }

  lemma NobodyWins(choices: map<Asn, Prediction>, fm: real)
    requires forall a :: a in choices ==> choices[a].fm < fm
    ensures WinningLinks(choices, fm) == {}
  {
  }

  // One node: its candidates, best first, as long as the score rises.
  method GreedyNode(g: Edges, gW: Edges, wNb: int, score: Score, fromNode: Asn) returns (current: Prediction)
    ensures GreedyChoice(g, gW, wNb, score, fromNode, current)
  {
    hide CandidatesOf, FmOf, TpOf, FpOf, LinksOf;
    var sorted := SortedCandidates(g, gW, wNb, score, fromNode);
    current := NOTHING;
    ghost var k := 0;
    var rest := sorted;
    EmptyChoice(sorted, wNb, score);
    while |rest| > 0
      invariant k <= |sorted| && rest == sorted[k..] && current == ChoiceOf(sorted, k, wNb, score)
      invariant forall j: nat {:trigger FmOf(sorted, j, wNb, score)} :: 0 < j <= k ==>
                  FmOf(sorted, j - 1, wNb, score) < FmOf(sorted, j, wNb, score)
      decreases |rest|
    {
      var c := rest[0];
      rest := rest[1..];
      var newTp, newFp := current.tp + c.tp, current.fp + c.fp;
      var newFn := wNb - newTp;
      NextChoice(sorted, k, wNb, score);
      if score(newTp, newFp, newFn) > current.fm {
        current := Prediction(current.links + {c.link}, score(newTp, newFp, newFn), newTp, newFp, newFn);
        k := k + 1;
      } else {
        break;
      }
    }
    assert GreedyPrefix(sorted, k, wNb, score);
  }

  lemma EmptyChoice(s: seq<Candidate>, wNb: int, score: Score)
    ensures ChoiceOf(s, 0, wNb, score) == NOTHING
  {
  }

  lemma NextChoice(s: seq<Candidate>, k: nat, wNb: int, score: Score)
    requires k < |s|
    ensures var now, c := ChoiceOf(s, k, wNb, score), s[k];
            var tp, fp := now.tp + c.tp, now.fp + c.fp;
            && FmOf(s, k + 1, wNb, score) == score(tp, fp, wNb - tp)
            && ChoiceOf(s, k + 1, wNb, score) ==
               Prediction(now.links + {c.link}, score(tp, fp, wNb - tp), tp, fp, wNb - tp)
  {
  }

  method SortedCandidates(g: Edges, gW: Edges, wNb: int, score: Score, fromNode: Asn) returns (s: seq<Candidate>)
    ensures CandidatesOf(g, gW, wNb, score, fromNode, gW.Keys, s)
  {
    s := [];
    var rest := gW.Keys;
    while rest != {}
      invariant rest <= gW.Keys && CandidatesOf(g, gW, wNb, score, fromNode, gW.Keys - rest, s)
      decreases rest
    {
      var l :| l in rest;
      var c := CandidateOf(g, gW, wNb, score, l);
      assert gW.Keys - (rest - {l}) == gW.Keys - rest + {l};
      if l.from == fromNode && c.tp > 0 {
        OneMoreCandidate(g, gW, wNb, score, fromNode, gW.Keys - rest, s, l);
        s := InsertCandidate(c, s);
      }
      rest := rest - {l};
    }
    assert gW.Keys - rest == gW.Keys;
  }

  lemma OneMoreCandidate(g: Edges, gW: Edges, wNb: int, score: Score, a: Asn, links: set<Link>, s: seq<Candidate>,
                         l: Link)
    requires CandidatesOf(g, gW, wNb, score, a, links, s) && l !in links && Blamable(gW, a, l)
    ensures CandidatesOf(g, gW, wNb, score, a, links + {l}, InsertCandidate(CandidateOf(g, gW, wNb, score, l), s))
  {
    var c := CandidateOf(g, gW, wNb, score, l);
    CandidateInOrder(c, s);
    forall x | x in s
      ensures x.link != l
    {
    }
    InsertKeepsDistinct(c, s);
  }

  lemma {:induction false} InsertKeepsDistinct(c: Candidate, s: seq<Candidate>)
    requires (forall i, j :: 0 <= i < j < |s| ==> s[i].link != s[j].link) && forall x :: x in s ==> x.link != c.link
    requires BestFirst(s)
    ensures var r := InsertCandidate(c, s); forall i, j :: 0 <= i < j < |r| ==> r[i].link != r[j].link
  {
    if s != [] && c.fm <= s[0].fm {
      InsertKeepsDistinct(c, s[1..]);
      CandidateInOrder(c, s[1..]);
      var rest := InsertCandidate(c, s[1..]);
      forall i | 0 <= i < |rest|
        ensures rest[i].link != s[0].link
      {
        assert rest[i] in rest;
        assert rest[i] == c || rest[i] in s[1..];
      }
    }
  }

  // ---- comparing the two inferences ----

  // Inferring several links at once never scores lower than the best single link.
  lemma ForwardDominatesSingle(g: Edges, gW: Edges, wNb: int, score: Score, forward: set<Asn>, single: Prediction,
                               best: Prediction, choices: map<Asn, Prediction>)
    requires PositiveOnHits(score) && BestSingle(g, gW, wNb, score, forward, single)
    requires choices.Keys == forward && forall a :: a in choices ==> GreedyChoice(g, gW, wNb, score, a, choices[a])
    requires BestOf(choices, best)
    ensures best.fm >= single.fm
  {
    hide GreedyChoice, PositiveOnHits;
    if single != NOTHING {
      var a, l :| && a in forward && Blamable(gW, a, l)
                  && single == Alone(CandidateOf(g, gW, wNb, score, l)) && single.fm > 0.0;
      GreedyBeatsSingles(g, gW, wNb, score, a, choices[a]);
    } else {
      NothingIsLeast(choices, best);
    }
  }

  lemma NothingIsLeast(choices: map<Asn, Prediction>, best: Prediction)
    requires BestOf(choices, best)
    ensures best.fm >= 0.0
  {
  }

  // The numbers returned are -1 on a tie, all zero without a node, and otherwise add up to
  // the number of withdrawals.
  lemma NumbersAddUp(g: Edges, gW: Edges, wNb: int, score: Score, best: Prediction, choices: map<Asn, Prediction>)
    requires PositiveOnHits(score) && BestOf(choices, best)
    requires forall a :: a in choices ==> GreedyChoice(g, gW, wNb, score, a, choices[a])
    ensures || (best.tp == -1 && best.fp == -1 && best.fn == -1)
            || (best == NOTHING && choices == map[])
            || best.tp + best.fn == wNb
  {
  }

  // In a graph of withdrawals, every node at the threshold has a link to blame.
  lemma ForwardNodesHaveHits(t: ASTopology, a: Asn) returns (l: Link)
    requires t.Valid() && a in t.nodesForward
    ensures Blamable(t.edge, a, l)
  {
    hide Total;
    assert Reading(t.node, t.edge, OutOf(a)) == Total(t.bag, OutOf(a)) > 0;
    var p := PositiveTotal(t.bag, OutOf(a));
    var i := HitAt(OutOf(a), p, LinkCount(p));
    l := LinkAt(p, i);
    ContributionBounds(t.bag, p, On(l));
    HitCounts(On(l), p, i, LinkCount(p));
    assert Reading(t.node, t.edge, On(l)) == Total(t.bag, On(l)) > 0;
  }

  // So links are inferred exactly if some node has reached the threshold.
  lemma SomeLinkIsInferred(t: ASTopology, g: Edges, wNb: int, score: Score, best: Prediction,
                           choices: map<Asn, Prediction>)
    requires t.Valid() && PositiveOnHits(score) && BestOf(choices, best) && choices.Keys == t.nodesForward
    requires forall a :: a in choices ==> GreedyChoice(g, t.edge, wNb, score, a, choices[a])
    ensures best.fm > 0.0 && best.links != {} <==> t.nodesForward != {}
  {
    hide GreedyChoice, PositiveOnHits, Blamable;
    if choices != map[] {
      var a :| Wins(choices, a, best.fm);
      var l := ForwardNodesHaveHits(t, a);
      GreedyBeatsSingles(g, t.edge, wNb, score, a, choices[a]);
      assert choices[a].links <= best.links;
    } else {
      assert choices.Keys == {};
    }
  }

  lemma {:induction false} HitAt(c: Counter, p: Path, n: nat) returns (i: nat)
    requires n <= LinkCount(p) && Hits(c, p, n) > 0
    ensures i < n && AsPaths.Hit(c, LinkAt(p, i), i + 1) > 0
  {
    i := n - 1;
    if AsPaths.Hit(c, LinkAt(p, n - 1), n) == 0 {
      i := HitAt(c, p, n - 1);
    }
  }

  lemma {:induction false} HitCounts(c: Counter, p: Path, i: nat, n: nat)
    requires i < n <= LinkCount(p) && AsPaths.Hit(c, LinkAt(p, i), i + 1) > 0
    ensures Hits(c, p, n) > 0
    decreases n
  {
    if i < n - 1 {
      HitCounts(c, p, i, n - 1);
    }
  }

  lemma ContributionBounds(bag: multiset<Path>, p: Path, c: Counter)
    requires p in bag
    ensures Total(bag, c) >= Contribution(c, p)
  {
  }

  // ---- the inferences in plain terms ----

  // The paths that cross a link, according to a graph.
  function CrossedBy(edges: Edges, l: Link): int {
    if l in edges then edges[l].prefixCounter else 0
  }

  function CrossedByFirst(edges: Edges, order: seq<Link>, k: nat): int
    requires k <= |order|
  {
    if k == 0 then 0 else CrossedByFirst(edges, order, k - 1) + CrossedBy(edges, order[k - 1])
  }

  // The score of a link alone, and of the first k links of a list together: withdrawn paths
  // that cross them, current paths that do, and the withdrawals that are left.
  function ScoreAlone(g: Edges, gW: Edges, wNb: int, score: Score, l: Link): real {
    score(CrossedBy(gW, l), CrossedBy(g, l), wNb - CrossedBy(gW, l))
  }

  function ScoreOfFirst(g: Edges, gW: Edges, wNb: int, score: Score, order: seq<Link>, k: nat): real
    requires k <= |order|
  {
    if k == 0 then 0.0
    else score(CrossedByFirst(gW, order, k), CrossedByFirst(g, order, k), wNb - CrossedByFirst(gW, order, k))
  }

  // The single inference names a link out of a node at the threshold that withdrawn paths
  // cross, with its numbers, and no such link scores higher; or there is none.
  lemma BestSinglePlain(g: Edges, gW: Edges, wNb: int, score: Score, forward: set<Asn>, p: Prediction)
    requires PositiveOnHits(score) && BestSingle(g, gW, wNb, score, forward, p)
    ensures forall l :: l in gW && l.from in forward && gW[l].prefixCounter > 0 ==>
              ScoreAlone(g, gW, wNb, score, l) <= p.fm
    ensures if p.fm > 0.0 then
              exists l :: && l in gW && l.from in forward && gW[l].prefixCounter > 0
                          && p == Prediction({l}, ScoreAlone(g, gW, wNb, score, l), CrossedBy(gW, l), CrossedBy(g, l),
                                             wNb - CrossedBy(gW, l))
            else
              && p == Prediction({}, 0.0, 0, 0, 0)
              && forall l :: l in gW && l.from in forward ==> gW[l].prefixCounter <= 0
  {
    forall l | l in gW && l.from in forward && gW[l].prefixCounter > 0
      ensures ScoreAlone(g, gW, wNb, score, l) <= p.fm && p.fm > 0.0
    {
      assert Blamable(gW, l.from, l);
      assert CandidateOf(g, gW, wNb, score, l).fm == ScoreAlone(g, gW, wNb, score, l);
    }
  }

  // A node takes the links out of it that withdrawn paths cross in the order of their scores,
  // as long as each makes the score of all taken so far rise, and adds up their numbers.
  lemma GreedyPlain(g: Edges, gW: Edges, wNb: int, score: Score, a: Asn, p: Prediction)
    returns (order: seq<Link>, k: nat)
    requires GreedyChoice(g, gW, wNb, score, a, p)
    ensures forall l :: l in order <==> l in gW && l.from == a && gW[l].prefixCounter > 0
    ensures forall i, j :: 0 <= i < j < |order| ==> order[i] != order[j]
    ensures forall i, j :: 0 <= i < j < |order| ==>
              ScoreAlone(g, gW, wNb, score, order[i]) >= ScoreAlone(g, gW, wNb, score, order[j])
    ensures k <= |order| && p.links == (set i | 0 <= i < k :: order[i])
    ensures p.tp == CrossedByFirst(gW, order, k) && p.fp == CrossedByFirst(g, order, k)
    ensures p.fm == ScoreOfFirst(g, gW, wNb, score, order, k) && p.fn == if k == 0 then 0 else wNb - p.tp
    ensures forall j :: 0 <= j < k ==>
              ScoreOfFirst(g, gW, wNb, score, order, j) < ScoreOfFirst(g, gW, wNb, score, order, j + 1)
    ensures k < |order| ==>
              ScoreOfFirst(g, gW, wNb, score, order, k + 1) <= ScoreOfFirst(g, gW, wNb, score, order, k)
  {
    hide CandidatesOf, GreedyPrefix, CandidateOf, LinksOf;
    var s: seq<Candidate>, n: nat :| && CandidatesOf(g, gW, wNb, score, a, gW.Keys, s) && GreedyPrefix(s, n, wNb, score)
                                     && n <= |s| && p == ChoiceOf(s, n, wNb, score);
    order, k := LinksIn(s), n;
    LinksInOrder(g, gW, wNb, score, a, s);
    forall j | 0 <= j <= |s|
      ensures FmOf(s, j, wNb, score) == ScoreOfFirst(g, gW, wNb, score, order, j)
      ensures TpOf(s, j) == CrossedByFirst(gW, order, j) && FpOf(s, j) == CrossedByFirst(g, order, j)
    {
      SumsOf(g, gW, wNb, score, a, s, j);
    }
    GreedyRises(s, k, wNb, score);
    LinksOfFirst(s, k);
  }

  function LinksIn(s: seq<Candidate>): (r: seq<Link>)
    ensures |r| == |s| && forall i :: 0 <= i < |s| ==> r[i] == s[i].link
  {
    seq(|s|, i requires 0 <= i < |s| => s[i].link)
  }

  lemma LinksOfFirst(s: seq<Candidate>, k: nat)
    requires k <= |s|
    ensures LinksOf(s, k) == set i | 0 <= i < k :: LinksIn(s)[i]
  {
    var order := LinksIn(s);
    assert forall i :: 0 <= i < k ==> order[i] == s[i].link;
    assert forall l :: l in LinksOf(s, k) ==> l in (set i | 0 <= i < k :: order[i]);
  }

  lemma GreedyRises(s: seq<Candidate>, k: nat, wNb: int, score: Score)
    requires GreedyPrefix(s, k, wNb, score)
    ensures forall j :: 0 <= j < k ==> FmOf(s, j, wNb, score) < FmOf(s, j + 1, wNb, score)
    ensures k < |s| ==> FmOf(s, k + 1, wNb, score) <= FmOf(s, k, wNb, score)
  {
    hide FmOf;
    forall j | 0 <= j < k
      ensures FmOf(s, j, wNb, score) < FmOf(s, j + 1, wNb, score)
    {
      assert FmOf(s, j + 1 - 1, wNb, score) < FmOf(s, j + 1, wNb, score);
    }
  }

  lemma CandidatePlain(g: Edges, gW: Edges, wNb: int, score: Score, l: Link)
    ensures CandidateOf(g, gW, wNb, score, l) ==
            Candidate(l, CrossedBy(gW, l), CrossedBy(g, l), wNb - CrossedBy(gW, l), ScoreAlone(g, gW, wNb, score, l))
  {
  }

  lemma CandidateAt(g: Edges, gW: Edges, wNb: int, score: Score, a: Asn, s: seq<Candidate>, i: nat)
    requires CandidatesOf(g, gW, wNb, score, a, gW.Keys, s) && i < |s|
    ensures var l := s[i].link;
            && l in gW && l.from == a && gW[l].prefixCounter > 0 && s[i] == CandidateOf(g, gW, wNb, score, l)
  {
    hide CandidateOf;
    assert s[i] in s;
  }

  lemma LinksInOrder(g: Edges, gW: Edges, wNb: int, score: Score, a: Asn, s: seq<Candidate>)
    requires CandidatesOf(g, gW, wNb, score, a, gW.Keys, s)
    ensures var order := LinksIn(s);
            && (forall l :: l in order <==> l in gW && l.from == a && gW[l].prefixCounter > 0)
            && (forall i, j :: 0 <= i < j < |order| ==> order[i] != order[j])
            && (forall i, j :: 0 <= i < j < |order| ==>
                  ScoreAlone(g, gW, wNb, score, order[i]) >= ScoreAlone(g, gW, wNb, score, order[j]))
  {
    hide CandidateOf, ScoreAlone;
    var order := LinksIn(s);
    forall i | 0 <= i < |s|
      ensures order[i] in gW && order[i].from == a && gW[order[i]].prefixCounter > 0
      ensures s[i].fm == ScoreAlone(g, gW, wNb, score, order[i])
    {
      CandidateAt(g, gW, wNb, score, a, s, i);
      CandidatePlain(g, gW, wNb, score, order[i]);
    }
    forall l | l in gW && l.from == a && gW[l].prefixCounter > 0
      ensures l in order
    {
      CandidatePlain(g, gW, wNb, score, l);
      var c := CandidateOf(g, gW, wNb, score, l);
      assert Blamable(gW, a, c.link) && c in s;
      var i :| 0 <= i < |s| && s[i] == c;
      assert order[i] == l;
    }
  }

  lemma {:induction false} SumsOf(g: Edges, gW: Edges, wNb: int, score: Score, a: Asn, s: seq<Candidate>, j: nat)
    requires CandidatesOf(g, gW, wNb, score, a, gW.Keys, s) && j <= |s|
    ensures TpOf(s, j) == CrossedByFirst(gW, LinksIn(s), j) && FpOf(s, j) == CrossedByFirst(g, LinksIn(s), j)
    ensures FmOf(s, j, wNb, score) == ScoreOfFirst(g, gW, wNb, score, LinksIn(s), j)
  {
    hide CandidatesOf, CandidateOf, CrossedBy;
    if j > 0 {
      SumsOf(g, gW, wNb, score, a, s, j - 1);
      CandidateAt(g, gW, wNb, score, a, s, j - 1);
      CandidatePlain(g, gW, wNb, score, s[j - 1].link);
    }
  }

  // The forward inference is the choice of the node that scores highest, or, if several do or
  // none scores at all, the links of all of them, marked by -1; without a node it is nothing.
  lemma BestOfPlain(choices: map<Asn, Prediction>, p: Prediction)
    requires BestOf(choices, p)
    ensures forall a :: a in choices ==> choices[a].fm <= p.fm
    ensures forall l :: l in p.links <==> exists a :: a in choices && choices[a].fm == p.fm && l in choices[a].links
    ensures choices == map[] ==> p == Prediction({}, 0.0, 0, 0, 0)
    ensures choices != map[] ==> exists a :: a in choices && choices[a].fm == p.fm
    ensures forall a, b :: a in choices && b in choices && a != b && choices[a].fm == choices[b].fm == p.fm ==>
              p.tp == p.fp == p.fn == -1
    ensures forall a :: a in choices && choices[a].fm == p.fm == 0.0 ==> p.tp == p.fp == p.fn == -1
    ensures forall a :: a in choices && choices[a].fm == p.fm > 0.0 ==>
              (forall b :: b in choices && b != a ==> choices[b].fm != p.fm) ==> p == choices[a]
  {
    assert forall a :: a in choices && choices[a].fm == p.fm <==> Wins(choices, a, p.fm);
  }
}
