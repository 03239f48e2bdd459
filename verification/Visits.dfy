/** What the visiting queries of a sorted set yield, as functions of its listing. */
module Visits {
  import opened Order
  import opened Borders
  import opened Ranges

  /** The state of a consumer after it was fed `s`; it may stop early.  What a
      closure of the source captures and changes is passed on explicitly. */
  function Feed<S>(consumer: (S, Element) -> (S, bool), state: S, s: seq<Element>): S {
    if s == [] then state else
      var (next, go) := consumer(state, s[0]);
      if go then Feed(consumer, next, s[1..]) else next
  }

  function Collect(): (seq<Element>, Element) -> (seq<Element>, bool) {
    (acc: seq<Element>, e: Element) => (acc + [e], true)
  }

  function CountIn(min: ScoreBorder, max: ScoreBorder): (int, Element) -> (int, bool) {
    (i: int, e: Element) =>
      if !min.Less(e.score) then (i, true)
      else if !max.Greater(e.score) then (i, false)
      else (i + 1, true)
  }

  function CollectUntil(stop: Element -> bool): (seq<Element>, Element) -> (seq<Element>, bool) {
    (acc: seq<Element>, e: Element) => (acc + [e], !stop(e))
  }

  /** One step of a visit of the elements from `i` to `stop`. */
  lemma FeedOne<S>(consumer: (S, Element) -> (S, bool), state: S, s: seq<Element>, i: nat, stop: nat)
    requires i < stop <= |s|
    ensures var (next, go) := consumer(state, s[i]);
            Feed(consumer, state, s[i..stop]) == if go then Feed(consumer, next, s[i+1..stop]) else next
  {
    assert s[i..stop][1..] == s[i+1..stop];
  }

  lemma {:induction false} FeedCollect(acc: seq<Element>, s: seq<Element>)
    ensures Feed(Collect(), acc, s) == acc + s
    decreases s
  {
    if s != [] {
      FeedCollect(acc + [s[0]], s[1..]);
      assert acc + [s[0]] + s[1..] == acc + s;
    }
  }

  /** A consumer that stops is fed nothing more. */
  lemma {:induction false} FeedStops(acc: seq<Element>, s: seq<Element>, stop: Element -> bool, n: nat)
    requires n < |s| && stop(s[n]) && forall i :: 0 <= i < n ==> !stop(s[i])
    ensures Feed(CollectUntil(stop), acc, s) == acc + s[..n+1]
    decreases n
  {
    if n == 0 {
      assert s[..1] == [s[0]];
    } else {
      FeedStops(acc + [s[0]], s[1..], stop, n - 1);
      assert acc + [s[0]] + s[1..][..n] == acc + s[..n+1];
    }
  }

  lemma AscendingTail(s: seq<Element>)
    requires Ascending(s) && s != []
    ensures Ascending(s[1..])
  {
    forall i, j | 0 <= i < j < |s[1..]| ensures Before(s[1..][i], s[1..][j]) {
      assert Before(s[i+1], s[j+1]);
    }
  }

  lemma {:induction false} FeedCountIn(min: ScoreBorder, max: ScoreBorder, i: int, s: seq<Element>)
    requires Ascending(s)
    ensures Feed(CountIn(min, max), i, s) == i + |Matching(s, min, max)|
    decreases s
  {
    if s != [] {
      AscendingTail(s);
      if min.Less(s[0].score) && !max.Greater(s[0].score) {
        RangeSplits(s, min, max);
        MatchingMiddle(s, min, max, 0, 0);
      } else {
        FeedCountIn(min, max, if min.Less(s[0].score) then i + 1 else i, s[1..]);
      }
    }
  }

  function Reversed(s: seq<Element>): (r: seq<Element>)
    ensures |r| == |s|
    ensures forall i {:trigger r[i]} :: 0 <= i < |s| ==> r[i] == s[|s| - 1 - i]
  {
    seq(|s|, i requires 0 <= i < |s| => s[|s| - 1 - i])
  }

  /** The listing in the direction of a query. */
  function Directed(s: seq<Element>, desc: bool): (r: seq<Element>)
    ensures |r| == |s|
  {
    if desc then Reversed(s) else s
  }

  lemma DirectedExact(s: seq<Element>, i: nat)
    requires i < |s|
    ensures Directed(s, false)[i] == s[i] && Directed(s, true)[i] == s[|s| - 1 - i]
  {
  }

  /** The first `limit` elements; all of them when `limit` is negative. */
  function Take(s: seq<Element>, limit: int): seq<Element> {
    if 0 <= limit < |s| then s[..limit] else s
  }

  /** What `ForEachByScore` visits of `s`, of which the elements from `a` to `b`
      are in range: it starts `offset` elements behind the first one in range, and
      only tests the elements after that one. */
  function Visited(s: seq<Element>, a: nat, b: nat, offset: int, limit: int): seq<Element>
    requires b <= |s|
  {
    var p := if offset > 0 then a + offset else a;
    if a >= b || p >= |s| then [] else Take(s[p..if p < b then b else p + 1], limit)
  }

  /** What `ForEachByScore` visits in the direction of the query. */
  function ByScore(s: seq<Element>, a: nat, b: nat, rejects: bool, offset: int, limit: int, desc: bool): seq<Element>
    requires a <= |s| && b <= |s|
  {
    if rejects then []
    else if desc then Visited(Reversed(s), |s| - b, |s| - a, offset, limit)
    else Visited(s, a, b, offset, limit)
  }

  /** What a range query yields that the guard lets through or not. */
  function Answer(s: seq<Element>, a: nat, b: nat, rejects: bool, offset: int, limit: int, desc: bool): seq<Element>
    requires a <= |s| && b <= |s|
  {
    if limit == 0 || offset < 0 then [] else ByScore(s, a, b, rejects, offset, limit, desc)
  }

  /** What `RangeByScore` returns for a set with listing `s`. */
  ghost function ScoreRange(s: seq<Element>, min: ScoreBorder, max: ScoreBorder, offset: int, limit: int,
                            desc: bool): seq<Element> {
    Answer(s, Start(s, min), Stop(s, max), GuardRejects(min, max), offset, limit, desc)
  }

  /** `found` without its first `offset` elements, and at most `limit` of the rest. */
  ghost function Paged(found: seq<Element>, offset: int, limit: int): seq<Element> {
    if offset < 0 || offset >= |found| then [] else Take(found[offset..], limit)
  }

  lemma PagedExact(found: seq<Element>, offset: int, limit: int)
    ensures var page := Paged(found, offset, limit);
            && (forall i :: 0 <= i < |page| ==> 0 <= offset + i < |found| && page[i] == found[offset + i])
            && (offset < 0 || offset >= |found| ==> page == [])
            && (0 <= offset < |found| ==> |page| == if 0 <= limit < |found| - offset then limit else |found| - offset)
  {
  }

  /** What it is asked for: a page of the elements in range, in the direction of
      the query. */
  ghost function WantedRange(s: seq<Element>, min: ScoreBorder, max: ScoreBorder, offset: int, limit: int,
                             desc: bool): seq<Element> {
    Paged(Directed(Matching(s, min, max), desc), offset, limit)
  }

  /** `inside` elements are in range, `reach` elements lie from its near end to the
      end of the set. */
  predicate OffsetFits(inside: nat, reach: int, rejects: bool, offset: int, limit: int) {
    || limit == 0 || offset < 0 || inside == 0
    || (if rejects then offset >= inside else offset < inside || offset >= reach)
  }

  /** When the code returns what it was asked for: nothing is in range, or nothing
      is wanted; or the guard lets the range through and the offset stays within
      the range or leads past the end of the whole set. */
  ghost predicate RangeIsExact(s: seq<Element>, min: ScoreBorder, max: ScoreBorder, offset: int, limit: int,
                               desc: bool) {
    var reach := if desc then Stop(s, max) else |s| - Start(s, min);
    OffsetFits(|Matching(s, min, max)|, reach, GuardRejects(min, max), offset, limit)
  }

  /** In the direction of the query, too, the elements in range are consecutive. */
  lemma DirectedRange(s: seq<Element>, min: ScoreBorder, max: ScoreBorder, desc: bool)
    requires Ascending(s)
    ensures var a, b := Start(s, min), Stop(s, max);
            forall i {:trigger Directed(s, desc)[i]} :: 0 <= i < |s| ==>
              (InRange(min, max, Directed(s, desc)[i].score) <==> if desc then |s| - b <= i < |s| - a else a <= i < b)
  {
    RangeSplits(s, min, max);
  }

  lemma ReversedSlice(s: seq<Element>, a: nat, b: nat)
    requires a <= b <= |s|
    ensures Reversed(s)[|s|-b..|s|-a] == Reversed(s[a..b])
  {
  }

  /** An offset that leads out of the range, but not out of the set, visits the one
      element there, untested; one that is not positive is none. */
  lemma VisitedBeyond(s: seq<Element>, a: nat, b: nat, offset: int, limit: int)
    requires a < b <= |s|
    ensures limit != 0 && b <= a + offset < |s| ==> Visited(s, a, b, offset, limit) == [s[a + offset]]
    ensures offset <= 0 ==> Visited(s, a, b, offset, limit) == Take(s[a..b], limit)
  {
  }

  /** Of a sequence with the elements from `a` to `b` in range, the visits are the
      wanted ones exactly when the offset stays within or leads past the end. */
  lemma VisitedIsExact(s: seq<Element>, a: nat, b: nat, offset: nat, limit: int)
    requires a < b <= |s| && limit != 0
    ensures Visited(s, a, b, offset, limit) == Paged(s[a..b], offset, limit) <==> offset < b - a || a + offset >= |s|
    ensures Paged(s[a..b], offset, limit) == [] <==> offset >= b - a
  {
    if offset < b - a {
      assert s[a..b][offset..] == s[a+offset..b];
    }
  }

  lemma AnswerIsExact(s: seq<Element>, a: nat, b: nat, found: seq<Element>, rejects: bool, offset: int, limit: int,
                      desc: bool)
    requires a <= |s| && b <= |s| && found == if a < b then s[a..b] else []
    ensures Answer(s, a, b, rejects, offset, limit, desc) == Paged(Directed(found, desc), offset, limit)
            <==> OffsetFits(|found|, if desc then b else |s| - a, rejects, offset, limit)
  {
    if limit != 0 && offset >= 0 && a < b {
      if desc {
        ReversedSlice(s, a, b);
        VisitedIsExact(Reversed(s), |s| - b, |s| - a, offset, limit);
      } else {
        VisitedIsExact(s, a, b, offset, limit);
      }
    }
  }

  /** `RangeByScore` returns what it was asked for if and only if `RangeIsExact`. */
  lemma ScoreRangeExact(s: seq<Element>, min: ScoreBorder, max: ScoreBorder, offset: int, limit: int, desc: bool)
    requires Ascending(s)
    ensures ScoreRange(s, min, max, offset, limit, desc) == WantedRange(s, min, max, offset, limit, desc)
            <==> RangeIsExact(s, min, max, offset, limit, desc)
  {
    MatchingIsSlice(s, min, max);
    AnswerIsExact(s, Start(s, min), Stop(s, max), Matching(s, min, max), GuardRejects(min, max), offset, limit, desc);
  }

  /** With finite ends and no offset, or an offset below the number in range, the
      answer is exact. */
  lemma FiniteRangeExact(s: seq<Element>, min: ScoreBorder, max: ScoreBorder, offset: int, limit: int, desc: bool)
    requires Ascending(s) && min.Finite() && max.Finite()
    requires offset < |Matching(s, min, max)| || Matching(s, min, max) == []
    ensures ScoreRange(s, min, max, offset, limit, desc) == WantedRange(s, min, max, offset, limit, desc)
  {
    GuardSound(min, max);
    if EmptyRange(min, max) {
      MatchingEmptyRange(s, min, max);
    }
    ScoreRangeExact(s, min, max, offset, limit, desc);
  }

  /** The guard, for two borders: it makes no set answer wrongly if and only if it
      lets the borders through or no score at all lies between them. */
  lemma GuardExactForAllSets(min: ScoreBorder, max: ScoreBorder)
    ensures (!GuardRejects(min, max) || EmptyRange(min, max)) <==>
            (forall s :: Ascending(s) ==>
              ScoreRange(s, min, max, 0, -1, false) == WantedRange(s, min, max, 0, -1, false))
  {
    EmptyRangeExact(min, max);
    if !GuardRejects(min, max) || EmptyRange(min, max) {
      forall s | Ascending(s) ensures ScoreRange(s, min, max, 0, -1, false) == WantedRange(s, min, max, 0, -1, false) {
        if EmptyRange(min, max) {
          MatchingEmptyRange(s, min, max);
        }
        ScoreRangeExact(s, min, max, 0, -1, false);
      }
    } else {
      var score :| InRange(min, max, score);
      var s := [Element("m", score)];
      MatchingMiddle(s, min, max, 0, 1);
      ScoreRangeExact(s, min, max, 0, -1, false);
      assert Ascending(s) && ScoreRange(s, min, max, 0, -1, false) != WantedRange(s, min, max, 0, -1, false);
    }
  }

  /** A range from -inf (written with value 0) to -5 misses a score of -10. */
  lemma GuardMissesMixedRange()
    ensures var min, max, s := NEGATIVE_INF_BORDER, ScoreBorder(0, -5.0, false), [Element("m", -10.0)];
            Matching(s, min, max) == s && ScoreRange(s, min, max, 0, -1, false) == []
  {
    MatchingMiddle([Element("m", -10.0)], NEGATIVE_INF_BORDER, ScoreBorder(0, -5.0, false), 0, 1);
  }

  /** An offset past the range returns an element outside of it. */
  lemma OffsetLeavesRange()
    ensures var border, s := ScoreBorder(0, 1.0, false), [Element("a", 1.0), Element("b", 2.0)];
            ScoreRange(s, border, border, 1, -1, false) == [Element("b", 2.0)] && !InRange(border, border, 2.0)
  {
    var border, s := ScoreBorder(0, 1.0, false), [Element("a", 1.0), Element("b", 2.0)];
    assert s[1..] == [Element("b", 2.0)];
    CutUnique(s, NotReached(border), 0);
    CutUnique(s, NotPassed(border), 1);
  }

  /** A run from `p` on, of elements in range but perhaps the first, ends at `stop`:
      at the limit, or before an element out of range, or at the end. */
  ghost predicate RunEnds(all: seq<Element>, min: ScoreBorder, max: ScoreBorder, p: nat, stop: nat, limit: int) {
    && p < |all| && p <= stop <= |all|
    && (stop == p ==> limit == 0)
    && (limit >= 0 ==> stop <= p + limit)
    && (forall i {:trigger all[i]} :: p < i < stop ==> InRange(min, max, all[i].score))
    && ((limit < 0 || stop < p + limit) && stop < |all| ==> !InRange(min, max, all[stop].score))
  }

  lemma RunStep(all: seq<Element>, min: ScoreBorder, max: ScoreBorder, p: nat, stop: nat, limit: int, j: nat)
    requires RunEnds(all, min, max, p, stop, limit) && p < j <= stop
    ensures if j < |all| && InRange(min, max, all[j].score) then j < stop || j == p + limit else j == stop
  {
  }

  /** `visits` are a run of `all` from `p`, or nothing when that is past the end. */
  ghost predicate RunFound(all: seq<Element>, min: ScoreBorder, max: ScoreBorder, p: nat, limit: int,
                           visits: seq<Element>) {
    if p < |all| then RunEnds(all, min, max, p, p + |visits|, limit) && visits == all[p..p + |visits|] else visits == []
  }

  lemma RunFoundEnds(all: seq<Element>, min: ScoreBorder, max: ScoreBorder, p: nat, limit: int,
                     visits: seq<Element>, stop: nat)
    requires RunFound(all, min, max, p, limit, visits) && stop == p + |visits|
    ensures p < |all| ==> RunEnds(all, min, max, p, stop, limit) && visits == all[p..stop]
    ensures p >= |all| ==> visits == []
  {
  }

  /** What is visited from an element in range, or `offset` elements behind it, is
      such a run. */
  lemma VisitedRun(all: seq<Element>, min: ScoreBorder, max: ScoreBorder, a: nat, b: nat, offset: int, limit: int)
    requires a < b <= |all| && forall i {:trigger all[i]} :: 0 <= i < |all| ==>
             (InRange(min, max, all[i].score) <==> a <= i < b)
    ensures RunFound(all, min, max, if offset > 0 then a + offset else a, limit, Visited(all, a, b, offset, limit))
  {
  }

  /** What `ForEachByScore` visits of a set with listing `s`. */
  ghost function RangeVisits(s: seq<Element>, min: ScoreBorder, max: ScoreBorder, offset: int, limit: int,
                             desc: bool): seq<Element> {
    ByScore(s, Start(s, min), Stop(s, max), GuardRejects(min, max), offset, limit, desc)
  }

  lemma ScoreRun(s: seq<Element>, min: ScoreBorder, max: ScoreBorder, offset: int, limit: int, desc: bool, a: nat)
    requires Ascending(s) && a == if desc then |s| - Stop(s, max) else Start(s, min)
    ensures var visits := RangeVisits(s, min, max, offset, limit, desc);
            if GuardRejects(min, max) || Start(s, min) >= Stop(s, max) then visits == []
            else RunFound(Directed(s, desc), min, max, if offset > 0 then a + offset else a, limit, visits)
  {
    var b := if desc then |s| - Start(s, min) else Stop(s, max);
    if !GuardRejects(min, max) && Start(s, min) < Stop(s, max) {
      DirectedRange(s, min, max, desc);
      VisitedRun(Directed(s, desc), min, max, a, b, offset, limit);
    }
  }
}
