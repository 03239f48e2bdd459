/** Score ranges over an ordered sequence. */
module Ranges {
  import opened Order
  import opened Borders

  /** The search tests of the range queries. */
  function NotReached(min: ScoreBorder): Element -> bool {
    (x: Element) => !min.Less(x.score)
  }

  function NotPassed(max: ScoreBorder): Element -> bool {
    (x: Element) => max.Greater(x.score)
  }

  /** The number of leading elements below the range. */
  ghost function Start(s: seq<Element>, min: ScoreBorder): nat {
    Cut(s, NotReached(min))
  }

  /** The number of leading elements not above the range. */
  ghost function Stop(s: seq<Element>, max: ScoreBorder): nat {
    Cut(s, NotPassed(max))
  }

  /** The elements within the range, in order. */
  ghost function Matching(s: seq<Element>, min: ScoreBorder, max: ScoreBorder): seq<Element> {
    if s == [] then []
    else (if InRange(min, max, s[0].score) then [s[0]] else []) + Matching(s[1..], min, max)
  }

  /** The first `limit` elements; all of them unless `limit` is positive. */
  ghost function Limited(s: seq<Element>, limit: int): seq<Element> {
    if 0 < limit < |s| then s[..limit] else s
  }

  lemma RangeSplits(s: seq<Element>, min: ScoreBorder, max: ScoreBorder)
    requires Ascending(s)
    ensures Downward(s, NotReached(min)) && Downward(s, NotPassed(max))
    ensures forall i :: 0 <= i < |s| ==>
            (min.Less(s[i].score) <==> Start(s, min) <= i) && (max.Greater(s[i].score) <==> i < Stop(s, max))
  {
    assert forall i, j :: 0 <= i < j < |s| ==> s[i].score <= s[j].score by {
      forall i, j | 0 <= i < j < |s| ensures s[i].score <= s[j].score {
        assert Before(s[i], s[j]);
      }
    }
  }

  lemma {:induction false} MatchingMiddle(s: seq<Element>, min: ScoreBorder, max: ScoreBorder, a: nat, b: nat)
    requires a <= b <= |s|
    requires forall i :: 0 <= i < |s| ==> (InRange(min, max, s[i].score) <==> a <= i < b)
    ensures Matching(s, min, max) == s[a..b]
  {
    if s != [] {
      var a', b' := if a > 0 then a - 1 else 0, if b > 0 then b - 1 else 0;
      MatchingMiddle(s[1..], min, max, a', b');
      assert a > 0 ==> s[1..][a'..b'] == s[a..b];
      assert a == 0 < b ==> [s[0]] + s[1..][a'..b'] == s[a..b];
    }
  }

  /** In an ordered sequence the elements in range are consecutive. */
  lemma MatchingIsSlice(s: seq<Element>, min: ScoreBorder, max: ScoreBorder)
    requires Ascending(s)
    ensures Matching(s, min, max) == if Start(s, min) < Stop(s, max) then s[Start(s, min)..Stop(s, max)] else []
  {
    RangeSplits(s, min, max);
    if Start(s, min) < Stop(s, max) {
      MatchingMiddle(s, min, max, Start(s, min), Stop(s, max));
    } else {
      MatchingMiddle(s, min, max, 0, 0);
    }
  }

  lemma LimitedSlice(s: seq<Element>, min: ScoreBorder, max: ScoreBorder, limit: int)
    requires Ascending(s)
    ensures var found := Limited(Matching(s, min, max), limit);
            Start(s, min) + |found| <= |s| && found == s[Start(s, min)..][..|found|]
  {
    MatchingIsSlice(s, min, max);
  }

  /** Nothing is in range when the range is empty. */
  lemma {:induction false} MatchingEmptyRange(s: seq<Element>, min: ScoreBorder, max: ScoreBorder)
    requires EmptyRange(min, max)
    ensures Matching(s, min, max) == []
  {
    if s != [] {
      EmptyRangeExact(min, max);
      assert !InRange(min, max, s[0].score);
      MatchingEmptyRange(s[1..], min, max);
    }
  }

  lemma {:induction false} MatchingElements(s: seq<Element>, min: ScoreBorder, max: ScoreBorder)
    ensures forall e :: e in Matching(s, min, max) <==> e in s && InRange(min, max, e.score)
  {
    if s != [] {
      MatchingElements(s[1..], min, max);
      assert s == [s[0]] + s[1..];
    }
  }

  /** The leading elements with the least score. */
  ghost function Ties(s: seq<Element>): seq<Element> {
    if s == [] then [] else Matching(s, ScoreBorder(0, s[0].score, false), ScoreBorder(0, s[0].score, false))
  }

  /** The ties come first, and one of them is the least element. */
  lemma TiesInRange(s: seq<Element>)
    requires Ascending(s) && s != []
    ensures var border := ScoreBorder(0, s[0].score, false);
            && Start(s, border) == 0 && 0 < |Ties(s)| <= |s| && Ties(s) == s[..|Ties(s)|]
            && (forall i :: 0 <= i < |s| ==> (s[i].score == s[0].score <==> i < |Ties(s)|))
  {
    var border := ScoreBorder(0, s[0].score, false);
    RangeSplits(s, border, border);
    MatchingIsSlice(s, border, border);
    assert border.Less(s[0].score) && border.Greater(s[0].score);
    forall i | 0 <= i < |s| ensures s[0].score <= s[i].score {
      assert i > 0 ==> Before(s[0], s[i]);
    }
  }
}
