/** The sorted set: a dictionary of elements beside the skip list.

    It refines a finite map from members to scores; every answer is a function of
    that map alone, whatever heights the nodes were given. */
module SortedSets {
  import opened Outcomes
  import opened Order
  import opened Shape
  import opened Borders
  import opened Ranges
  import opened Visits
  import opened Skiplists

  /** The members of some elements. */
  ghost function Members(s: seq<Element>): set<string> {
    set e | e in s :: e.member
  }

  lemma MembersStep(s: seq<Element>, k: nat)
    requires k < |s|
    ensures Members(s[..k+1]) == Members(s[..k]) + {s[k].member}
  {
    assert s[..k+1] == s[..k] + [s[k]];
  }

  /** The dictionary files the elements of the map `m`, each under its own member. */
  ghost predicate Files(dict: map<string, Element>, m: map<string, real>) {
    && dict.Keys == m.Keys
    && forall k {:trigger dict[k]} :: k in dict ==> dict[k] == Element(k, m[k])
  }

  lemma LessOne(s: seq<Element>, m: map<string, real>, gone: set<string>, c: nat)
    requires Lists(s, m - gone) && c < |s|
    ensures Lists(Drop(s, c), m - (gone + {s[c].member}))
  {
    DropLists(s, m - gone, c);
    assert m - gone - {s[c].member} == m - (gone + {s[c].member});
  }

  lemma CutoutNothing(s: seq<Element>, m: map<string, real>, c: nat)
    requires c <= |s|
    ensures Cutout(s, c, 0) == s && m - Members(s[c..][..0]) == m
  {
    assert Members(s[c..][..0]) == {} && m - {} == m;
  }

  /** A cut-out slice takes its members out of the listed map. */
  lemma {:induction false} CutoutLists(s: seq<Element>, m: map<string, real>, c: nat, k: nat)
    requires Lists(s, m) && c + k <= |s|
    ensures Lists(Cutout(s, c, k), m - Members(s[c..][..k]))
  {
    if k == 0 {
      CutoutNothing(s, m, c);
    } else {
      CutoutLists(s, m, c, k - 1);
      CutoutStep(s, c, k - 1);
      MembersStep(s[c..], k - 1);
      LessOne(Cutout(s, c, k - 1), m, Members(s[c..][..k-1]), c);
    }
  }

  /** In a listed map a member occurs once. */
  lemma OneCarrier(s: seq<Element>, m: map<string, real>, k: nat)
    requires Lists(s, m) && k < |s|
    ensures OnlyCarrier(s, k)
  {
    forall j | 0 <= j < |s| && s[j].member == s[k].member ensures j == k {
      assert s[j] in s && s[k] in s;
      CutBeforeSplits(s, s[k]);
    }
  }

  /** A member is listed at the index that is the number of smaller elements. */
  lemma MemberIndex(s: seq<Element>, m: map<string, real>, member: string)
    requires Lists(s, m) && member in m
    ensures var e := Element(member, m[member]);
            var k := |Smaller(m, e)|;
            k < |s| && s[k] == e && OnlyCarrier(s, k)
  {
    assert Element(member, m[member]) in s;
    var k :| 0 <= k < |s| && s[k] == Element(member, m[member]);
    IndexIsSmallerCount(s, m, k);
    OneCarrier(s, m, k);
  }

  /** The members with a score out of the range. */
  ghost function OutsideRange(m: map<string, real>, min: ScoreBorder, max: ScoreBorder): map<string, real> {
    map k | k in m && !InRange(min, max, m[k]) :: m[k]
  }

  /** The elements of ranks [start, stop); a negative `start` counts as 0. */
  ghost function RankRun(l: seq<Element>, start: int, stop: int): seq<Element> {
    var c := Clamp(start, 0, |l|);
    l[c..Clamp(stop, c, |l|)]
  }

  lemma RankRunPlaces(l: seq<Element>, start: nat, stop: int, i: nat)
    requires i < |RankRun(l, start, stop)|
    ensures start + i < |l| && RankRun(l, start, stop)[i] == l[start + i]
  {
  }

  /** It is the elements whose place lies from `start` on and before `stop`. */
  lemma RankRunExact(l: seq<Element>, start: int, stop: int)
    ensures var run := RankRun(l, start, stop);
            && (forall e :: e in run <==> exists i :: 0 <= i < |l| && start <= i < stop && l[i] == e)
            && (forall e :: e in run ==> e in l)
  {
    var c, run := Clamp(start, 0, |l|), RankRun(l, start, stop);
    forall e | e in run ensures exists i :: 0 <= i < |l| && start <= i < stop && l[i] == e {
      var j :| 0 <= j < |run| && run[j] == e;
      assert l[c + j] == e;
    }
    forall i | 0 <= i < |l| && start <= i < stop ensures l[i] in run {
      assert run[i - c] == l[i];
    }
  }

  /** The elements with the least score, or the first `count` of them. */
  ghost function LeastMembers(m: map<string, real>, count: int): seq<Element> {
    Limited(Ties(Listing(m)), count)
  }

  lemma NothingToPop(m: map<string, real>, count: int)
    ensures m == map[] ==> m - Members(LeastMembers(m, count)) == m
  {
  }

  /** What is popped comes first in the listing, has the least score, and is all
      there is of it unless `count` stopped it; popping one takes the least element. */
  lemma PoppedIsLeast(m: map<string, real>, count: int)
    requires m != map[]
    ensures var l, popped := Listing(m), LeastMembers(m, count);
            && 0 < |popped| <= |l| && popped == l[..|popped|]
            && (forall i :: 0 <= i < |popped| ==> popped[i].score == l[0].score)
            && (|popped| < |l| && l[|popped|].score == l[0].score ==> |popped| == count)
            && (0 < count ==> |popped| <= count)
            && (count == 1 ==> popped == [l[0]])
  {
    ListingLists(m);
    TiesInRange(Listing(m));
  }

  /** Taking the matching members out leaves those with a score out of range. */
  lemma RangeMembers(s: seq<Element>, m: map<string, real>, min: ScoreBorder, max: ScoreBorder)
    requires Lists(s, m)
    ensures m - Members(Matching(s, min, max)) == OutsideRange(m, min, max)
  {
    MatchingElements(s, min, max);
    forall k | k in m ensures k in Members(Matching(s, min, max)) <==> InRange(min, max, m[k]) {
      assert Element(k, m[k]) in s;
    }
  }

  /** The number of coins that came up: any level from 1 to the highest. */
  method RandomLevel() returns (level: int)
    ensures 1 <= level <= MAX_LEVEL
  {
    level :| 1 <= level <= MAX_LEVEL;
  }

  /** The list takes a new member up. */
  method ListInsert(list: Skiplist, member: string, score: real, ghost m: map<string, real>)
    requires list.Valid() && Lists(list.Elements(), m) && member !in m
    modifies list, NodeSet(list.all)
    ensures list.Valid() && Lists(list.Elements(), m[member := score])
    ensures fresh(NodeSet(list.all) - old(NodeSet(list.all)))
  {
    PutLists(list.Elements(), m, member, score);
    var level := RandomLevel();
    var node := list.Insert(member, score, level);
  }

  /** The list gives a member up. */
  method ListRemove(list: Skiplist, member: string, score: real, ghost m: map<string, real>)
    requires list.Valid() && Lists(list.Elements(), m) && member in m && m[member] == score
    modifies list, NodeSet(list.all)
    ensures list.Valid() && Lists(list.Elements(), m - {member})
    ensures NodeSet(list.all) <= old(NodeSet(list.all))
  {
    ghost var c := CutBefore(list.Elements(), Element(member, score));
    ghost var s := list.Elements();
    assert Element(member, score) in s;
    var found := list.Remove(member, score);
    DropLists(s, m, c);
  }

  /** The list moves a member to the place of its new score. */
  method ListMove(list: Skiplist, member: string, was: real, score: real, ghost m: map<string, real>)
    requires list.Valid() && Lists(list.Elements(), m) && member in m && m[member] == was
    modifies list, NodeSet(list.all)
    ensures list.Valid() && Lists(list.Elements(), m[member := score])
    ensures fresh(NodeSet(list.all) - old(NodeSet(list.all)))
  {
    ListRemove(list, member, was, m);
    ListInsert(list, member, score, m - {member});
    assert (m - {member})[member := score] == m[member := score];
  }

  /** The list follows a member given a score, which it may have had before. */
  method ListSet(list: Skiplist, member: string, was: Option<real>, score: real, ghost m: map<string, real>)
    requires list.Valid() && Lists(list.Elements(), m)
    requires was == if member in m then Some(m[member]) else None
    modifies list, NodeSet(list.all)
    ensures list.Valid() && Lists(list.Elements(), m[member := score])
    ensures fresh(NodeSet(list.all) - old(NodeSet(list.all)))
  {
    if was.None? {
      ListInsert(list, member, score, m);
    } else if score != was.value {
      ListMove(list, member, was.value, score, m);
    } else {
      assert m[member := score] == m;
    }
  }

  /** The list gives up elements of a score range. */
  method ListRemoveRange(list: Skiplist, min: ScoreBorder, max: ScoreBorder, limit: int, ghost m: map<string, real>)
    returns (removed: seq<Element>)
    requires list.Valid() && Lists(list.Elements(), m)
    modifies list, NodeSet(list.all)
    ensures list.Valid() && Lists(list.Elements(), m - Members(removed))
    ensures removed == Limited(Matching(Listing(m), min, max), limit)
    ensures NodeSet(list.all) <= old(NodeSet(list.all))
  {
    ghost var s := list.Elements();
    ListingUnique(s, m);
    removed := list.RemoveRangeByScore(min, max, limit);
    CutoutLists(s, m, Start(s, min), |removed|);
    LimitedSlice(s, min, max, limit);
  }

  class SortedSet {
    var dict: map<string, Element>
    const skiplist: Skiplist
    ghost var scores: map<string, real>

    /** The map the set stands for. */
    ghost function View(): map<string, real>
      reads this
    {
      scores
    }

    /** Dictionary and skip list hold the same pairs, one for each member. */
    ghost predicate Valid()
      reads this, skiplist, skiplist.header, skiplist.all
    {
      && skiplist.Valid()
      && Files(dict, View())
      && Lists(skiplist.Elements(), View())
    }

    ghost function Repr(): set<object>
      reads this, skiplist
    {
      {this, skiplist} + NodeSet(skiplist.all)
    }

    constructor ()
      ensures Valid() && View() == map[] && fresh(Repr())
    {
      dict, scores := map[], map[];
      skiplist := new Skiplist();
    }

    /** Gives a member a score; tells whether the member is new. */
    method Add(member: string, score: real) returns (added: bool)
      requires Valid()
      modifies Repr()
      ensures Valid() && fresh(Repr() - old(Repr()))
      ensures View() == old(View())[member := score]
      ensures added <==> member !in old(View())
    {
      ghost var m := View();
      var ok := member in dict;
      var was := if ok then Some(dict[member].score) else None;
      dict := dict[member := Element(member, score)];
      scores := scores[member := score];
      ListSet(skiplist, member, was, score, m);
      return !ok;
    }

    method Remove(member: string) returns (removed: bool)
      requires Valid()
      modifies Repr()
      ensures Valid() && Repr() <= old(Repr())
      ensures View() == old(View()) - {member}
      ensures removed <==> member in old(View())
    {
      var ok := member in dict;
      if ok {
        var v := dict[member];
        ListRemove(skiplist, member, v.score, View());
        dict := dict - {member};
        scores := scores - {member};
        return true;
      }
      assert View() == View() - {member};
      return false;
    }

    /** The number of members. */
    method Len() returns (size: int)
      requires Valid()
      ensures size == |View()| == |dict| == skiplist.length
    {
      ListingUnique(skiplist.Elements(), View());
      assert dict.Keys == View().Keys;
      size := |dict|;
    }

    /** The element of a member. */
    method Get(member: string) returns (element: Option<Element>)
      requires Valid()
      ensures element == if member in View() then Some(Element(member, View()[member])) else None
    {
      if member !in dict {
        return None;
      }
      return Some(dict[member]);
    }

    /** Whether the search for the empty member gets past the header, which carries
        that member too: the highest level has a node at or before it. */
    ghost predicate EmptyMemberFound()
      requires "" in View()
      reads this, skiplist
    {
      skiplist.all != [] && skiplist.level >= 1 &&
      NextTall(skiplist.all, skiplist.level - 1, 0) <= |Smaller(View(), Element("", View()[""]))| + 1
    }

    /** The rank of a member, counted from 0 in either direction: the number of
        elements before it.  Exact for every member but the empty one. */
    method GetRank(member: string, desc: bool) returns (rank: int)
      requires Valid()
      ensures member !in View() ==> rank == -1
      ensures member in View() ==>
        var before := |Smaller(View(), Element(member, View()[member]))|;
        var asc := if member != "" || EmptyMemberFound() then before else -1;
        rank == if desc then |View()| - 1 - asc else asc
    {
      if member !in dict {
        return -1;
      }
      var element := dict[member];
      MemberIndex(skiplist.Elements(), View(), member);
      ListingUnique(skiplist.Elements(), View());
      var r := skiplist.GetRank(member, element.score);
      if desc {
        r := skiplist.length - r;
      } else {
        r := r - 1;
      }
      return r;
    }

    // -------------------------------------------------- visits

    /** The node `i` steps from the start of a visit, nil past the end. */
    ghost function At(desc: bool, i: int): Node?
      reads this, skiplist
    {
      var all := skiplist.all;
      if i < 0 || i >= |all| - 1 then null else if desc then all[|all|-1-i] else all[i+1]
    }

    lemma AtElement(desc: bool, i: nat)
      requires skiplist.Valid() && i < |skiplist.Elements()|
      ensures At(desc, i) != null && At(desc, i).element == Directed(skiplist.Elements(), desc)[i]
    {
    }

    /** One step forward on level 0, or backward. */
    method Step(node: Node, desc: bool, ghost i: nat) returns (next: Node?)
      requires skiplist.Valid() && node == At(desc, i)
      ensures next == At(desc, i + 1)
    {
      if desc {
        next := node.backward;
      } else {
        skiplist.NextOnBottom(i + 1);
        next := node.level[0].forward;
      }
    }

    /** The node a visit starts at. */
    method StartNode(start: int, desc: bool) returns (node: Node?)
      requires skiplist.Valid() && 0 <= start < |skiplist.Elements()| == |dict|
      ensures node == At(desc, start)
    {
      if desc {
        node := skiplist.tail;
        if start > 0 {
          node := skiplist.GetByRank(|dict| - start);
        }
      } else {
        skiplist.NextOnBottom(0);
        node := skiplist.header.level[0].forward;
        if start > 0 {
          node := skiplist.GetByRank(start + 1);
        }
      }
    }

    /** The loop of `ForEach`. */
    method VisitRun<S>(first: Node?, stop: int, desc: bool, consumer: (S, Element) -> (S, bool), state: S, start: nat)
      returns (s: S)
      requires skiplist.Valid() && start <= stop <= |skiplist.Elements()| && first == At(desc, start)
      ensures s == Feed(consumer, state, Directed(skiplist.Elements(), desc)[start..stop])
    {
      var node := first;
      s := state;
      ghost var all := Directed(skiplist.Elements(), desc);
      var sliceSize := stop - start;
      for i := 0 to sliceSize
        invariant node == At(desc, start + i)
        invariant Feed(consumer, state, all[start..stop]) == Feed(consumer, s, all[start+i..stop])
      {
        AtElement(desc, start + i);
        FeedOne(consumer, s, all, start + i, stop);
        var (s', go) := consumer(s, node.element);
        s := s';
        if !go {
          return;
        }
        node := Step(node, desc, start + i);
      }
    }

    /** Visits the elements of ranks [start, stop), counted from 0 in either
        direction, until the consumer has enough.  `state` is what the consumer
        accumulates. */
    method ForEach<S>(start: int, stop: int, desc: bool, consumer: (S, Element) -> (S, bool), state: S)
      returns (r: Outcome<S>)
      requires Valid()
      ensures r == if start < 0 || start >= |View()| then IllegalStart(start)
                   else if stop < start || stop > |View()| then IllegalEnd(stop)
                   else Ok(Feed(consumer, state, Directed(Listing(View()), desc)[start..stop]))
    {
      var size := Len();
      if start < 0 || start >= size {
        return IllegalStart(start);
      }
      if stop < start || stop > size {
        return IllegalEnd(stop);
      }
      ListingUnique(skiplist.Elements(), View());
      var node := StartNode(start, desc);
      var s := VisitRun(node, stop, desc, consumer, state, start);
      return Ok(s);
    }

    /** The elements of ranks [start, stop), counted from 0 in either direction. */
    method Range(start: int, stop: int, desc: bool) returns (r: Outcome<seq<Element>>)
      requires Valid()
      ensures r == if stop - start < 0 then NegativeSize
                   else if start < 0 || start >= |View()| then IllegalStart(start)
                   else if stop > |View()| then IllegalEnd(stop)
                   else Ok(Directed(Listing(View()), desc)[start..stop])
    {
      if stop - start < 0 {
        return NegativeSize;
      }
      r := ForEach(start, stop, desc, Collect(), []);
      if 0 <= start < |View()| && start <= stop <= |View()| {
        FeedCollect([], Directed(Listing(View()), desc)[start..stop]);
        assert [] + Directed(Listing(View()), desc)[start..stop] == Directed(Listing(View()), desc)[start..stop];
      }
    }

    /** The number of elements in a score range; panics on the empty set. */
    method Count(min: ScoreBorder, max: ScoreBorder) returns (r: Outcome<int>)
      requires Valid()
      ensures r == if View() == map[] then IllegalStart(0) else Ok(|Matching(Listing(View()), min, max)|)
    {
      var size := Len();
      ListingUnique(skiplist.Elements(), View());
      FeedCountIn(min, max, 0, Listing(View()));
      assert Listing(View())[0..|Listing(View())|] == Listing(View());
      r := ForEach(0, size, false, CountIn(min, max), 0);
    }

    /** Leaves `offset` nodes out. */
    method Skip(first: Node?, desc: bool, offset: int, ghost a: nat) returns (node: Node?)
      requires skiplist.Valid() && first == At(desc, a)
      ensures node == At(desc, if offset > 0 then a + offset else a)
    {
      node := first;
      var left := offset;
      while node != null && left > 0
        invariant node == At(desc, a + if offset > 0 then offset - left else 0)
        invariant offset > 0 ==> 0 <= left <= offset
        decreases left
      {
        node := Step(node, desc, a + (offset - left));
        left := left - 1;
      }
    }

    /** The step to the next node of a visit by score, and whether that is in range. */
    method Onward(node: Node, min: ScoreBorder, max: ScoreBorder, desc: bool, ghost i: nat)
      returns (next: Node?, inside: bool)
      requires skiplist.Valid() && node == At(desc, i)
      ensures next == At(desc, i + 1)
      ensures inside <==>
              i + 1 < |skiplist.Elements()| && InRange(min, max, Directed(skiplist.Elements(), desc)[i+1].score)
      ensures inside ==> next != null
    {
      next := Step(node, desc, i);
      if next == null {
        return next, false;
      }
      AtElement(desc, i + 1);
      inside := min.Less(next.element.score) && max.Greater(next.element.score);
    }

    /** The loop of `ForEachByScore`: after the first node, it goes on while the
        elements are in range, which holds up to index `b`.  It ends at index `stop`. */
    method VisitWhile<S>(first: Node?, min: ScoreBorder, max: ScoreBorder, limit: int, desc: bool,
                         consumer: (S, Element) -> (S, bool), state: S, ghost all: seq<Element>,
                         ghost p: nat, ghost stop: nat)
      returns (s: S)
      requires skiplist.Valid() && all == Directed(skiplist.Elements(), desc) && first == At(desc, p)
      requires RunEnds(all, min, max, p, stop, limit)
      ensures s == Feed(consumer, state, all[p..stop])
    {
      var node := first;
      s := state;
      ghost var q := p;
      var i := 0;
      while (i < limit || limit < 0) && node != null
        invariant q == p + i && p <= q <= stop && node == At(desc, q) && node != null
        invariant q == stop ==> i == limit
        invariant Feed(consumer, state, all[p..stop]) == Feed(consumer, s, all[q..stop])
        decreases stop - q
      {
        AtElement(desc, q);
        FeedOne(consumer, s, all, q, stop);
        var (s', go) := consumer(s, node.element);
        s := s';
        if !go {
          break;
        }
        var inside;
        node, inside := Onward(node, min, max, desc, q);
        q := q + 1;
        RunStep(all, min, max, p, stop, limit, q);
        if !inside {
          break;
        }
        i := i + 1;
      }
    }

    /** The first node of a visit by score. */
    method StartByScore(min: ScoreBorder, max: ScoreBorder, desc: bool) returns (node: Node?)
      requires skiplist.Valid()
      ensures var l := skiplist.Elements();
              var a, b := Start(l, min), Stop(l, max);
              node == if GuardRejects(min, max) || a >= b then null else At(desc, if desc then |l| - b else a)
    {
      if desc {
        node := skiplist.GetLastInScoreRange(min, max);
      } else {
        node := skiplist.GetFirstInScoreRange(min, max);
      }
    }

    /** The visit by score from its start. */
    method VisitFrom<S>(first: Node, min: ScoreBorder, max: ScoreBorder, offset: int, limit: int, desc: bool,
                        consumer: (S, Element) -> (S, bool), state: S, ghost a: nat, ghost visits: seq<Element>)
      returns (s: S)
      requires skiplist.Valid() && first == At(desc, a)
      requires RunFound(Directed(skiplist.Elements(), desc), min, max,
                        if offset > 0 then a + offset else a, limit, visits)
      ensures s == Feed(consumer, state, visits)
    {
      ghost var all := Directed(skiplist.Elements(), desc);
      ghost var p := if offset > 0 then a + offset else a;
      ghost var stop := p + |visits|;
      RunFoundEnds(all, min, max, p, limit, visits, stop);
      var node := Skip(first, desc, offset, a);
      if node == null {
        return state;
      }
      s := VisitWhile(node, min, max, limit, desc, consumer, state, all, p, stop);
    }

    method VisitRange<S>(min: ScoreBorder, max: ScoreBorder, offset: int, limit: int, desc: bool,
                         consumer: (S, Element) -> (S, bool), state: S) returns (s: S)
      requires skiplist.Valid()
      ensures s == Feed(consumer, state, RangeVisits(skiplist.Elements(), min, max, offset, limit, desc))
    {
      ghost var l := skiplist.Elements();
      ghost var a := if desc then |l| - Stop(l, max) else Start(l, min);
      ScoreRun(l, min, max, offset, limit, desc, a);
      var node := StartByScore(min, max, desc);
      if node == null {
        return state;
      }
      s := VisitFrom(node, min, max, offset, limit, desc, consumer, state, a,
                     RangeVisits(l, min, max, offset, limit, desc));
    }

    /** Visits the elements in a score range, from one end, leaving `offset` of them
        out, until `limit` of them were visited or the consumer has enough. */
    method ForEachByScore<S>(min: ScoreBorder, max: ScoreBorder, offset: int, limit: int, desc: bool,
                             consumer: (S, Element) -> (S, bool), state: S) returns (s: S)
      requires Valid()
      ensures s == Feed(consumer, state, RangeVisits(Listing(View()), min, max, offset, limit, desc))
    {
      ListingUnique(skiplist.Elements(), View());
      s := VisitRange(min, max, offset, limit, desc, consumer, state);
    }

    /** The elements in a score range. */
    method RangeByScore(min: ScoreBorder, max: ScoreBorder, offset: int, limit: int, desc: bool)
      returns (slice: seq<Element>)
      requires Valid()
      ensures slice == ScoreRange(Listing(View()), min, max, offset, limit, desc)
      ensures RangeIsExact(Listing(View()), min, max, offset, limit, desc) <==>
              slice == WantedRange(Listing(View()), min, max, offset, limit, desc)
    {
      ListingUnique(skiplist.Elements(), View());
      ghost var l := Listing(View());
      ScoreRangeExact(l, min, max, offset, limit, desc);
      if limit == 0 || offset < 0 {
        return [];
      }
      slice := ForEachByScore(min, max, offset, limit, desc, Collect(), []);
      FeedCollect([], RangeVisits(l, min, max, offset, limit, desc));
    }

    // -------------------------------------------------- removals

    /** Deletes the members of removed elements from the dictionary. */
    method Forget(removed: seq<Element>)
      requires Files(dict, View())
      modifies this
      ensures Files(dict, View()) && View() == old(View()) - Members(removed)
    {
      ghost var d := dict;
      for i := 0 to |removed|
        invariant dict == d - Members(removed[..i]) && scores == old(scores)
      {
        MembersStep(removed, i);
        dict := dict - {removed[i].member};
      }
      assert removed[..|removed|] == removed;
      scores := scores - Members(removed);
    }

    /** Removes the members whose score is in the range. */
    method RemoveByScore(min: ScoreBorder, max: ScoreBorder) returns (count: int)
      requires Valid()
      modifies Repr()
      ensures Valid() && Repr() <= old(Repr())
      ensures View() == OutsideRange(old(View()), min, max)
      ensures count == |Matching(Listing(old(View())), min, max)|
    {
      ghost var m := View();
      ListingUnique(skiplist.Elements(), m);
      RangeMembers(Listing(m), m, min, max);
      var removed := ListRemoveRange(skiplist, min, max, 0, m);
      Forget(removed);
      return |removed|;
    }

    /** The first node, found as the first one between the infinite borders. */
    method Least() returns (first: Node?)
      requires Valid()
      ensures first == null <==> View() == map[]
      ensures first != null ==> Listing(View()) != [] && first.element == Listing(View())[0]
    {
      ghost var s := skiplist.Elements();
      ListingUnique(s, View());
      RangeSplits(s, NEGATIVE_INF_BORDER, POSITIVE_INF_BORDER);
      first := skiplist.GetFirstInScoreRange(NEGATIVE_INF_BORDER, POSITIVE_INF_BORDER);
      if s != [] {
        assert NEGATIVE_INF_BORDER.Less(s[0].score) && POSITIVE_INF_BORDER.Greater(s[0].score);
      }
    }

    /** Removes members with the least score, all of them or at most `count` when
        that is positive; nil for the empty set. */
    method PopMin(count: int) returns (popped: Option<seq<Element>>)
      requires Valid()
      modifies Repr()
      ensures Valid() && Repr() <= old(Repr())
      ensures popped == if old(View()) == map[] then None else Some(LeastMembers(old(View()), count))
      ensures View() == old(View()) - Members(LeastMembers(old(View()), count))
    {
      ghost var m := View();
      NothingToPop(m, count);
      var first := Least();
      if first == null {
        return None;
      }
      assert first.element == Listing(m)[0];
      var border := ScoreBorder(0, first.element.score, false);
      var removed := ListRemoveRange(skiplist, border, border, count, m);
      Forget(removed);
      return Some(removed);
    }

    /** Removes the members of ranks [start, stop), counted from 0; a negative
        `start` counts as 0. */
    method RemoveByRank(start: int, stop: int) returns (count: int)
      requires Valid()
      modifies Repr()
      ensures Valid() && Repr() <= old(Repr())
      ensures View() == old(View()) - Members(RankRun(Listing(old(View())), start, stop))
      ensures count == |RankRun(Listing(old(View())), start, stop)|
    {
      ghost var s, m := skiplist.Elements(), View();
      ListingUnique(s, m);
      var removed := skiplist.RemoveRangeByRank(start + 1, stop + 1);
      ghost var c := Clamp(start, 0, |s|);
      CutoutLists(s, m, c, |removed|);
      assert removed == s[c..][..|removed|];
      Forget(removed);
      return |removed|;
    }
  }
}
