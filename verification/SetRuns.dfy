/** Whole runs of a sorted set: it answers every sequence of operations as a finite
    map from members to scores would. */
module SetRuns {
  import opened Outcomes
  import opened Order
  import opened Borders
  import opened Ranges
  import opened Visits
  import opened Shape
  import opened SortedSets

  datatype Op =
    | Add(member: string, score: real)
    | Remove(member: string)
    | RemoveByScore(min: ScoreBorder, max: ScoreBorder)
    | RemoveByRank(start: int, stop: int)
    | PopMin(count: int)
    | Len
    | Get(member: string)
    | GetRank(member: string, desc: bool)
    | Range(start: int, stop: int, desc: bool)
    | Count(min: ScoreBorder, max: ScoreBorder)
    | RangeByScore(min: ScoreBorder, max: ScoreBorder, offset: int, limit: int, desc: bool)

  datatype Reply =
    | Flag(flag: bool)
    | Number(number: int)
    | Counted(count: Outcome<int>)
    | Found(element: Option<Element>)
    | Popped(popped: Option<seq<Element>>)
    | Slice(slice: Outcome<seq<Element>>)
    | Elements(elements: seq<Element>)

  /** The map after an operation. */
  ghost function After(m: map<string, real>, op: Op): map<string, real> {
    match op
    case Add(k, v) => m[k := v]
    case Remove(k) => m - {k}
    case RemoveByScore(min, max) => OutsideRange(m, min, max)
    case RemoveByRank(start, stop) => m - Members(RankRun(Listing(m), start, stop))
    case PopMin(count) => m - Members(LeastMembers(m, count))
    case _ => m
  }

  /** The rank of a present member: how many elements come before it. */
  ghost function RankIn(m: map<string, real>, k: string, desc: bool): int
    requires k in m
  {
    var before := |Smaller(m, Element(k, m[k]))|;
    if desc then |m| - 1 - before else before
  }

  /** The replies the map allows.  Only one is, but for the rank of a present empty
      member: the search for it may give up at the header. */
  ghost predicate Allows(m: map<string, real>, op: Op, r: Reply) {
    var l := Listing(m);
    match op
    case Add(k, _) => r == Flag(k !in m)
    case Remove(k) => r == Flag(k in m)
    case RemoveByScore(min, max) => r == Number(|Matching(l, min, max)|)
    case RemoveByRank(start, stop) => r == Number(|RankRun(l, start, stop)|)
    case PopMin(count) => r == Popped(if m == map[] then None else Some(LeastMembers(m, count)))
    case Len => r == Number(|m|)
    case Get(k) => r == Found(if k in m then Some(Element(k, m[k])) else None)
    case GetRank(k, desc) =>
      if k !in m then r == Number(-1)
      else r == Number(RankIn(m, k, desc)) || (k == "" && r == Number(if desc then |m| else -1))
    case Range(start, stop, desc) =>
      r == Slice(if stop - start < 0 then NegativeSize
                 else if start < 0 || start >= |m| then IllegalStart(start)
                 else if stop > |m| then IllegalEnd(stop)
                 else Ok(Directed(l, desc)[start..stop]))
    case Count(min, max) => r == Counted(if m == map[] then IllegalStart(0) else Ok(|Matching(l, min, max)|))
    case RangeByScore(min, max, offset, limit, desc) => r == Elements(ScoreRange(l, min, max, offset, limit, desc))
  }

  /** The map after a run that starts with the empty set. */
  ghost function AfterAll(ops: seq<Op>): map<string, real> {
    if ops == [] then map[] else After(AfterAll(ops[..|ops|-1]), ops[|ops|-1])
  }

  /** Every reply of a run is one the map allows at that point. */
  ghost predicate Replied(ops: seq<Op>, replies: seq<Reply>) {
    && |replies| == |ops|
    && (ops != [] ==>
          var i := |ops| - 1;
          Replied(ops[..i], replies[..i]) && Allows(AfterAll(ops[..i]), ops[i], replies[i]))
  }

  /** A removal of several elements. */
  method Purge(zset: SortedSet, op: Op) returns (r: Reply)
    requires zset.Valid()
    requires op.RemoveByScore? || op.RemoveByRank? || op.PopMin?
    modifies zset.Repr()
    ensures zset.Valid() && zset.Repr() <= old(zset.Repr())
    ensures zset.View() == After(old(zset.View()), op)
    ensures Allows(old(zset.View()), op, r)
  {
    match op
    case RemoveByScore(min, max) => var n := zset.RemoveByScore(min, max); r := Number(n);
    case RemoveByRank(start, stop) => var n := zset.RemoveByRank(start, stop); r := Number(n);
    case PopMin(count) =>
      var popped := zset.PopMin(count);
      r := Popped(popped);
  }

  /** An operation that only asks. */
  method Query(zset: SortedSet, op: Op) returns (r: Reply)
    requires zset.Valid()
    requires op.Len? || op.Get? || op.GetRank? || op.Range? || op.Count? || op.RangeByScore?
    ensures Allows(zset.View(), op, r)
  {
    match op
    case Len => var n := zset.Len(); r := Number(n);
    case Get(k) => var e := zset.Get(k); r := Found(e);
    case GetRank(k, desc) => var n := zset.GetRank(k, desc); r := Number(n);
    case Range(start, stop, desc) => var slice := zset.Range(start, stop, desc); r := Slice(slice);
    case Count(min, max) => var n := zset.Count(min, max); r := Counted(n);
    case RangeByScore(min, max, offset, limit, desc) =>
      var elements := zset.RangeByScore(min, max, offset, limit, desc);
      r := Elements(elements);
  }

  method Perform(zset: SortedSet, op: Op) returns (r: Reply)
    requires zset.Valid()
    modifies zset.Repr()
    ensures zset.Valid() && fresh(zset.Repr() - old(zset.Repr()))
    ensures zset.View() == After(old(zset.View()), op)
    ensures Allows(old(zset.View()), op, r)
  {
    if op.Add? {
      var flag := zset.Add(op.member, op.score);
      r := Flag(flag);
    } else if op.Remove? {
      var flag := zset.Remove(op.member);
      r := Flag(flag);
    } else if op.RemoveByScore? || op.RemoveByRank? || op.PopMin? {
      r := Purge(zset, op);
    } else {
      r := Query(zset, op);
    }
  }

  lemma RunStep(ops: seq<Op>, i: nat, replies: seq<Reply>, r: Reply)
    requires i < |ops| && Replied(ops[..i], replies) && Allows(AfterAll(ops[..i]), ops[i], r)
    ensures Replied(ops[..i+1], replies + [r])
    ensures AfterAll(ops[..i+1]) == After(AfterAll(ops[..i]), ops[i])
  {
    assert ops[..i+1][..i] == ops[..i];
    assert (replies + [r])[..i] == replies;
  }

  /** Over any run, whatever heights the coins give the nodes, every reply is one
      the finite map allows. */
  method Run(ops: seq<Op>) returns (replies: seq<Reply>)
    ensures Replied(ops, replies)
  {
    var zset := new SortedSet();
    replies := [];
    for i := 0 to |ops|
      invariant zset.Valid() && fresh(zset.Repr())
      invariant zset.View() == AfterAll(ops[..i])
      invariant Replied(ops[..i], replies)
    {
      var r := Perform(zset, ops[i]);
      RunStep(ops, i, replies, r);
      replies := replies + [r];
    }
    assert ops[..|ops|] == ops;
  }

  /** Every member has one place in the listing: its rank. */
  lemma RankSelects(m: map<string, real>, k: string)
    requires k in m
    ensures 0 <= RankIn(m, k, false) < |m| && Listing(m)[RankIn(m, k, false)] == Element(k, m[k])
    ensures 0 <= RankIn(m, k, true) < |m| && Directed(Listing(m), true)[RankIn(m, k, true)] == Element(k, m[k])
    ensures RankIn(m, k, false) + RankIn(m, k, true) == |m| - 1
    ensures forall i :: 0 <= i < |m| && Listing(m)[i].member == k ==> i == RankIn(m, k, false)
  {
    ListingLists(m);
    MemberIndex(Listing(m), m, k);
  }

  /** A removal by rank takes out exactly the members whose rank lies in the run. */
  lemma RemovedByRank(m: map<string, real>, start: int, stop: int, k: string)
    requires k in m
    ensures k in m - Members(RankRun(Listing(m), start, stop)) <==> !(start <= RankIn(m, k, false) < stop)
  {
    var l := Listing(m);
    RankSelects(m, k);
    RankRunExact(l, start, stop);
    if k in Members(RankRun(l, start, stop)) {
      var e :| e in RankRun(l, start, stop) && e.member == k;
      var i :| 0 <= i < |l| && start <= i < stop && l[i] == e;
      ListingUnique(l, m);
    }
  }

  /** The list's own rank and select undo each other: select at the rank of a present
      member is its node, and the rank of what is selected is where it was. */
  method SelectAtRank(zset: SortedSet, k: string) returns (rank: int, node: Node?)
    requires zset.Valid() && k in zset.View() && k != ""
    ensures rank == RankIn(zset.View(), k, false) + 1
    ensures node != null && node.element == Element(k, zset.View()[k])
  {
    var element := zset.Get(k);
    var list := zset.skiplist;
    MemberIndex(list.Elements(), zset.View(), k);
    rank := list.GetRank(k, element.value.score);
    node := list.GetByRank(rank);
  }

  method RankOfSelected(zset: SortedSet, i: int) returns (node: Node?, rank: int)
    requires zset.Valid()
    ensures node == null <==> !(0 <= i <= |zset.View()|)
    ensures node != null && node.element.member != "" ==> rank == i && 1 <= i
  {
    var list := zset.skiplist;
    ListingUnique(list.Elements(), zset.View());
    node := list.GetByRank(i);
    rank := 0;
    if node != null && node.element.member != "" {
      OneCarrier(list.Elements(), zset.View(), i - 1);
      rank := list.GetRank(node.element.member, node.element.score);
    }
  }

  /** The ranks of a member in the two directions add up to the size less one. */
  method BothRanks(zset: SortedSet, k: string) returns (up: int, down: int)
    requires zset.Valid() && k in zset.View()
    ensures up + down == |zset.View()| - 1
    ensures k != "" ==> up == RankIn(zset.View(), k, false) && down == RankIn(zset.View(), k, true)
  {
    up := zset.GetRank(k, false);
    down := zset.GetRank(k, true);
  }

  lemma MirroredSlices(l: seq<Element>, start: nat, stop: nat)
    requires start <= stop <= |l|
    ensures Directed(l, true)[start..stop] == Reversed(Directed(l, false)[|l| - stop..|l| - start])
  {
  }

  /** A descending range, walked along the backward links, is the mirrored ascending
      one, walked along the forward links, in reverse.  The two panic on the same
      arguments but for an empty range at an end. */
  method MirroredRanges(zset: SortedSet, start: int, stop: int)
    returns (down: Outcome<seq<Element>>, up: Outcome<seq<Element>>)
    requires zset.Valid()
    ensures down.Ok? && 0 < stop <==> up.Ok? && start < |zset.View()|
    ensures down.Ok? && up.Ok? ==> down.value == Reversed(up.value)
  {
    down := zset.Range(start, stop, true);
    var size := zset.Len();
    up := zset.Range(size - stop, size - start, false);
    ListingLists(zset.View());
    if down.Ok? && up.Ok? {
      MirroredSlices(Listing(zset.View()), start, stop);
    }
  }

  lemma SliceCount(l: seq<Element>, m: map<string, real>, c: nat, k: nat)
    requires Lists(l, m) && c + k <= |l|
    ensures |m - Members(l[c..][..k])| == |m| - k
  {
    CutoutLists(l, m, c, k);
    ListingUnique(Cutout(l, c, k), m - Members(l[c..][..k]));
    ListingUnique(l, m);
  }

  lemma MatchingCount(m: map<string, real>, min: ScoreBorder, max: ScoreBorder)
    ensures |Matching(Listing(m), min, max)| == |m| - |OutsideRange(m, min, max)|
  {
    var l := Listing(m);
    ListingLists(m);
    LimitedSlice(l, min, max, 0);
    RangeMembers(l, m, min, max);
    SliceCount(l, m, Start(l, min), |Matching(l, min, max)|);
  }

  /** With finite ends, the three traversals find the same elements: the count, the
      unlimited range in either direction, and what a removal takes away. */
  lemma TraversalsAgree(m: map<string, real>, min: ScoreBorder, max: ScoreBorder, desc: bool)
    requires min.Finite() && max.Finite()
    ensures var l := Listing(m);
            && ScoreRange(l, min, max, 0, -1, desc) == Directed(Matching(l, min, max), desc)
            && |ScoreRange(l, min, max, 0, -1, desc)| == |Matching(l, min, max)| == |m| - |OutsideRange(m, min, max)|
  {
    var l := Listing(m);
    ListingLists(m);
    FiniteRangeExact(l, min, max, 0, -1, desc);
    var found := Directed(Matching(l, min, max), desc);
    assert found[0..] == found;
    MatchingCount(m, min, max);
  }
}
