/** Whole runs of the user node cache: who is evicted. */
module CacheRuns {
  import opened Outcomes
  import opened Order
  import opened UserNodeCaches

  datatype Op = Set(uid: string, user: UserNodeInfo) | Get(uid: string) | Del(uid: string)

  ghost function After(c: Cache, maxSize: int, op: Op): Cache {
    match op
    case Set(uid, user) => AfterSet(c, maxSize, uid, user).0
    case Get(_) => c
    case Del(uid) => AfterDel(c, uid)
  }

  /** The cache after a run that starts empty. */
  ghost function AfterAll(ops: seq<Op>, maxSize: int): Cache {
    if ops == [] then Cache(map[], map[]) else After(AfterAll(ops[..|ops|-1], maxSize), maxSize, ops[|ops|-1])
  }

  method Perform(cache: UserNodeCache, op: Op)
    requires cache.Valid()
    modifies cache.Repr()
    ensures cache.Valid() && fresh(cache.Repr() - old(cache.Repr()))
    ensures cache.State() == After(old(cache.State()), cache.maxSize, op)
  {
    match op
    case Set(uid, user) => var ok := cache.Set(uid, user);
    case Get(uid) => var user := cache.Get(uid);
    case Del(uid) => var found := cache.Del(uid);
  }

  method PerformAll(cache: UserNodeCache, ops: seq<Op>)
    requires cache.Valid() && cache.State() == Cache(map[], map[])
    modifies cache.Repr()
    ensures cache.Valid() && fresh(cache.Repr() - old(cache.Repr()))
    ensures cache.State() == AfterAll(ops, cache.maxSize)
    decreases |ops|
  {
    if ops != [] {
      PerformAll(cache, ops[..|ops|-1]);
      Perform(cache, ops[|ops|-1]);
    }
  }

  /** The code does what the model says, over any run. */
  method Run(ops: seq<Op>, maxSize: int) returns (cache: UserNodeCache)
    ensures cache.Valid() && cache.State() == AfterAll(ops, maxSize)
  {
    cache := new UserNodeCache(maxSize);
    PerformAll(cache, ops);
  }

  /** The cache never outgrows its limit, and its two maps stay in step. */
  lemma {:induction false} AlwaysConsistent(ops: seq<Op>, maxSize: int)
    ensures Consistent(AfterAll(ops, maxSize), maxSize)
  {
    if ops != [] {
      var i := |ops| - 1;
      AlwaysConsistent(ops[..i], maxSize);
      match ops[i]
      case Set(uid, user) => SetConsistent(AfterAll(ops[..i], maxSize), maxSize, uid, user);
      case Get(_) =>
      case Del(uid) => DelConsistent(AfterAll(ops[..i], maxSize), maxSize, uid);
    }
  }

  /** The expiry time of the latest `Set` for a user, successful or not. */
  ghost function LatestSet(ops: seq<Op>, uid: string): Option<int> {
    if ops == [] then None else
      var op := ops[|ops|-1];
      if op.Set? && op.uid == uid then Some(op.user.expireTs) else LatestSet(ops[..|ops|-1], uid)
  }

  /** A cached user is filed under the expiry time of the latest `Set` for it. */
  lemma {:induction false} ScoreIsLatestSet(ops: seq<Op>, maxSize: int, uid: string)
    requires uid in AfterAll(ops, maxSize).scores
    ensures LatestSet(ops, uid).Some? && AfterAll(ops, maxSize).scores[uid] == Score(LatestSet(ops, uid).value)
  {
    var i := |ops| - 1;
    var c, op := AfterAll(ops[..i], maxSize), ops[i];
    AlwaysConsistent(ops[..i], maxSize);
    if !(op.Set? && op.uid == uid) {
      ScoreIsLatestSet(ops[..i], maxSize, uid);
    }
  }

  /** The call at i brought the user in, and it has been cached ever since. */
  ghost predicate EnteredAt(ops: seq<Op>, maxSize: int, uid: string, i: nat)
    requires i < |ops|
  {
    && ops[i].Set? && ops[i].uid == uid
    && uid !in AfterAll(ops[..i], maxSize).nodes
    && forall j :: i < j <= |ops| ==> uid in AfterAll(ops[..j], maxSize).nodes
  }

  lemma NodeStays(c: Cache, maxSize: int, op: Op, uid: string)
    requires Consistent(c, maxSize) && uid in After(c, maxSize, op).nodes
    ensures uid in c.nodes ==> After(c, maxSize, op).nodes[uid] == c.nodes[uid]
    ensures uid !in c.nodes ==> op.Set? && op.uid == uid && After(c, maxSize, op).nodes[uid] == op.user
  {
  }

  lemma EnteredStill(ops: seq<Op>, maxSize: int, uid: string, i: nat)
    requires i + 1 < |ops| && EnteredAt(ops[..|ops|-1], maxSize, uid, i) && uid in AfterAll(ops, maxSize).nodes
    ensures EnteredAt(ops, maxSize, uid, i)
  {
    var before := ops[..|ops|-1];
    assert before[..i] == ops[..i];
    forall j | i < j <= |ops| ensures uid in AfterAll(ops[..j], maxSize).nodes {
      if j == |ops| {
        assert ops[..j] == ops;
      } else {
        assert before[..j] == ops[..j];
      }
    }
  }

  lemma EnteredLast(ops: seq<Op>, maxSize: int, uid: string)
    requires ops != [] && uid in AfterAll(ops, maxSize).nodes
    requires uid !in AfterAll(ops[..|ops|-1], maxSize).nodes && ops[|ops|-1].Set? && ops[|ops|-1].uid == uid
    ensures EnteredAt(ops, maxSize, uid, |ops| - 1)
  {
    assert ops[..|ops|] == ops;
  }

  lemma LastNode(ops: seq<Op>, maxSize: int, uid: string)
    requires ops != [] && uid in AfterAll(ops, maxSize).nodes
    requires Consistent(AfterAll(ops[..|ops|-1], maxSize), maxSize)
    ensures var before, op := AfterAll(ops[..|ops|-1], maxSize), ops[|ops|-1];
            if uid in before.nodes then AfterAll(ops, maxSize).nodes[uid] == before.nodes[uid]
            else op.Set? && op.uid == uid && AfterAll(ops, maxSize).nodes[uid] == op.user
  {
    NodeStays(AfterAll(ops[..|ops|-1], maxSize), maxSize, ops[|ops|-1], uid);
  }

  /** The node of a cached user is that of the `Set` that brought it in: later ones,
      which fail, leave it alone. */
  lemma {:induction false} NodeIsAsEntered(ops: seq<Op>, maxSize: int, uid: string) returns (i: nat)
    requires uid in AfterAll(ops, maxSize).nodes
    ensures i < |ops| && EnteredAt(ops, maxSize, uid, i)
    ensures AfterAll(ops, maxSize).nodes[uid] == ops[i].user
  {
    var n := |ops| - 1;
    var before := AfterAll(ops[..n], maxSize);
    AlwaysConsistent(ops[..n], maxSize);
    LastNode(ops, maxSize, uid);
    if uid in before.nodes {
      i := NodeIsAsEntered(ops[..n], maxSize, uid);
      EnteredStill(ops, maxSize, uid, i);
    } else {
      i := n;
      EnteredLast(ops, maxSize, uid);
    }
  }

  /** A new user in a full cache takes the place of exactly one: the one whose
      latest expiry time is least, the lesser uid among equals. */
  lemma VictimIsLeast(ops: seq<Op>, maxSize: int, uid: string, user: UserNodeInfo)
    requires uid !in AfterAll(ops, maxSize).nodes && 0 < maxSize <= |AfterAll(ops, maxSize).scores|
    ensures var c, c' := AfterAll(ops, maxSize), AfterAll(ops + [Set(uid, user)], maxSize);
            exists victim ::
              && victim in c.nodes && c'.nodes == (c.nodes - {victim})[uid := user]
              && forall other :: other in c.nodes && other != victim ==>
                var tv, to := LatestSet(ops, victim), LatestSet(ops, other);
                tv.Some? && to.Some? && (tv.value < to.value || (tv.value == to.value && StringLess(victim, other)))
  {
    var c := AfterAll(ops, maxSize);
    AlwaysConsistent(ops, maxSize);
    assert (ops + [Set(uid, user)])[..|ops|] == ops;
    PopOne(c.scores);
    ListingLists(c.scores);
    var l := Listing(c.scores);
    var victim := l[0].member;
    assert l[0] in l;
    forall other | other in c.nodes && other != victim
      ensures Before(l[0], Element(other, c.scores[other])) && LatestSet(ops, other).Some? &&
              LatestSet(ops, victim).Some?
      ensures c.scores[other] == Score(LatestSet(ops, other).value) &&
              c.scores[victim] == Score(LatestSet(ops, victim).value)
    {
      ScoreIsLatestSet(ops, maxSize, other);
      ScoreIsLatestSet(ops, maxSize, victim);
      assert Element(other, c.scores[other]) in l;
      var i :| 0 <= i < |l| && l[i] == Element(other, c.scores[other]);
      assert Before(l[0], l[i]);
    }
  }

  // -------------------------------------------------- least recently set

  /** `l` without the first `uid`. */
  ghost function Minus(l: seq<string>, uid: string): seq<string> {
    if l == [] then [] else if l[0] == uid then l[1..] else [l[0]] + Minus(l[1..], uid)
  }

  /** A bounded list of users, the least recently set first. */
  ghost function AfterRecency(l: seq<string>, maxSize: int, op: Op): seq<string> {
    match op
    case Set(uid, _) =>
      if uid in l then Minus(l, uid) + [uid]
      else if |l| < maxSize then l + [uid]
      else if l == [] then []
      else l[1..] + [uid]
    case Get(_) => l
    case Del(uid) => Minus(l, uid)
  }

  ghost function Recency(ops: seq<Op>, maxSize: int): seq<string> {
    if ops == [] then [] else AfterRecency(Recency(ops[..|ops|-1], maxSize), maxSize, ops[|ops|-1])
  }

  /** Every `Set` carries a later expiry time than all before it. */
  ghost predicate Increasing(ops: seq<Op>) {
    forall i, j :: 0 <= i < j < |ops| && ops[i].Set? && ops[j].Set? ==> ops[i].user.expireTs < ops[j].user.expireTs
  }

  ghost function Uids(s: seq<Element>): seq<string> {
    seq(|s|, i requires 0 <= i < |s| => s[i].member)
  }

  lemma {:induction false} MinusAt(l: seq<string>, i: nat)
    requires i < |l| && forall j :: 0 <= j < i ==> l[j] != l[i]
    ensures Minus(l, l[i]) == l[..i] + l[i+1..]
  {
    if i > 0 {
      MinusAt(l[1..], i - 1);
    }
  }

  lemma {:induction false} MinusAbsent(l: seq<string>, uid: string)
    requires uid !in l
    ensures Minus(l, uid) == l
  {
    if l != [] {
      MinusAbsent(l[1..], uid);
    }
  }

  /** A score above all others is listed last. */
  lemma AppendLists(s: seq<Element>, m: map<string, real>, k: string, v: real)
    requires Lists(s, m) && k !in m && forall j :: j in m ==> m[j] < v
    ensures Lists(s + [Element(k, v)], m[k := v])
  {
    var t := s + [Element(k, v)];
    forall i, j | 0 <= i < j < |t| ensures Before(t[i], t[j]) {
      assert t[i] in s;
      assert j < |s| ==> Before(s[i], s[j]);
    }
  }

  lemma ListedAt(m: map<string, real>, k: string) returns (i: nat)
    requires k in m
    ensures i < |m| && Listing(m)[i] == Element(k, m[k])
    ensures Uids(Drop(Listing(m), i)) == Minus(Uids(Listing(m)), k)
  {
    var s := Listing(m);
    ListingLists(m);
    assert Element(k, m[k]) in s;
    i :| 0 <= i < |s| && s[i] == Element(k, m[k]);
    forall j | 0 <= j < i ensures Uids(s)[j] != Uids(s)[i] {
      BeforeIsTotalOrder(s[j], s[i], s[j]);
      assert Before(s[j], s[i]) && s[j] in s && s[i] in s;
    }
    MinusAt(Uids(s), i);
  }

  lemma AppendLast(m: map<string, real>, k: string, v: real)
    requires k !in m && forall j :: j in m ==> m[j] < v
    ensures Uids(Listing(m[k := v])) == Uids(Listing(m)) + [k]
  {
    var s := Listing(m);
    ListingLists(m);
    AppendLists(s, m, k, v);
    ListingUnique(s + [Element(k, v)], m[k := v]);
    assert Uids(s + [Element(k, v)]) == Uids(s) + [k];
  }

  lemma UidsMembers(m: map<string, real>, uid: string)
    ensures uid in Uids(Listing(m)) <==> uid in m
  {
    var s := Listing(m);
    ListingLists(m);
    if uid in m {
      assert Element(uid, m[uid]) in s;
      var i :| 0 <= i < |s| && s[i] == Element(uid, m[uid]);
      assert Uids(s)[i] == uid;
    }
    if uid in Uids(s) {
      var i :| 0 <= i < |s| && Uids(s)[i] == uid;
      assert s[i] in s;
    }
  }

  lemma DelInStep(m: map<string, real>, uid: string)
    ensures Uids(Listing(m - {uid})) == Minus(Uids(Listing(m)), uid)
  {
    UidsMembers(m, uid);
    if uid in m {
      var i := ListedAt(m, uid);
      ListingLists(m);
      DropLists(Listing(m), m, i);
      ListingUnique(Drop(Listing(m), i), m - {uid});
    } else {
      MinusAbsent(Uids(Listing(m)), uid);
      assert m - {uid} == m;
    }
  }

  /** A member given the highest score moves to the end of the listing. */
  lemma MoveLast(m: map<string, real>, k: string, v: real)
    requires k in m && forall j :: j in m ==> m[j] < v
    ensures Uids(Listing(m[k := v])) == Minus(Uids(Listing(m)), k) + [k]
  {
    DelInStep(m, k);
    AppendLast(m - {k}, k, v);
    assert (m - {k})[k := v] == m[k := v];
  }

  lemma ReplaceFirst(m: map<string, real>, k: string, v: real)
    requires m != map[] && k !in m && forall j :: j in m ==> m[j] < v
    ensures var s := Listing(m); Uids(Listing((m - {s[0].member})[k := v])) == Uids(s)[1..] + [k]
  {
    var s := Listing(m);
    PopOne(m);
    DelInStep(m, s[0].member);
    AppendLast(m - {s[0].member}, k, v);
  }

  /** A `Set` with the latest time of all keeps cache and recency list in step. */
  lemma SetInStep(c: Cache, maxSize: int, uid: string, user: UserNodeInfo)
    requires Consistent(c, maxSize) && forall k :: k in c.scores ==> c.scores[k] < Score(user.expireTs)
    ensures Uids(Listing(AfterSet(c, maxSize, uid, user).0.scores)) ==
            AfterRecency(Uids(Listing(c.scores)), maxSize, Set(uid, user))
  {
    var m, v := c.scores, Score(user.expireTs);
    UidsMembers(m, uid);
    if uid in m {
      MoveLast(m, uid, v);
    } else if |m| < maxSize {
      AppendLast(m, uid, v);
    } else if m != map[] {
      ReplaceFirst(m, uid, v);
    }
  }

  lemma {:induction false} LatestSetIsThere(ops: seq<Op>, uid: string)
    requires LatestSet(ops, uid).Some?
    ensures exists i :: 0 <= i < |ops| && ops[i].Set? && ops[i].user.expireTs == LatestSet(ops, uid).value
  {
    var op := ops[|ops|-1];
    if !(op.Set? && op.uid == uid) {
      LatestSetIsThere(ops[..|ops|-1], uid);
      var i :| 0 <= i < |ops| - 1 && ops[i].Set? && ops[i].user.expireTs == LatestSet(ops, uid).value;
    }
  }

  /** The cache is a bounded list of users by recency of `Set`, as long as expiry
      times increase: the listing of the sorted set is that list, so the user
      evicted is the one least recently set, failed calls included. */
  lemma {:induction false} EvictsLeastRecentlySet(ops: seq<Op>, maxSize: int)
    requires Increasing(ops)
    ensures Uids(Listing(AfterAll(ops, maxSize).scores)) == Recency(ops, maxSize)
  {
    if ops == [] {
      assert |Listing(map[])| == 0;
    } else {
      var i := |ops| - 1;
      var c := AfterAll(ops[..i], maxSize);
      EvictsLeastRecentlySet(ops[..i], maxSize);
      AlwaysConsistent(ops[..i], maxSize);
      match ops[i]
      case Set(uid, user) =>
        forall k | k in c.scores ensures c.scores[k] < Score(user.expireTs) {
          ScoreIsLatestSet(ops[..i], maxSize, k);
          LatestSetIsThere(ops[..i], k);
        }
        SetInStep(c, maxSize, uid, user);
      case Get(_) =>
      case Del(uid) => DelInStep(c.scores, uid);
    }
  }
}
