/** The gateway's table of user connections: a map of records beside a sorted set of
    the times from which a connection counts as timed out. */
module UserConnMgrs {
  import opened Outcomes
  import opened Order
  import opened Borders
  import opened Ranges
  import opened Visits
  import opened SortedSets
  import opened SetRuns
  import opened MapSizes

  datatype UserConnInfo = UserConnInfo(uid: string, channelId: string, connectTs: int, expireTs: int)

  datatype AddError = UidAlreadyExists | ExceedMaxConnLimit | AddUserConnFail

  datatype Table = Table(scores: map<string, real>, conns: map<string, UserConnInfo>)

  datatype Limits = Limits(maxConnSize: int, connTimeoutSec: int) {
    /** When a connection that is alive now times out. */
    function ExpireTs(now: int): int {
      now + connTimeoutSec
    }
  }

  /** Both maps hold the same users, no more than the limit; every record is filed
      under its own uid. */
  ghost predicate Consistent(t: Table, maxConnSize: int) {
    && t.scores.Keys == t.conns.Keys
    && (|t.scores| <= maxConnSize || t.scores == map[])
    && forall uid {:trigger t.conns[uid]} :: uid in t.conns ==> t.conns[uid].uid == uid
  }

  /** What the part of `AddUserConn` after the checks does; with both maps in step
      it cannot fail any more. */
  ghost function Entered(t: Table, lim: Limits, uid: string, channelId: string, now: int): (Table, Option<AddError>) {
    var scores := t.scores[uid := Score(now)];
    if uid in t.scores then (Table(scores, t.conns), Some(AddUserConnFail))
    else (Table(scores, t.conns[uid := UserConnInfo(uid, channelId, now, lim.ExpireTs(now))]), None)
  }

  ghost function AfterAdd(t: Table, lim: Limits, uid: string, channelId: string, now: int): (Table, Option<AddError>) {
    if uid in t.conns then (t, Some(UidAlreadyExists))
    else if |t.scores| >= lim.maxConnSize then (t, Some(ExceedMaxConnLimit))
    else Entered(t, lim, uid, channelId, now)
  }

  ghost function AfterRemove(t: Table, uid: string): Table {
    Table(t.scores - {uid}, t.conns - {uid})
  }

  /** A refresh moves the time of a user in the table, and nothing in the record. */
  ghost function AfterRefresh(t: Table, lim: Limits, uid: string, now: int): Table {
    if uid in t.conns then Table(t.scores[uid := Score(lim.ExpireTs(now))], t.conns) else t
  }

  function Since(): ScoreBorder { ScoreBorder(0, 0.0, false) }

  function Until(now: int): ScoreBorder { ScoreBorder(0, Score(now), false) }

  /** The entries an elimination at time `now` takes. */
  ghost function Expired(t: Table, now: int): seq<Element> {
    Matching(Listing(t.scores), Since(), Until(now))
  }

  /** The table after some users were dropped one by one. */
  ghost function Dropped(t: Table, s: seq<Element>): Table {
    if s == [] then t else AfterRemove(Dropped(t, s[..|s|-1]), s[|s|-1].member)
  }

  lemma LessAndLess<V>(m: map<string, V>, ks: set<string>, k: string)
    ensures m - ks - {k} == m - (ks + {k})
  {
  }

  lemma {:induction false} DroppedMembers(t: Table, s: seq<Element>)
    ensures Dropped(t, s) == Table(t.scores - Members(s), t.conns - Members(s))
  {
    if s == [] {
      assert t.scores - {} == t.scores && t.conns - {} == t.conns && Members(s) == {};
    } else {
      var i := |s| - 1;
      DroppedMembers(t, s[..i]);
      MembersStep(s, i);
      assert s[..i+1] == s;
      LessAndLess(t.scores, Members(s[..i]), s[i].member);
      LessAndLess(t.conns, Members(s[..i]), s[i].member);
    }
  }

  lemma DroppedStep(t: Table, s: seq<Element>, i: nat)
    requires i < |s|
    ensures Dropped(t, s[..i+1]) == AfterRemove(Dropped(t, s[..i]), s[i].member)
  {
    assert s[..i+1][..i] == s[..i];
  }

  /** Dropping them one by one, each is still there when its turn comes. */
  lemma {:induction false} StillThere(t: Table, s: seq<Element>, i: nat)
    requires i < |s| && s[i].member in t.conns
    requires forall j :: 0 <= j < i ==> s[j].member != s[i].member
    ensures s[i].member in Dropped(t, s[..i]).conns && Dropped(t, s[..i]).conns[s[i].member] == t.conns[s[i].member]
  {
    DroppedMembers(t, s[..i]);
  }

  ghost function AfterEliminate(t: Table, now: int): Table {
    Table(t.scores - Members(Expired(t, now)), t.conns - Members(Expired(t, now)))
  }

  /** The records of some entries. */
  ghost function Records(conns: map<string, UserConnInfo>, s: seq<Element>): (r: seq<UserConnInfo>)
    requires forall e :: e in s ==> e.member in conns
    ensures |r| == |s| && forall i :: 0 <= i < |s| ==> r[i] == conns[s[i].member]
  {
    seq(|s|, i requires 0 <= i < |s| => conns[s[i].member])
  }

  /** An elimination takes exactly the users whose time lies between 0 and `now`. */
  lemma ExpiredMembers(t: Table, now: int)
    ensures forall uid :: uid in Members(Expired(t, now)) <==> uid in t.scores && 0.0 <= t.scores[uid] <= Score(now)
    ensures Expired(t, now) == ScoreRange(Listing(t.scores), Since(), Until(now), 0, -1, false)
  {
    var l := Listing(t.scores);
    ListingLists(t.scores);
    MatchingElements(l, Since(), Until(now));
    forall uid | uid in t.scores ensures uid in Members(Expired(t, now)) <==> 0.0 <= t.scores[uid] <= Score(now) {
      assert Element(uid, t.scores[uid]) in l;
    }
    TraversalsAgree(t.scores, Since(), Until(now), false);
  }

  /** What an addition does, refusal by refusal. */
  lemma AddExact(t: Table, lim: Limits, uid: string, channelId: string, now: int)
    requires Consistent(t, lim.maxConnSize)
    ensures var (t', err) := AfterAdd(t, lim, uid, channelId, now);
            && (err == Some(UidAlreadyExists) <==> uid in t.conns)
            && (err == Some(ExceedMaxConnLimit) <==> uid !in t.conns && |t.conns| >= lim.maxConnSize)
            && (err == None <==> uid !in t.conns && |t.conns| < lim.maxConnSize)
            && (err != None ==> t' == t)
            && (err == None ==> t'.scores == t.scores[uid := now as real])
            && (err == None ==> t'.conns == t.conns[uid := UserConnInfo(uid, channelId, now, now + lim.connTimeoutSec)])
  {
    assert |t.scores| == |t.scores.Keys| && |t.conns| == |t.conns.Keys|;
  }

  lemma RemoveExact(t: Table, uid: string)
    ensures var t' := AfterRemove(t, uid);
            && (forall u :: u in t'.conns <==> u in t.conns && u != uid)
            && (forall u :: u in t'.scores <==> u in t.scores && u != uid)
            && (forall u :: u in t'.conns ==> t'.conns[u] == t.conns[u])
            && (forall u :: u in t'.scores ==> t'.scores[u] == t.scores[u])
  {
  }

  lemma RefreshExact(t: Table, lim: Limits, uid: string, now: int)
    ensures var t' := AfterRefresh(t, lim, uid, now);
            && t'.conns == t.conns
            && t'.scores == if uid in t.conns then t.scores[uid := (now + lim.connTimeoutSec) as real] else t.scores
  {
  }

  lemma AddConsistent(t: Table, lim: Limits, uid: string, channelId: string, now: int)
    requires Consistent(t, lim.maxConnSize)
    ensures Consistent(AfterAdd(t, lim, uid, channelId, now).0, lim.maxConnSize)
  {
    SizeWith(t.scores, uid, Score(now));
  }

  lemma RemoveConsistent(t: Table, maxConnSize: int, uid: string)
    requires Consistent(t, maxConnSize)
    ensures Consistent(AfterRemove(t, uid), maxConnSize)
    ensures uid !in t.conns ==> AfterRemove(t, uid) == t
  {
    SizeWithout(t.scores, uid);
    if uid !in t.conns {
      assert t.scores - {uid} == t.scores && t.conns - {uid} == t.conns;
    }
  }

  lemma RefreshConsistent(t: Table, lim: Limits, uid: string, now: int)
    requires Consistent(t, lim.maxConnSize)
    ensures Consistent(AfterRefresh(t, lim, uid, now), lim.maxConnSize)
  {
    SizeWith(t.scores, uid, Score(lim.ExpireTs(now)));
  }

  lemma ExpiredDistinct(t: Table, now: int)
    ensures forall i, j :: 0 <= i < j < |Expired(t, now)| ==> Expired(t, now)[i].member != Expired(t, now)[j].member
  {
    var l := Listing(t.scores);
    ListingLists(t.scores);
    LimitedSlice(l, Since(), Until(now), 0);
    var c := Start(l, Since());
    forall i, j | 0 <= i < j < |Expired(t, now)| ensures Expired(t, now)[i].member != Expired(t, now)[j].member {
      OneCarrier(l, t.scores, c + i);
      assert l[c+j].member == l[c+i].member ==> c + j == c + i;
    }
  }

  lemma EliminateConsistent(t: Table, maxConnSize: int, now: int)
    requires Consistent(t, maxConnSize)
    ensures Consistent(AfterEliminate(t, now), maxConnSize)
    ensures forall e :: e in Expired(t, now) ==> e.member in t.conns
    ensures forall i, j :: 0 <= i < j < |Expired(t, now)| ==> Expired(t, now)[i].member != Expired(t, now)[j].member
  {
    ExpiredMembers(t, now);
    ExpiredDistinct(t, now);
    SizeLess(t.scores, Members(Expired(t, now)));
  }

  /** The part of `AddUserConn` after the checks. */
  method Enter(zset: SortedSet, conns: map<string, UserConnInfo>, lim: Limits, uid: string, channelId: string, now: int)
    returns (conns': map<string, UserConnInfo>, err: Option<AddError>)
    requires zset.Valid()
    modifies zset.Repr()
    ensures zset.Valid() && fresh(zset.Repr() - old(zset.Repr()))
    ensures (Table(zset.View(), conns'), err) == Entered(Table(old(zset.View()), conns), lim, uid, channelId, now)
  {
    var added := zset.Add(uid, Score(now));
    if !added {
      return conns, Some(AddUserConnFail);
    }
    return conns[uid := UserConnInfo(uid, channelId, now, lim.ExpireTs(now))], None;
  }

  /** The part of `RefreshUserConn` for a user in the table. */
  method Touch(zset: SortedSet, conns: map<string, UserConnInfo>, uid: string, expireTs: int)
    returns (conns': map<string, UserConnInfo>, ok: bool)
    requires zset.Valid() && uid in conns
    modifies zset.Repr()
    ensures zset.Valid() && fresh(zset.Repr() - old(zset.Repr()))
    ensures zset.View() == old(zset.View())[uid := Score(expireTs)]
    ensures ok <==> uid !in old(zset.View())
    ensures ok ==> conns' == conns[uid := conns[uid].(expireTs := expireTs)]
    ensures !ok ==> conns' == conns
  {
    var added := zset.Add(uid, Score(expireTs));
    if !added {
      return conns, false;
    }
    return conns[uid := conns[uid].(expireTs := expireTs)], true;
  }

  class UserConnMgr {
    const zsetUid: SortedSet
    var userConns: map<string, UserConnInfo>
    const lim: Limits

    ghost function State(): Table
      reads this, zsetUid
    {
      Table(zsetUid.View(), userConns)
    }

    ghost predicate Valid()
      reads this, zsetUid, zsetUid.skiplist, zsetUid.skiplist.header, zsetUid.skiplist.all
    {
      zsetUid.Valid() && Consistent(State(), lim.maxConnSize)
    }

    ghost function Repr(): set<object>
      reads this, zsetUid, zsetUid.skiplist
    {
      {this} + zsetUid.Repr()
    }

    constructor (lim: Limits)
      ensures Valid() && State() == Table(map[], map[]) && this.lim == lim && fresh(Repr())
    {
      this.zsetUid := new SortedSet();
      this.userConns := map[];
      this.lim := lim;
    }

    method GetCount() returns (count: int)
      requires Valid()
      ensures count == |State().conns|
    {
      count := zsetUid.Len();
      assert State().scores.Keys == State().conns.Keys;
      assert |State().scores| == |State().scores.Keys| && |State().conns| == |State().conns.Keys|;
    }

    method AddUserConn(uid: string, channelId: string, now: int) returns (err: Option<AddError>)
      requires Valid()
      modifies Repr()
      ensures Valid() && fresh(Repr() - old(Repr()))
      ensures (State(), err) == AfterAdd(old(State()), lim, uid, channelId, now)
    {
      AddConsistent(State(), lim, uid, channelId, now);
      var count := zsetUid.Len();
      if uid in userConns {
        return Some(UidAlreadyExists);
      }
      if count >= lim.maxConnSize {
        return Some(ExceedMaxConnLimit);
      }
      userConns, err := Enter(zsetUid, userConns, lim, uid, channelId, now);
    }

    /** Takes a user out of the sorted set and, if it was there, out of the map. */
    method DropUser(uid: string) returns (removed: bool)
      requires zsetUid.Valid()
      modifies Repr()
      ensures zsetUid.Valid() && Repr() <= old(Repr())
      ensures removed <==> uid in old(State()).scores
      ensures zsetUid.View() == old(zsetUid.View()) - {uid}
      ensures removed ==> userConns == old(userConns) - {uid}
      ensures !removed ==> userConns == old(userConns)
    {
      removed := zsetUid.Remove(uid);
      if removed {
        userConns := userConns - {uid};
      }
    }

    method RemoveUserConn(uid: string) returns (removed: bool)
      requires Valid()
      modifies Repr()
      ensures Valid() && Repr() <= old(Repr())
      ensures State() == AfterRemove(old(State()), uid)
      ensures removed <==> uid in old(State()).conns
    {
      ghost var was := State();
      RemoveConsistent(was, lim.maxConnSize, uid);
      removed := DropUser(uid);
      assert userConns == AfterRemove(was, uid).conns;
    }

    /** Moves the time of a user.  The sorted set reports that it only moved an
        entry, so the record keeps its time and the call reports failure, always. */
    method RefreshUserConn(uid: string, now: int) returns (ok: bool)
      requires Valid()
      modifies Repr()
      ensures Valid() && fresh(Repr() - old(Repr()))
      ensures State() == AfterRefresh(old(State()), lim, uid, now)
      ensures !ok
    {
      RefreshConsistent(State(), lim, uid, now);
      if uid !in userConns {
        return false;
      }
      userConns, ok := Touch(zsetUid, userConns, uid, lim.ExpireTs(now));
    }

    method GetChannelId(uid: string) returns (channelId: Option<string>)
      requires Valid()
      ensures channelId == if uid in State().scores then Some(State().conns[uid].channelId) else None
    {
      channelId := if uid in userConns then Some(userConns[uid].channelId) else None;
    }

    /** The entries to eliminate. */
    method ListExpired(now: int) returns (elems: seq<Element>)
      requires zsetUid.Valid()
      ensures elems == Expired(State(), now)
    {
      ExpiredMembers(State(), now);
      elems := zsetUid.RangeByScore(Since(), Until(now), 0, -1, false);
    }

    /** The body of the elimination loop, after the record was copied. */
    method DropListed(uid: string)
      requires zsetUid.Valid()
      modifies Repr()
      ensures zsetUid.Valid() && Repr() <= old(Repr())
      ensures State() == AfterRemove(old(State()), uid)
    {
      var removed := zsetUid.Remove(uid);
      userConns := userConns - {uid};
    }

    /** The loop of the elimination. */
    method DropAll(elems: seq<Element>) returns (users: seq<UserConnInfo>)
      requires zsetUid.Valid()
      requires forall e :: e in elems ==> e.member in State().conns
      requires forall i, j :: 0 <= i < j < |elems| ==> elems[i].member != elems[j].member
      modifies Repr()
      ensures zsetUid.Valid() && Repr() <= old(Repr())
      ensures State() == Dropped(old(State()), elems)
      ensures users == Records(old(State()).conns, elems)
    {
      ghost var t := State();
      users := [];
      for i := 0 to |elems|
        invariant zsetUid.Valid() && Repr() <= old(Repr())
        invariant State() == Dropped(t, elems[..i])
        invariant users == Records(t.conns, elems)[..i]
      {
        StillThere(t, elems, i);
        DroppedStep(t, elems, i);
        users := users + [userConns[elems[i].member]];
        DropListed(elems[i].member);
      }
      assert elems[..|elems|] == elems;
    }

    /** Removes the users whose time has come and returns their records, in the
        order of their times. */
    method EliminateTimeoutUserConns(now: int) returns (users: seq<UserConnInfo>)
      requires Valid()
      modifies Repr()
      ensures Valid() && Repr() <= old(Repr())
      ensures State() == AfterEliminate(old(State()), now)
      ensures (forall e :: e in Expired(old(State()), now) ==> e.member in old(State()).conns)
              && users == Records(old(State()).conns, Expired(old(State()), now))
    {
      ghost var t := State();
      EliminateConsistent(t, lim.maxConnSize, now);
      var elems := ListExpired(now);
      users := DropAll(elems);
      DroppedMembers(t, elems);
    }
  }
}
