/** Whole runs of the gateway's connection table: who times out, and when. */
module ConnRuns {
  import opened Order
  import opened Outcomes
  import opened SortedSets
  import opened UserConnMgrs

  datatype Event =
    | Add(uid: string, channelId: string, now: int)
    | Remove(uid: string)
    | Refresh(uid: string, now: int)
    | Eliminate(now: int)
    | Look(uid: string)

  ghost function After(t: Table, lim: Limits, ev: Event): Table {
    match ev
    case Add(uid, channelId, now) => AfterAdd(t, lim, uid, channelId, now).0
    case Remove(uid) => AfterRemove(t, uid)
    case Refresh(uid, now) => AfterRefresh(t, lim, uid, now)
    case Eliminate(now) => AfterEliminate(t, now)
    case Look(_) => t
  }

  /** The table after a run from some table. */
  ghost function AfterAll(t: Table, lim: Limits, evs: seq<Event>): Table {
    if evs == [] then t else After(AfterAll(t, lim, evs[..|evs|-1]), lim, evs[|evs|-1])
  }

  method Perform(mgr: UserConnMgr, ev: Event)
    requires mgr.Valid()
    modifies mgr.Repr()
    ensures mgr.Valid() && fresh(mgr.Repr() - old(mgr.Repr()))
    ensures mgr.State() == After(old(mgr.State()), mgr.lim, ev)
  {
    match ev
    case Add(uid, channelId, now) => var err := mgr.AddUserConn(uid, channelId, now);
    case Remove(uid) => var removed := mgr.RemoveUserConn(uid);
    case Refresh(uid, now) => var ok := mgr.RefreshUserConn(uid, now);
    case Eliminate(now) => var users := mgr.EliminateTimeoutUserConns(now);
    case Look(uid) => var channelId := mgr.GetChannelId(uid);
  }

  /** A user just added is found under its channel. */
  method AddThenLook(mgr: UserConnMgr, uid: string, channelId: string, now: int)
    returns (err: Option<AddError>, found: Option<string>)
    requires mgr.Valid()
    modifies mgr.Repr()
    ensures mgr.Valid()
    ensures err.None? <==> uid !in old(mgr.State()).conns && |old(mgr.State()).conns| < mgr.lim.maxConnSize
    ensures err.None? ==> found == Some(channelId)
  {
    AddExact(mgr.State(), mgr.lim, uid, channelId, now);
    err := mgr.AddUserConn(uid, channelId, now);
    found := mgr.GetChannelId(uid);
  }

  method PerformAll(mgr: UserConnMgr, evs: seq<Event>)
    requires mgr.Valid() && mgr.State() == Table(map[], map[])
    modifies mgr.Repr()
    ensures mgr.Valid() && fresh(mgr.Repr() - old(mgr.Repr()))
    ensures mgr.State() == AfterAll(Table(map[], map[]), mgr.lim, evs)
    decreases |evs|
  {
    if evs != [] {
      PerformAll(mgr, evs[..|evs|-1]);
      Perform(mgr, evs[|evs|-1]);
    }
  }

  /** The code does what the model says, over any run. */
  method Run(evs: seq<Event>, lim: Limits) returns (mgr: UserConnMgr)
    ensures mgr.Valid() && mgr.State() == AfterAll(Table(map[], map[]), lim, evs)
  {
    mgr := new UserConnMgr(lim);
    PerformAll(mgr, evs);
  }

  lemma StepConsistent(t: Table, lim: Limits, ev: Event)
    requires Consistent(t, lim.maxConnSize)
    ensures Consistent(After(t, lim, ev), lim.maxConnSize)
  {
    match ev
    case Add(uid, channelId, now) => AddConsistent(t, lim, uid, channelId, now);
    case Remove(uid) => RemoveConsistent(t, lim.maxConnSize, uid);
    case Refresh(uid, now) => RefreshConsistent(t, lim, uid, now);
    case Eliminate(now) => EliminateConsistent(t, lim.maxConnSize, now);
    case Look(_) =>
  }

  /** Over any run the two maps hold the same users, no more than the limit. */
  lemma {:induction false} AlwaysConsistent(t: Table, lim: Limits, evs: seq<Event>)
    requires Consistent(t, lim.maxConnSize)
    ensures Consistent(AfterAll(t, lim, evs), lim.maxConnSize)
  {
    if evs != [] {
      AlwaysConsistent(t, lim, evs[..|evs|-1]);
      StepConsistent(AfterAll(t, lim, evs[..|evs|-1]), lim, evs[|evs|-1]);
    }
  }

  /** The user is in the table, to be eliminated from time `due` on. */
  ghost predicate DueAt(t: Table, uid: string, due: int) {
    uid in t.conns && uid in t.scores && t.scores[uid] == Score(due)
  }

  /** The event neither removes nor refreshes the user, and is no elimination that
      reaches its time. */
  ghost predicate Spares(ev: Event, uid: string, due: int) {
    match ev
    case Remove(u) => u != uid
    case Refresh(u, _) => u != uid
    case Eliminate(now) => !(0 <= due <= now)
    case _ => true
  }

  lemma SparedStep(t: Table, lim: Limits, ev: Event, uid: string, due: int)
    requires Consistent(t, lim.maxConnSize) && DueAt(t, uid, due) && Spares(ev, uid, due)
    ensures DueAt(After(t, lim, ev), uid, due) && After(t, lim, ev).conns[uid] == t.conns[uid]
  {
    if ev.Eliminate? {
      ExpiredMembers(t, ev.now);
    }
  }

  /** Through any events that spare it, a user keeps its time and its record. */
  lemma {:induction false} SparedStays(t: Table, lim: Limits, evs: seq<Event>, uid: string, due: int)
    requires Consistent(t, lim.maxConnSize) && DueAt(t, uid, due)
    requires forall i :: 0 <= i < |evs| ==> Spares(evs[i], uid, due)
    ensures DueAt(AfterAll(t, lim, evs), uid, due) && AfterAll(t, lim, evs).conns[uid] == t.conns[uid]
  {
    if evs != [] {
      var i := |evs| - 1;
      SparedStays(t, lim, evs[..i], uid, due);
      AlwaysConsistent(t, lim, evs[..i]);
      SparedStep(AfterAll(t, lim, evs[..i]), lim, evs[i], uid, due);
    }
  }

  /** Whether an elimination takes a user depends on its time alone. */
  lemma EliminatedWhenDue(t: Table, uid: string, due: int, now: int)
    requires DueAt(t, uid, due)
    ensures uid in Members(Expired(t, now)) <==> 0 <= due <= now
    ensures uid in AfterEliminate(t, now).conns <==> !(0 <= due <= now)
  {
    ExpiredMembers(t, now);
  }

  /** A user refreshed at time `t0`, and neither removed nor refreshed since, is still
      there, with its old record, as long as eliminations come before the timeout;
      the next elimination takes it exactly if it comes at the timeout or later. */
  lemma RefreshedLastsUntilTimeout(t: Table, lim: Limits, uid: string, t0: int, evs: seq<Event>, now: int)
    requires Consistent(t, lim.maxConnSize) && uid in t.conns && 0 <= t0 + lim.connTimeoutSec
    requires forall i :: 0 <= i < |evs| ==> Spares(evs[i], uid, t0 + lim.connTimeoutSec)
    ensures var t' := AfterAll(AfterRefresh(t, lim, uid, t0), lim, evs);
            && uid in t'.conns && t'.conns[uid] == t.conns[uid]
            && (uid in Members(Expired(t', now)) <==> t0 + lim.connTimeoutSec <= now)
  {
    var due := t0 + lim.connTimeoutSec;
    RefreshConsistent(t, lim, uid, t0);
    SparedStays(AfterRefresh(t, lim, uid, t0), lim, evs, uid, due);
    EliminatedWhenDue(AfterAll(AfterRefresh(t, lim, uid, t0), lim, evs), uid, due, now);
  }

  /** A user that was added at time `t0` and not refreshed since goes with the next
      elimination at `t0` or later, although its record promises it the timeout. */
  lemma AddedGoesAtOnce(t: Table, lim: Limits, uid: string, channelId: string, t0: int, evs: seq<Event>, now: int)
    requires Consistent(t, lim.maxConnSize) && uid !in t.conns && |t.scores| < lim.maxConnSize && 0 <= t0
    requires forall i :: 0 <= i < |evs| ==> Spares(evs[i], uid, t0)
    ensures var t' := AfterAll(AfterAdd(t, lim, uid, channelId, t0).0, lim, evs);
            && uid in t'.conns && t'.conns[uid] == UserConnInfo(uid, channelId, t0, t0 + lim.connTimeoutSec)
            && (uid in Members(Expired(t', now)) <==> t0 <= now)
  {
    AddConsistent(t, lim, uid, channelId, t0);
    SparedStays(AfterAdd(t, lim, uid, channelId, t0).0, lim, evs, uid, t0);
    EliminatedWhenDue(AfterAll(AfterAdd(t, lim, uid, channelId, t0).0, lim, evs), uid, t0, now);
  }
}
