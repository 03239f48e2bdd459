/** The bounded cache of user nodes: a map of nodes beside a sorted set of expiry
    times, from which the least one is evicted when the cache is full. */
module UserNodeCaches {
  import opened Outcomes
  import opened Order
  import opened SortedSets
  import opened MapSizes

  datatype UserNode = UserNode(uid: string, serviceId: string, host: string, port: int)

  datatype UserNodeInfo = UserNodeInfo(userNode: UserNode, expireTs: int)

  datatype Cache = Cache(scores: map<string, real>, nodes: map<string, UserNodeInfo>)

  /** Both maps hold the same users, no more than the limit. */
  ghost predicate Consistent(c: Cache, maxSize: int) {
    c.scores.Keys == c.nodes.Keys && (|c.scores| <= maxSize || c.scores == map[])
  }

  /** The cache without its least entry, by expiry time and then by uid. */
  ghost function Evicted(c: Cache): Cache
    requires c.scores != map[]
  {
    var victim := Listing(c.scores)[0].member;
    Cache(c.scores - {victim}, c.nodes - {victim})
  }

  ghost function AfterEvict(c: Cache): (Cache, bool) {
    if c.scores == map[] then (c, false) else (Evicted(c), true)
  }

  /** The cache with an entry put in where there is room: for a user already stored
      only the expiry time moves, and that is reported as a failure. */
  ghost function Stored(c: Cache, uid: string, user: UserNodeInfo): (Cache, bool) {
    var nodes := if uid in c.scores then c.nodes else c.nodes[uid := user];
    (Cache(c.scores[uid := Score(user.expireTs)], nodes), uid !in c.scores)
  }

  /** The cache after a `Set`, and whether that succeeds. */
  ghost function AfterSet(c: Cache, maxSize: int, uid: string, user: UserNodeInfo): (Cache, bool) {
    if uid in c.nodes || |c.scores| < maxSize then Stored(c, uid, user)
    else if !AfterEvict(c).1 then (c, false)
    else Stored(AfterEvict(c).0, uid, user)
  }

  ghost function AfterDel(c: Cache, uid: string): Cache {
    Cache(c.scores - {uid}, c.nodes - {uid})
  }

  /** Popping one takes the least entry. */
  lemma PopOne(m: map<string, real>)
    ensures m != map[] ==>
            LeastMembers(m, 1) == [Listing(m)[0]] && Members(LeastMembers(m, 1)) == {Listing(m)[0].member}
    ensures m != map[] ==> Listing(m)[0].member in m
    ensures m == map[] ==> m - Members(LeastMembers(m, 1)) == m
  {
    if m != map[] {
      PoppedIsLeast(m, 1);
      ListingLists(m);
      assert Listing(m)[0] in Listing(m);
    }
  }

  lemma SetConsistent(c: Cache, maxSize: int, uid: string, user: UserNodeInfo)
    requires Consistent(c, maxSize)
    ensures Consistent(AfterSet(c, maxSize, uid, user).0, maxSize)
    ensures c.scores != map[] ==>
            Evicted(c).scores.Keys == Evicted(c).nodes.Keys && |Evicted(c).scores| == |c.scores| - 1
  {
    if c.scores != map[] {
      PopOne(c.scores);
      SizeWithout(c.scores, Listing(c.scores)[0].member);
      SizeWith(Evicted(c).scores, uid, Score(user.expireTs));
    }
    SizeWith(c.scores, uid, Score(user.expireTs));
  }

  /** What a `Set` does, case by case: it succeeds exactly for a new user of a cache
      that may hold any. */
  lemma SetExact(c: Cache, maxSize: int, uid: string, user: UserNodeInfo)
    requires Consistent(c, maxSize)
    ensures var (c', ok) := AfterSet(c, maxSize, uid, user);
            && (ok <==> uid !in c.nodes && 0 < maxSize)
            && (uid in c.nodes ==> c' == Cache(c.scores[uid := user.expireTs as real], c.nodes))
            && (uid !in c.nodes && |c.nodes| < maxSize ==>
                  c' == Cache(c.scores[uid := user.expireTs as real], c.nodes[uid := user]))
            && (uid !in c.nodes && maxSize <= 0 ==> c' == c)
  {
    assert |c.scores| == |c.scores.Keys| && |c.nodes| == |c.nodes.Keys|;
  }

  lemma DelConsistent(c: Cache, maxSize: int, uid: string)
    requires Consistent(c, maxSize)
    ensures Consistent(AfterDel(c, uid), maxSize)
    ensures uid !in c.nodes ==> AfterDel(c, uid) == c
  {
    SizeWithout(c.scores, uid);
    if uid !in c.nodes {
      assert c.scores - {uid} == c.scores && c.nodes - {uid} == c.nodes;
    }
  }

  /** Pops the least member of a sorted set. */
  method PopLeast(zset: SortedSet) returns (least: Option<string>)
    requires zset.Valid()
    modifies zset.Repr()
    ensures zset.Valid() && zset.Repr() <= old(zset.Repr())
    ensures least == if old(zset.View()) == map[] then None else Some(Listing(old(zset.View()))[0].member)
    ensures zset.View() == if least.None? then old(zset.View()) else old(zset.View()) - {least.value}
  {
    PopOne(zset.View());
    var popped := zset.PopMin(1);
    if popped.None? {
      return None;
    }
    return Some(popped.value[0].member);
  }

  class UserNodeCache {
    const zset: SortedSet
    var userNodes: map<string, UserNodeInfo>
    const maxSize: int

    ghost function State(): Cache
      reads this, zset
    {
      Cache(zset.View(), userNodes)
    }

    ghost predicate Valid()
      reads this, zset, zset.skiplist, zset.skiplist.header, zset.skiplist.all
    {
      zset.Valid() && Consistent(State(), maxSize)
    }

    ghost function Repr(): set<object>
      reads this, zset, zset.skiplist
    {
      {this} + zset.Repr()
    }

    constructor (maxSize: int)
      ensures Valid() && State() == Cache(map[], map[]) && this.maxSize == maxSize && fresh(Repr())
    {
      this.zset := new SortedSet();
      this.userNodes := map[];
      this.maxSize := maxSize;
    }

    /** Evicts the least entry, if there is one. */
    method Evict() returns (evicted: bool)
      requires zset.Valid()
      modifies Repr()
      ensures zset.Valid() && Repr() <= old(Repr())
      ensures (State(), evicted) == AfterEvict(old(State()))
    {
      var victim := PopLeast(zset);
      if victim.None? {
        return false;
      }
      userNodes := userNodes - {victim.value};
      return true;
    }

    /** Evicts the least entry when a new user would exceed the limit; fails when
        there is none to evict. */
    method MakeRoom(uid: string) returns (room: bool)
      requires zset.Valid()
      modifies Repr()
      ensures zset.Valid() && Repr() <= old(Repr())
      ensures (State(), room) ==
              if uid in old(State()).nodes || |old(State()).scores| < maxSize then (old(State()), true)
              else AfterEvict(old(State()))
    {
      var stored := uid in userNodes;
      var size := zset.Len();
      room := true;
      if !stored && size >= maxSize {
        room := Evict();
      }
    }

    /** The part of `Set` after there is room. */
    method Store(uid: string, user: UserNodeInfo) returns (ok: bool)
      requires zset.Valid()
      modifies Repr()
      ensures zset.Valid() && fresh(Repr() - old(Repr()))
      ensures (State(), ok) == Stored(old(State()), uid, user)
    {
      ok := zset.Add(uid, Score(user.expireTs));
      if ok {
        userNodes := userNodes[uid := user];
      }
    }

    /** Stores the node of a user; fails for a user already stored, whose expiry
        time it still moves. */
    method Set(uid: string, user: UserNodeInfo) returns (ok: bool)
      requires Valid()
      modifies Repr()
      ensures Valid() && fresh(Repr() - old(Repr()))
      ensures (State(), ok) == AfterSet(old(State()), maxSize, uid, user)
    {
      ghost var c := State();
      SetConsistent(c, maxSize, uid, user);
      var room := MakeRoom(uid);
      if room {
        ok := Store(uid, user);
      } else {
        ok := false;
      }
    }

    method Get(uid: string) returns (user: Option<UserNodeInfo>)
      requires Valid()
      ensures user == if uid in State().scores then Some(State().nodes[uid]) else None
    {
      user := if uid in userNodes then Some(userNodes[uid]) else None;
    }

    /** Takes a user out of both maps. */
    method Drop(uid: string)
      requires zset.Valid()
      modifies Repr()
      ensures zset.Valid() && Repr() <= old(Repr())
      ensures zset.View() == old(zset.View()) - {uid}
      ensures userNodes == old(userNodes) - {uid}
    {
      var removed := zset.Remove(uid);
      userNodes := userNodes - {uid};
    }

    method Del(uid: string) returns (found: bool)
      requires Valid()
      modifies Repr()
      ensures Valid() && Repr() <= old(Repr())
      ensures State() == AfterDel(old(State()), uid)
      ensures found <==> uid in old(State()).nodes
    {
      DelConsistent(State(), maxSize, uid);
      if uid !in userNodes {
        return false;
      }
      Drop(uid);
      return true;
    }
  }
}
