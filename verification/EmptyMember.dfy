/** The empty member, which the header carries too: for which heights its rank is
    found, and for which sets it is found whatever the heights. */
module EmptyMembers {
  import opened Order
  import opened Shape
  import opened Skiplists
  import opened SortedSets

  /** The heights of the nodes after the header. */
  ghost function HeightsOf(all: seq<Node>): (hs: seq<int>)
    requires all != []
    ensures |hs| == |all| - 1 && forall i :: 0 <= i < |hs| ==> hs[i] == all[i+1].height
  {
    seq(|all| - 1, i requires 0 <= i < |all| - 1 => all[i+1].height)
  }

  /** Heights the coins may give n nodes. */
  ghost predicate Coins(hs: seq<int>, n: nat) {
    |hs| == n && forall i :: 0 <= i < n ==> 1 <= hs[i] <= MAX_LEVEL
  }

  ghost predicate Peak(hs: seq<int>, i: nat)
    requires i < |hs|
  {
    forall j :: 0 <= j < |hs| ==> hs[j] <= hs[i]
  }

  /** A node of the greatest height stands at place k or before. */
  ghost predicate PeakBy(hs: seq<int>, k: nat) {
    exists i :: 0 <= i <= k && i < |hs| && Peak(hs, i)
  }

  /** The highest level in use has a node at place k or before exactly when a peak
      stands there. */
  lemma TopLevelReaches(list: Skiplist, k: nat)
    requires list.Valid() && k < |list.Elements()|
    ensures NextTall(list.all, list.level - 1, 0) <= k + 1 <==> PeakBy(HeightsOf(list.all), k)
  {
    var all, hs := list.all, HeightsOf(list.all);
    var t := NextTall(all, list.level - 1, 0);
    NextTallIsNext(all, list.level - 1, 0);
    assert all[1].height >= 1;
    assert t < |all| && all[t].height == list.level;
    assert Peak(hs, t - 1);
    forall i | 0 <= i < |hs| && Peak(hs, i) ensures t - 1 <= i {
      assert hs[t-1] <= hs[i];
    }
  }

  /** The rank of the empty member of a sorted set is found exactly when a node of
      the greatest height stands at its place or before. */
  lemma FoundExactly(zset: SortedSet)
    requires zset.Valid() && "" in zset.View()
    ensures zset.EmptyMemberFound() <==>
            PeakBy(HeightsOf(zset.skiplist.all), |Smaller(zset.View(), Element("", zset.View()[""]))|)
  {
    MemberIndex(zset.skiplist.Elements(), zset.View(), "");
    TopLevelReaches(zset.skiplist, |Smaller(zset.View(), Element("", zset.View()[""]))|);
  }

  lemma {:induction false} SomePeak(hs: seq<int>, n: nat) returns (i: nat)
    requires 0 < n <= |hs|
    ensures i < n && forall j :: 0 <= j < n ==> hs[j] <= hs[i]
  {
    if n == 1 {
      i := 0;
    } else {
      i := SomePeak(hs, n - 1);
      if hs[i] < hs[n-1] {
        i := n - 1;
      }
    }
  }

  /** A node at place k of n is reached for all heights exactly when it is the last. */
  lemma PeakForAllCoins(n: nat, k: nat)
    requires k < n
    ensures (forall hs :: Coins(hs, n) ==> PeakBy(hs, k)) <==> k == n - 1
  {
    if k == n - 1 {
      forall hs | Coins(hs, n) ensures PeakBy(hs, k) {
        var i := SomePeak(hs, n);
        assert Peak(hs, i);
      }
    } else {
      var hs := seq(n, i => if i == n - 1 then 2 else 1);
      assert Coins(hs, n);
      forall i | 0 <= i <= k ensures !Peak(hs, i) {
        assert hs[n-1] > hs[i];
      }
    }
  }

  /** No pair of the map comes after the member's. */
  ghost predicate Greatest(m: map<string, real>, k: string)
    requires k in m
  {
    forall j :: j in m && j != k ==> Before(Element(j, m[j]), Element(k, m[k]))
  }

  lemma LastIsGreatest(m: map<string, real>, k: string)
    requires k in m
    ensures |Smaller(m, Element(k, m[k]))| == |m| - 1 <==> Greatest(m, k)
  {
    var e := Element(k, m[k]);
    BeforeIsTotalOrder(e, e, e);
    assert Smaller(m, e) <= m.Keys - {k};
    if Greatest(m, k) {
      assert Smaller(m, e) == m.Keys - {k};
    } else {
      var j :| j in m && j != k && !Before(Element(j, m[j]), e);
      var others := m.Keys - {k, j} - Smaller(m, e);
      assert m.Keys == Smaller(m, e) + others + {k} + {j};
      assert |Smaller(m, e)| <= |Smaller(m, e) + others| == |m.Keys| - 2;
    }
  }

  /** The rank of a present member is found whatever the heights exactly when the
      member is not the empty one, or its pair is the greatest. */
  lemma RankedForAllCoins(m: map<string, real>, k: string)
    requires k in m
    ensures (k != "" || forall hs :: Coins(hs, |m|) ==> PeakBy(hs, |Smaller(m, Element(k, m[k]))|)) <==>
            (k != "" || Greatest(m, k))
  {
    ListingLists(m);
    MemberIndex(Listing(m), m, k);
    PeakForAllCoins(|m|, |Smaller(m, Element(k, m[k]))|);
    LastIsGreatest(m, k);
  }

  lemma AppendsLast(s: seq<Element>, i: nat)
    requires Ascending(s) && i < |s|
    ensures s[i] !in s[..i] && CutBefore(s[..i], s[i]) == i && Put(s[..i], s[i]) == s[..i+1]
  {
    var before := s[..i];
    BeforeIsTotalOrder(s[i], s[i], s[i]);
    forall j | 0 <= j < i ensures Before(before[j], s[i]) {
      assert Before(s[j], s[i]);
    }
    CutUnique(before, BeforeTest(s[i]), i);
  }

  lemma HeightAppended(all: seq<Node>, n: Node)
    requires all != []
    ensures HeightsOf(InsertAt(all, |all| - 1, n)) == HeightsOf(all) + [n.height]
  {
  }

  /** Puts an element after all others. */
  method Append(list: Skiplist, s: seq<Element>, i: nat, height: int)
    requires list.Valid() && Ascending(s) && i < |s| && list.Elements() == s[..i] && 1 <= height <= MAX_LEVEL
    modifies list, NodeSet(list.all)
    ensures list.Valid() && fresh(NodeSet(list.all) - old(NodeSet(list.all))) && list.Elements() == s[..i+1]
    ensures list.all != [] && HeightsOf(list.all) == old(HeightsOf(list.all)) + [height]
  {
    AppendsLast(s, i);
    var node := list.Insert(s[i].member, s[i].score, height);
    HeightAppended(old(list.all), node);
  }

  /** Any listing can come about with any heights. */
  method BuildWith(s: seq<Element>, hs: seq<int>) returns (list: Skiplist)
    requires Ascending(s) && Coins(hs, |s|)
    ensures fresh(list) && list.Valid() && list.Elements() == s
    ensures list.all != [] && HeightsOf(list.all) == hs
  {
    list := new Skiplist();
    for i := 0 to |s|
      invariant list.Valid() && fresh(list) && fresh(NodeSet(list.all))
      invariant list.Elements() == s[..i] && list.all != [] && HeightsOf(list.all) == hs[..i]
    {
      Append(list, s, i, hs[i]);
      assert hs[..i+1] == hs[..i] + [hs[i]];
    }
    assert s[..|s|] == s && hs[..|hs|] == hs;
  }

  /** With given heights, the rank of the empty member at place k. */
  method RankWith(s: seq<Element>, hs: seq<int>, k: nat) returns (rank: int)
    requires Ascending(s) && Coins(hs, |s|) && k < |s| && s[k].member == "" && OnlyCarrier(s, k)
    ensures rank == if PeakBy(hs, k) then k + 1 else 0
  {
    var list := BuildWith(s, hs);
    TopLevelReaches(list, k);
    rank := list.GetRank("", s[k].score);
  }

  /** A present empty member that is not found: with heights 1 and 2. */
  method EmptyMemberMisranked() returns (rank: int)
    ensures rank == 0
  {
    var s, hs := [Element("", 1.0), Element("b", 2.0)], [1, 2];
    assert hs[1] > hs[0];
    rank := RankWith(s, hs, 0);
  }
}
