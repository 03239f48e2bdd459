/** The skip list: nodes of random heights, linked at every level, with the rank
    distance each link covers. */
module Skiplists {
  import opened Order
  import opened Shape
  import opened Borders
  import opened Ranges

  /** The nearest number to `x` from `lo` to `hi`. */
  function Clamp(x: int, lo: int, hi: int): (r: int)
    ensures lo <= hi ==> lo <= r <= hi && (r < x ==> r == hi) && (x < r ==> r == lo)
  {
    if x < lo then lo else if x > hi then hi else x
  }

  /** No other element carries the member of element `k`. */
  ghost predicate OnlyCarrier(s: seq<Element>, k: nat)
    requires k < |s|
  {
    forall j :: 0 <= j < |s| && s[j].member == s[k].member ==> j == k
  }

  /** Where a score range lies in a list. */
  lemma RangeBounds(all: seq<Node>, min: ScoreBorder, max: ScoreBorder, limit: int)
    requires all != [] && Ascending(ElementsOf(all))
    ensures var s := ElementsOf(all);
            var c := Start(s, min);
            var stop := if c < Stop(s, max) then Stop(s, max) else c;
            && SplitsAt(all, NotReached(min), c)
            && SplitsAt(all, NotPassed(max), Stop(s, max))
            && c <= stop <= |s| && Matching(s, min, max) == s[c..stop]
            && Limited(Matching(s, min, max), limit) == s[c..c + if 0 < limit < stop - c then limit else stop - c]
            && (forall i :: c <= i < |s| ==> (max.Greater(s[i].score) <==> i < stop))
  {
    RangeSplits(ElementsOf(all), min, max);
    MatchingIsSlice(ElementsOf(all), min, max);
    CutSplits(all, NotReached(min));
    CutSplits(all, NotPassed(max));
  }

  class Skiplist {
    const header: Node
    var tail: Node?
    var length: int
    var level: int
    ghost var all: seq<Node>   // the header, then the nodes in order

    /** Every level in use of every node of `nodes` holds the link of `nodes`; the
        header's levels not in use are empty. */
    ghost predicate LinksOf(nodes: seq<Node>)
      reads this`level, header`level, nodes`level
    {
      && (forall p {:trigger nodes[p].level} :: 0 <= p < |nodes| ==> |nodes[p].level| == nodes[p].height)
      && (forall p, i {:trigger nodes[p].level[i]} :: 0 <= p < |nodes| && 0 <= i < nodes[p].height && i < level ==>
            nodes[p].level[i] == LinkAt(nodes, i, p))
      && (forall i: nat :: level <= i < |header.level| ==> header.level[i].forward == null)
    }

    /** Backward links reverse level 0 and `tail` is the last node. */
    ghost predicate Backed(nodes: seq<Node>)
      reads this`tail, nodes`backward
    {
      && (forall p {:trigger nodes[p].backward} :: 1 <= p < |nodes| ==>
          nodes[p].backward == if p == 1 then null else nodes[p-1])
      && tail == (if |nodes| <= 1 then null else nodes[|nodes|-1])
    }

    /** Everything but the exactness of `level`. */
    ghost predicate Linked()
      reads this, header, all
    {
      Composed(all, header, level) && LinksOf(all) && Backed(all) && length == |all| - 1
    }

    ghost function Elements(): seq<Element>
      reads this
    {
      ElementsOf(all)
    }

    /** The representation invariant: every level is the ordered sublist of the
        nodes tall enough for it, every span is the exact rank distance, backward
        links reverse level 0, `tail`, `length` and `level` are exact. */
    ghost predicate Valid()
      reads this, header, all
    {
      && Linked()
      && (level == 1 || NextTall(all, level - 1, 0) < |all|)
      && Ascending(Elements())
    }

    /** What that says of one level of one node, link by link. */
    lemma LinkMeans(p: nat, i: nat)
      requires Valid() && p < |all| && i < all[p].height && i < level
      ensures i < |all[p].level|
      ensures var link := all[p].level[i];
              && (link.forward == null ==> link.span == length - p && forall q :: p < q < |all| ==> all[q].height <= i)
              && (link.forward != null ==>
                    && p < p + link.span < |all| && link.forward == all[p + link.span]
                    && all[p + link.span].height > i
                    && forall q :: p < q < p + link.span ==> all[q].height <= i)
    {
      NextTallIsNext(all, i, p);
    }

    /** On every level in use, `update` holds the last node up to position `c`,
        and `rank` its position. */
    ghost predicate Path(update: seq<Node?>, rank: seq<int>, c: nat)
      reads this
    {
      && |update| == |rank| == MAX_LEVEL
      && 1 <= level <= MAX_LEVEL
      && forall i :: 0 <= i < level ==> 0 <= rank[i] && IsLastTall(all, i, c, rank[i]) && update[i] == all[rank[i]]
    }

    constructor ()
      ensures Valid() && Elements() == [] && fresh(all)
    {
      header := new Node(MAX_LEVEL, 0.0, "");
      tail, length, level := null, 0, 1;
      all := [header];
    }

    /** The loop on one level: goes on while the next element passes `test`.
        `rank` is the distance covered. */
    method Walk(x: Node, i: int, test: Element -> bool, ghost c: nat, ghost p: nat) returns (y: Node, rank: int)
      requires LinksOf(all) && SplitsAt(all, test, c)
      requires 0 <= i < level && p <= c && x == all[p] && i < x.height
      ensures 0 <= rank && IsLastTall(all, i, c, p + rank) && y == all[p + rank]
    {
      y, rank := x, 0;
      while y.level[i].forward != null && test(y.level[i].forward.element)
        invariant 0 <= rank && p + rank <= c && y == all[p + rank] && i < y.height
        decreases c - rank
      {
        NextAgainstCut(all, test, i, c, p + rank);
        rank := rank + y.level[i].span;
        y := y.level[i].forward;
      }
      NextAgainstCut(all, test, i, c, p + rank);
    }

    /** The search shared by the updating operations, from the top level down:
        on every level, the last node that passes `test`, and its rank. */
    method Descend(test: Element -> bool, ghost c: nat) returns (update: seq<Node?>, rank: seq<int>)
      requires Composed(all, header, level) && LinksOf(all) && SplitsAt(all, test, c)
      ensures Path(update, rank, c)
    {
      update, rank := seq(MAX_LEVEL, _ => null), seq(MAX_LEVEL, _ => 0);
      var x := header;
      var i := level - 1;
      while i >= 0
        invariant -1 <= i < level
        invariant |update| == |rank| == MAX_LEVEL
        invariant forall j :: i < j < level ==>
                  0 <= rank[j] && IsLastTall(all, j, c, rank[j]) && update[j] == all[rank[j]]
        invariant x == all[if i == level - 1 then 0 else rank[i+1]]
      {
        var crossed := if i == level - 1 then 0 else rank[i+1];
        var covered;
        x, covered := Walk(x, i, test, c, crossed);
        rank := rank[i := crossed + covered];
        update := update[i := x];
        i := i - 1;
      }
    }

    /** Takes more levels into use; on those, the path is the header. */
    method Grow(height: int, update: seq<Node?>, rank: seq<int>, ghost c: nat)
      returns (update': seq<Node?>, rank': seq<int>)
      requires Composed(all, header, level) && LinksOf(all) && length == |all| - 1
      requires level < height <= MAX_LEVEL && c < |all| && Path(update, rank, c)
      modifies this`level, header`level
      ensures Composed(all, header, level) && LinksOf(all) && level == height
      ensures Path(update', rank', c)
    {
      update', rank' := update, rank;
      for i := level to height
        invariant |update'| == |rank'| == MAX_LEVEL && level == old(level)
        invariant forall j {:trigger update'[j]} {:trigger rank'[j]} :: 0 <= j < level ==>
                  update'[j] == update[j] && rank'[j] == rank[j]
        invariant forall j {:trigger update'[j]} {:trigger rank'[j]} :: level <= j < i ==>
                  update'[j] == header && rank'[j] == 0
        invariant |header.level| == MAX_LEVEL
        invariant forall j :: level <= j < i ==> header.level[j] == Level(null, length)
        invariant forall j :: 0 <= j < level || i <= j < MAX_LEVEL ==> header.level[j] == old(header.level)[j]
      {
        rank' := rank'[i := 0];
        update' := update'[i := header];
        header.level := header.level[i := header.level[i].(span := length)];
      }
      forall j | level <= j < height
        ensures LinkAt(all, j, 0) == Level(null, length) && IsLastTall(all, j, c, 0)
      {
        NextTallUnique(all, j, 0, |all|);
      }
      level := height;
    }

    /** The level records of all nodes. */
    ghost function Levels(): (levels: seq<seq<Level>>)
      reads this, all
      ensures |levels| == |all|
      ensures forall p {:trigger levels[p]} {:trigger all[p].level} :: 0 <= p < |all| ==> levels[p] == all[p].level
    {
      var nodes := all;
      seq(|nodes|, p requires 0 <= p < |nodes| reads nodes => nodes[p].level)
    }

    /** On every level below `i`, the node of the path holds the record `now`;
        every other record is still what it `was`. */
    ghost predicate Written(was: seq<seq<Level>>, now: seq<Level>, rank: seq<int>, i: int)
      reads this, all
    {
      && |was| == |all| && i <= |now| <= |rank|
      && (forall p {:trigger all[p].level} :: 0 <= p < |all| ==> |all[p].level| == |was[p]|)
      && forall p, j {:trigger all[p].level[j]} :: 0 <= p < |all| && 0 <= j < |was[p]| ==>
        all[p].level[j] == if j < i && p == rank[j] then now[j] else was[p][j]
    }

    /** The links of `all'` along a path. */
    ghost function LinksAlong(all': seq<Node>, rank: seq<int>, top: nat): (now: seq<Level>)
      requires top <= |rank| && forall i :: 0 <= i < top ==> 0 <= rank[i] < |all'|
      ensures |now| == top && forall i {:trigger now[i]} :: 0 <= i < top ==> now[i] == LinkAt(all', i, rank[i])
    {
      seq(top, i requires 0 <= i < top => LinkAt(all', i, rank[i]))
    }

    /** Writes one record of the path. */
    method Relink(n: Node, i: int, link: Level, ghost was: seq<seq<Level>>, ghost now: seq<Level>, ghost rank: seq<int>)
      requires Distinct(all) && 0 <= i < |now| && Written(was, now, rank, i)
      requires 0 <= rank[i] < |all| && n == all[rank[i]] && i < |n.level|
      requires link == now[i]
      modifies n`level
      ensures Written(was, now, rank, i + 1)
    {
      OnePosition(all, rank[i]);
      n.level := n.level[i := link];
    }

    /** What a splice is to write, given what the list holds now: along the path
        the records `now`, and `mid` into the new node. */
    ghost predicate SplicePlan(node: Node, update: seq<Node?>, rank: seq<int>, height: int, was: seq<seq<Level>>,
                               now: seq<Level>, mid: seq<Level>)
      reads this
    {
      && 1 <= height == |mid| <= level == |now| <= |update| == |rank| && |was| == |all|
      && forall i {:trigger update[i]} :: 0 <= i < level ==>
        && 0 <= rank[i] < |all| && update[i] == all[rank[i]] && i < |was[rank[i]]|
        && var l := was[rank[i]][i];
           if i < height then
             now[i] == Level(node, (rank[0] - rank[i]) + 1) && mid[i] == Level(l.forward, l.span - (rank[0] - rank[i]))
           else
             now[i] == l.(span := l.span + 1)
    }

    /** The linking loops of an insertion. */
    method Splice(node: Node, update: seq<Node?>, rank: seq<int>, height: int,
                  ghost was: seq<seq<Level>>, ghost now: seq<Level>, ghost mid: seq<Level>)
      requires Distinct(all) && node !in all && |node.level| == height
      requires was == Levels() && SplicePlan(node, update, rank, height, was, now, mid)
      modifies node`level, all`level
      ensures Written(was, now, rank, level) && node.level == mid
    {
      for i := 0 to height
        invariant Written(was, now, rank, i)
        invariant |node.level| == height && forall j :: 0 <= j < i ==> node.level[j] == mid[j]
      {
        var link := update[i].level[i];
        node.level := node.level[i := Level(link.forward, link.span - (rank[0] - rank[i]))];
        Relink(update[i], i, Level(node, (rank[0] - rank[i]) + 1), was, now, rank);
      }
      for i := height to level
        invariant Written(was, now, rank, i) && node.level == mid
      {
        var link := update[i].level[i];
        Relink(update[i], i, link.(span := link.span + 1), was, now, rank);
      }
    }

    /** The links of the list with the new node make a plan for the splice. */
    lemma InsertionPlan(node: Node, update: seq<Node?>, rank: seq<int>, c: nat)
      requires Linked() && Path(update, rank, c) && rank[0] == c && 1 <= node.height <= level
      ensures var all' := InsertAt(all, c, node);
              SplicePlan(node, update, rank, node.height, Levels(), LinksAlong(all', rank, level),
                         LinksAlong(all', seq(node.height, _ => c + 1), node.height))
    {
      forall i | 0 <= i < level ensures InsertsOnPath(all, c, node, i, rank[i]) {
        InsertOnPath(all, c, node, i, rank[i]);
      }
    }

    lemma InsertionLinks(node: Node, update: seq<Node?>, rank: seq<int>, c: nat, was: seq<seq<Level>>)
      requires c < |all| && Path(update, rank, c) && node.height <= level
      requires var all' := InsertAt(all, c, node);
               && Written(was, LinksAlong(all', rank, level), rank, level)
               && node.level == LinksAlong(all', seq(node.height, _ => c + 1), node.height)
      requires all[0] == header && forall i :: level <= i < |was[0]| ==> was[0][i].forward == null
      requires forall p {:trigger was[p]} :: 0 <= p < |all| ==> |was[p]| == all[p].height
      requires forall p, i {:trigger was[p][i]} :: 0 <= p < |all| && 0 <= i < all[p].height && i < level ==>
               was[p][i] == LinkAt(all, i, p)
      ensures LinksOf(InsertAt(all, c, node))
    {
      var all' := InsertAt(all, c, node);
      forall p | 0 <= p < |all'| ensures |all'[p].level| == all'[p].height {
        assert p != c + 1 ==> all'[p] == all[if p <= c then p else p - 1];
      }
      forall p, i | 0 <= p < |all'| && 0 <= i < all'[p].height && i < level
        ensures all'[p].level[i] == LinkAt(all', i, p)
      {
        if p != c + 1 {
          var q := if p <= c then p else p - 1;
          assert all'[p] == all[q];
          if q != rank[i] {
            InsertElsewhere(all, c, node, i, rank[i], q);
          }
        }
      }
    }

    lemma PathBottom(update: seq<Node?>, rank: seq<int>, c: nat)
      requires Composed(all, header, level) && c < |all| && Path(update, rank, c)
      ensures rank[0] == c
    {
      assert c == 0 || all[c].height >= 1;
    }

    /** The nodes are linked up as `nodes` says: that is now the list. */
    ghost method Commit(nodes: seq<Node>)
      requires Composed(nodes, header, level) && LinksOf(nodes) && Backed(nodes) && length == |nodes| - 1
      modifies this`all
      ensures all == nodes && Linked()
    {
      all := nodes;
    }

    /** The length of an insertion. */
    method Extend(ghost nodes: seq<Node>)
      requires Composed(nodes, header, level) && LinksOf(nodes) && Backed(nodes) && length == |nodes| - 2
      modifies this`length, this`all
      ensures Linked() && all == nodes
    {
      length := length + 1;
      Commit(nodes);
    }

    lemma BottomLink(node: Node, c: nat)
      requires c < |all| && LinksOf(InsertAt(all, c, node)) && 1 <= level && 1 <= node.height
      requires forall p :: c < p < |all| ==> 1 <= all[p].height
      ensures |node.level| > 0
      ensures node.level[0].forward == if c + 1 < |all| then all[c+1] else null
    {
      var all' := InsertAt(all, c, node);
      assert all'[c+1] == node;
      assert c + 2 < |all'| ==> all'[c+2] == all[c+1];
      NextTallUnique(all', 0, c + 1, c + 2);
    }

    /** The forward links of an insertion. */
    method LinkForward(node: Node, height: int, update: seq<Node?>, rank: seq<int>, ghost c: nat)
      requires Linked() && c < |all| && Path(update, rank, c)
      requires node !in all && 1 <= height == node.height == |node.level| <= level
      modifies node`level, all`level
      ensures LinksOf(InsertAt(all, c, node))
      ensures |node.level| == height && node.level[0].forward == (if c + 1 < |all| then all[c+1] else null)
      ensures update[0] == all[c]
    {
      PathBottom(update, rank, c);
      ghost var all' := InsertAt(all, c, node);
      ghost var was := Levels();
      InsertionPlan(node, update, rank, c);
      Splice(node, update, rank, height, was, LinksAlong(all', rank, level),
             LinksAlong(all', seq(height, _ => c + 1), height));
      InsertionLinks(node, update, rank, c, was);
      BottomLink(node, c);
    }

    /** The backward links and the tail of an insertion. */
    method LinkBack(node: Node, prev: Node?, ghost c: nat)
      requires Composed(all, header, level) && c < |all| && Backed(all) && prev == all[c]
      requires node !in all && |node.level| > 0
      requires node.level[0].forward == if c + 1 < |all| then all[c+1] else null
      modifies this`tail, node`backward, all`backward
      ensures Backed(InsertAt(all, c, node))
    {
      OnePosition(all, 0);
      if c + 1 < |all| {
        OnePosition(all, c + 1);
      }
      node.backward := if prev == header then null else prev;
      if node.level[0].forward != null {
        node.level[0].forward.backward := node;
      } else {
        tail := node;
      }
    }

    /** Links a new node behind the nodes of `update`. */
    method Link(node: Node, height: int, update: seq<Node?>, rank: seq<int>, ghost c: nat)
      requires Linked() && c < |all| && Path(update, rank, c)
      requires node !in all && 1 <= height == node.height == |node.level| <= level
      modifies this`tail, this`length, this`all, node`level, node`backward, all`level, all`backward
      ensures all == InsertAt(old(all), c, node) && Linked()
    {
      InsertComposed(all, header, level, c, node);
      LinkForward(node, height, update, rank, c);
      LinkBack(node, update[0], c);
      Extend(InsertAt(all, c, node));
    }

    /** Links a new element behind position `c`, the last one before it. */
    method Place(e: Element, height: int, ghost c: nat) returns (node: Node)
      requires Linked() && 1 <= height <= MAX_LEVEL
      requires SplitsAt(all, BeforeTest(e), c)
      modifies this, all
      ensures Linked() && level == if height > old(level) then height else old(level)
      ensures fresh(node) && node.element == e && node.height == height
      ensures all == InsertAt(old(all), c, node)
    {
      var update, rank := Descend(BeforeTest(e), c);
      if height > level {
        update, rank := Grow(height, update, rank, c);
      }
      node := new Node(height, e.score, e.member);
      Link(node, height, update, rank, c);
    }

    /** Links a new element into its place; `height` is what `randomLevel` drew. */
    method Insert(member: string, score: real, height: int) returns (node: Node)
      requires Valid() && 1 <= height <= MAX_LEVEL
      requires Element(member, score) !in Elements()
      modifies this, all
      ensures Valid() && fresh(node)
      ensures node.element == Element(member, score) && node.height == height
      ensures all == InsertAt(old(all), CutBefore(old(Elements()), node.element), node)
      ensures Elements() == Put(old(Elements()), node.element)
    {
      ghost var c := CutBefore(Elements(), Element(member, score));
      InsertFits(all, Element(member, score));
      node := Place(Element(member, score), height, c);
      InsertPuts(old(all), c, node);
      InsertTop(old(all), header, old(level), level, c, node);
    }

    // -------------------------------------------------- removal

    /** What an unlinking is to write along the path. */
    ghost predicate UnlinkPlan(node: Node, update: seq<Node?>, rank: seq<int>, c: nat, was: seq<seq<Level>>,
                               now: seq<Level>)
      reads this
    {
      && 1 <= level == |now| <= |update| == |rank| && |was| == |all| && c + 1 < |all| && node == all[c+1]
      && forall i {:trigger update[i]} :: 0 <= i < level ==>
        && 0 <= rank[i] <= c && update[i] == all[rank[i]] && i < |was[rank[i]]|
        && var l := was[rank[i]][i];
           if l.forward == node then
             i < |was[c+1]| && now[i] == Level(was[c+1][i].forward, l.span + (was[c+1][i].span - 1))
           else
             now[i] == l.(span := l.span - 1)
    }

    /** The unlinking loop of a removal. */
    method Unlink(node: Node, update: seq<Node?>, ghost rank: seq<int>, ghost c: nat, ghost was: seq<seq<Level>>,
                  ghost now: seq<Level>)
      requires Distinct(all) && was == Levels() && UnlinkPlan(node, update, rank, c, was, now)
      modifies all`level
      ensures Written(was, now, rank, level)
    {
      for i := 0 to level
        invariant Written(was, now, rank, i)
      {
        var link := update[i].level[i];
        assert link == was[rank[i]][i];
        if link.forward == node {
          assert node.level[i] == was[c+1][i];
          Relink(update[i], i, Level(node.level[i].forward, link.span + (node.level[i].span - 1)), was, now, rank);
        } else {
          Relink(update[i], i, link.(span := link.span - 1), was, now, rank);
        }
      }
    }

    lemma RemovalPlan(node: Node, update: seq<Node?>, rank: seq<int>, c: nat)
      requires Linked() && c + 1 < |all| && Path(update, rank, c) && node == all[c+1]
      ensures UnlinkPlan(node, update, rank, c, Levels(), LinksAlong(RemoveAt(all, c + 1), rank, level))
    {
      forall i | 0 <= i < level
        ensures var l, now := LinkAt(all, i, rank[i]), LinkAt(RemoveAt(all, c + 1), i, rank[i]);
                if l.forward == node then
                  i < node.height &&
                    now == Level(LinkAt(all, i, c + 1).forward, l.span + (LinkAt(all, i, c + 1).span - 1))
                else
                  now == l.(span := l.span - 1)
      {
        RemoveOnPath(all, c, i, rank[i]);
      }
    }

    lemma RemovalLinks(update: seq<Node?>, rank: seq<int>, c: nat, was: seq<seq<Level>>)
      requires c + 1 < |all| && Path(update, rank, c)
      requires Written(was, LinksAlong(RemoveAt(all, c + 1), rank, level), rank, level)
      requires all[0] == header && forall i :: level <= i < |was[0]| ==> was[0][i].forward == null
      requires forall p {:trigger was[p]} :: 0 <= p < |all| ==> |was[p]| == all[p].height
      requires forall p, i {:trigger was[p][i]} :: 0 <= p < |all| && 0 <= i < all[p].height && i < level ==>
               was[p][i] == LinkAt(all, i, p)
      ensures LinksOf(RemoveAt(all, c + 1))
    {
      var all' := RemoveAt(all, c + 1);
      forall p | 0 <= p < |all'| ensures |all'[p].level| == all'[p].height {
        assert all'[p] == all[if p <= c then p else p + 1];
      }
      forall p, i | 0 <= p < |all'| && 0 <= i < all'[p].height && i < level
        ensures all'[p].level[i] == LinkAt(all', i, p)
      {
        var q := if p <= c then p else p + 1;
        assert all'[p] == all[q];
        if q != rank[i] {
          RemoveElsewhere(all, c, i, rank[i], q);
        }
      }
    }

    lemma NextOnBottom(p: nat)
      requires Composed(all, header, level) && LinksOf(all) && p < |all|
      ensures |all[p].level| > 0 && all[p].level[0] == if p + 1 < |all| then Level(all[p+1], 1) else Level(null, 0)
    {
      NextTallUnique(all, 0, p, p + 1);
    }

    /** The forward links of a removal. */
    method UnlinkForward(node: Node, update: seq<Node?>, ghost rank: seq<int>, ghost c: nat)
      requires Linked() && c + 1 < |all| && Path(update, rank, c) && node == all[c+1]
      modifies all`level
      ensures LinksOf(RemoveAt(all, c + 1))
      ensures node.level == old(node.level)
    {
      ghost var was := Levels();
      RemovalPlan(node, update, rank, c);
      Unlink(node, update, rank, c, was, LinksAlong(RemoveAt(all, c + 1), rank, level));
      RemovalLinks(update, rank, c, was);
      assert forall i {:trigger node.level[i]} :: 0 <= i < |was[c+1]| ==> node.level[i] == was[c+1][i];
    }

    /** The backward link and the tail of a removal. */
    method UnlinkBack(node: Node, ghost c: nat)
      requires Composed(all, header, level) && c + 1 < |all| && Backed(all) && node == all[c+1]
      requires |node.level| > 0 && node.level[0].forward == if c + 2 < |all| then all[c+2] else null
      modifies this`tail, all`backward
      ensures Backed(RemoveAt(all, c + 1))
    {
      if c + 2 < |all| {
        OnePosition(all, c + 2);
      }
      if node.level[0].forward != null {
        node.level[0].forward.backward := node.backward;
      } else {
        tail := node.backward;
      }
    }

    /** Gives up the levels that have become empty. */
    method Lower(ghost nodes: seq<Node>)
      requires Composed(nodes, header, level) && LinksOf(nodes)
      modifies this`level
      ensures Composed(nodes, header, level) && LinksOf(nodes) && level <= old(level)
      ensures level == 1 || NextTall(nodes, level - 1, 0) < |nodes|
    {
      while level > 1 && header.level[level-1].forward == null
        invariant Composed(nodes, header, level) && LinksOf(nodes) && level <= old(level)
      {
        NextTallIsNext(nodes, level - 1, 0);
        level := level - 1;
      }
    }

    /** The levels and the length of a removal. */
    method Settle(ghost nodes: seq<Node>)
      requires Composed(nodes, header, level) && LinksOf(nodes) && Backed(nodes) && length == |nodes|
      modifies this`level, this`length, this`all
      ensures Linked() && all == nodes && level <= old(level)
      ensures level == 1 || NextTall(nodes, level - 1, 0) < |nodes|
    {
      Lower(nodes);
      length := length - 1;
      Commit(nodes);
    }

    method Detach(node: Node, update: seq<Node?>, ghost rank: seq<int>, ghost c: nat)
      requires Linked() && c + 1 < |all| && Path(update, rank, c) && node == all[c+1]
      modifies this, all
      ensures Linked() && all == RemoveAt(old(all), c + 1) && level <= old(level)
      ensures level == 1 || NextTall(all, level - 1, 0) < |all|
      ensures node.level == old(node.level)
    {
      RemoveComposed(all, header, level, c);
      NextOnBottom(c + 1);
      UnlinkForward(node, update, rank, c);
      UnlinkBack(node, c);
      Settle(RemoveAt(all, c + 1));
    }

    lemma RemovedPath(before: seq<Node>, update: seq<Node?>, rank: seq<int>, c: nat, top: int)
      requires c + 1 < |before| && all == RemoveAt(before, c + 1) &&
               1 <= level <= top <= MAX_LEVEL == |update| == |rank|
      requires forall i :: 0 <= i < top ==>
               0 <= rank[i] && IsLastTall(before, i, c, rank[i]) && update[i] == before[rank[i]]
      ensures Path(update, rank, c)
    {
      forall i | 0 <= i < level ensures IsLastTall(all, i, c, rank[i]) {
        RemoveKeepsPath(before, c, i, rank[i]);
      }
    }

    /** Takes the node at position `c + 1` out; `update` holds the last node up to
        `c` on every level.  The same `update` fits the list that is left. */
    method RemoveNode(node: Node, update: seq<Node?>, ghost rank: seq<int>, ghost c: nat)
      requires Valid() && c + 1 < |all| && Path(update, rank, c) && node == all[c+1]
      modifies this, all
      ensures Valid() && all == RemoveAt(old(all), c + 1)
      ensures Path(update, rank, c)
      ensures Elements() == Drop(old(Elements()), c)
      ensures node.level == old(node.level)
    {
      RemoveElements(all, c);
      Detach(node, update, rank, c);
      RemovedPath(old(all), update, rank, c, old(level));
    }

    /** Removes one element; false when the list does not have it. */
    method Remove(member: string, score: real) returns (found: bool)
      requires Valid()
      modifies this, NodeSet(all)
      ensures Valid() && NodeSet(all) <= old(NodeSet(all))
      ensures found <==> Element(member, score) in old(Elements())
      ensures found ==>
        var c := CutBefore(old(Elements()), Element(member, score));
        c < |old(Elements())| && old(Elements())[c] == Element(member, score) && Elements() == Drop(old(Elements()), c)
      ensures !found ==> Elements() == old(Elements())
    {
      var e := Element(member, score);
      ghost var c := CutBefore(Elements(), e);
      CutBeforeSplits(Elements(), e);
      CutSplits(all, BeforeTest(e));
      var update, rank := Descend(BeforeTest(e), c);
      PathBottom(update, rank, c);
      NextOnBottom(c);
      var node := update[0].level[0].forward;
      if node != null && score == node.element.score && node.element.member == member {
        RemoveNodeSet(all, c + 1);
        RemoveNode(node, update, rank, c);
        return true;
      }
      return false;
    }

    /** `k` elements have been taken out behind position `c`; `node` is next. */
    ghost predicate Taking(s: seq<Element>, c: nat, k: nat, node: Node?)
      reads this
    {
      && c + k <= |s| && Elements() == Cutout(s, c, k)
      && c < |all| && node == if c + 1 < |all| then all[c+1] else null
    }

    /** Removes a node of a range and moves on to the one behind it. */
    method TakeNext(node: Node, update: seq<Node?>, ghost rank: seq<int>, ghost s: seq<Element>, ghost c: nat,
                    ghost k: nat)
      returns (next: Node?)
      requires Valid() && Path(update, rank, c) && Taking(s, c, k, node)
      modifies this, NodeSet(all)
      ensures Valid() && Path(update, rank, c) && NodeSet(all) <= old(NodeSet(all))
      ensures c + k < |s| && node.element == s[c+k] && Taking(s, c, k + 1, next)
      ensures |all| == old(|all|) - 1
    {
      assert node.element == Elements()[c];
      CutoutStep(s, c, k);
      RemoveNodeSet(all, c + 1);
      NextOnBottom(c + 1);
      next := node.level[0].forward;
      RemoveNode(node, update, rank, c);
    }

    /** The last node up to position `c` on every level, and the node behind. */
    method Locate(test: Element -> bool, ghost c: nat) returns (update: seq<Node?>, ghost rank: seq<int>, node: Node?)
      requires Linked() && SplitsAt(all, test, c)
      ensures Path(update, rank, c) && update[0] == all[c] && node == if c + 1 < |all| then all[c+1] else null
    {
      update, rank := Descend(test, c);
      PathBottom(update, rank, c);
      NextOnBottom(c);
      node := update[0].level[0].forward;
    }

    /** The loop of a removal by score: takes nodes while they are not above the
        range, which holds for the elements before index `stop`. */
    method DrainByScore(first: Node?, max: ScoreBorder, limit: int, update: seq<Node?>,
                        ghost rank: seq<int>, ghost s: seq<Element>, ghost c: nat, ghost stop: nat)
      returns (removed: seq<Element>)
      requires Valid() && Path(update, rank, c) && Taking(s, c, 0, first)
      requires c <= stop <= |s| && forall i :: c <= i < |s| ==> (max.Greater(s[i].score) <==> i < stop)
      modifies this, NodeSet(all)
      ensures Valid() && NodeSet(all) <= old(NodeSet(all))
      ensures |removed| == if 0 < limit < stop - c then limit else stop - c
      ensures removed == s[c..c+|removed|] && Elements() == Cutout(s, c, |removed|)
    {
      var node := first;
      removed := [];
      while node != null
        invariant Valid() && Path(update, rank, c) && NodeSet(all) <= old(NodeSet(all))
        invariant Taking(s, c, |removed|, node) && removed == s[c..c+|removed|]
        invariant c + |removed| <= stop && (limit > 0 ==> |removed| < limit)
        decreases |all|
      {
        assert node.element == Elements()[c] == s[c+|removed|];
        if !max.Greater(node.element.score) {
          break;
        }
        removed := removed + [node.element];
        node := TakeNext(node, update, rank, s, c, |removed| - 1);
        if limit > 0 && |removed| == limit {
          break;
        }
      }
    }

    /** Removes the elements in a score range, from the lowest; at most `limit` of
        them when `limit` is positive. */
    method RemoveRangeByScore(min: ScoreBorder, max: ScoreBorder, limit: int) returns (removed: seq<Element>)
      requires Valid()
      modifies this, NodeSet(all)
      ensures Valid() && NodeSet(all) <= old(NodeSet(all))
      ensures removed == Limited(Matching(old(Elements()), min, max), limit)
      ensures Start(old(Elements()), min) + |removed| <= |old(Elements())|
      ensures Elements() == Cutout(old(Elements()), Start(old(Elements()), min), |removed|)
    {
      ghost var s, c := Elements(), Start(Elements(), min);
      ghost var stop := if c < Stop(s, max) then Stop(s, max) else c;
      RangeBounds(all, min, max, limit);
      var update; ghost var rank; var node;
      update, rank, node := Locate(NotReached(min), c);
      removed := DrainByScore(node, max, limit, update, rank, s, c, stop);
    }

    // -------------------------------------------------- ranks

    /** The loop on one level of the searches by rank: goes on while the rank
        reached does not exceed `bound`. */
    method WalkToRank(x: Node, i: int, bound: int, ghost c: nat, at: int) returns (y: Node, rank: int)
      requires all != [] && LinksOf(all) && c == Clamp(bound, 0, |all| - 1)
      requires 0 <= i < level && 0 <= at <= c && x == all[at] && i < x.height
      ensures 0 <= rank && IsLastTall(all, i, c, rank) && y == all[rank]
    {
      y, rank := x, at;
      while y.level[i].forward != null && rank + y.level[i].span <= bound
        invariant 0 <= rank <= c && y == all[rank] && i < y.height
        decreases c - rank
      {
        NextTallIsNext(all, i, rank);
        rank := rank + y.level[i].span;
        y := y.level[i].forward;
      }
      NextTallIsNext(all, i, rank);
    }

    /** The node of a rank: the header for 0, nil outside 0..length. */
    method GetByRank(rank: int) returns (node: Node?)
      requires Valid()
      ensures node == if 0 <= rank < |all| then all[rank] else null
    {
      ghost var c := Clamp(rank, 0, |all| - 1);
      var n, i := header, 0;
      var l := level - 1;
      while l >= 0
        invariant -1 <= l < level
        invariant 0 <= i <= c && n == all[i] && l < n.height
        invariant l < level - 1 ==> i != rank && IsLastTall(all, l + 1, c, i)
      {
        n, i := WalkToRank(n, l, rank, c, i);
        if i == rank {
          return n;
        }
        l := l - 1;
      }
      assert c == 0 || all[c].height >= 1;
      return null;
    }

    /** The loop of a removal by rank: takes nodes while their rank is below `stop`. */
    method DrainByRank(first: Node?, rank0: int, stop: int, update: seq<Node?>,
                       ghost rank: seq<int>, ghost s: seq<Element>, ghost c: nat) returns (removed: seq<Element>)
      requires Valid() && Path(update, rank, c) && Taking(s, c, 0, first) && rank0 == c + 1
      modifies this, NodeSet(all)
      ensures Valid() && NodeSet(all) <= old(NodeSet(all))
      ensures c + |removed| == Clamp(stop - 1, c, |s|)
      ensures removed == s[c..c+|removed|] && Elements() == Cutout(s, c, |removed|)
    {
      var node, i := first, rank0;
      removed := [];
      while node != null && i < stop
        invariant Valid() && Path(update, rank, c) && NodeSet(all) <= old(NodeSet(all))
        invariant Taking(s, c, |removed|, node) && removed == s[c..c+|removed|]
        invariant i == c + |removed| + 1 && (|removed| > 0 ==> i <= stop)
        decreases |all|
      {
        assert node.element == Elements()[c] == s[c+|removed|];
        removed := removed + [node.element];
        node := TakeNext(node, update, rank, s, c, |removed| - 1);
        i := i + 1;
      }
    }

    /** The search of a removal by rank. */
    method DescendToRank(bound: int, ghost c: nat) returns (update: seq<Node?>, ghost rank: seq<int>, i: int)
      requires Composed(all, header, level) && LinksOf(all) && c == Clamp(bound, 0, |all| - 1)
      ensures Path(update, rank, c) && i == rank[0] == c
    {
      update, rank := seq(MAX_LEVEL, _ => null), seq(MAX_LEVEL, _ => 0);
      i := 0;
      var x := header;
      var l := level - 1;
      while l >= 0
        invariant -1 <= l < level
        invariant |update| == |rank| == MAX_LEVEL
        invariant forall j :: l < j < level ==>
                  0 <= rank[j] && IsLastTall(all, j, c, rank[j]) && update[j] == all[rank[j]]
        invariant 0 <= i <= c && x == all[i] && l < x.height && (l < level - 1 ==> i == rank[l+1])
      {
        x, i := WalkToRank(x, l, bound, c, i);
        rank := rank[l := i];
        update := update[l := x];
        l := l - 1;
      }
      PathBottom(update, rank, c);
    }

    /** Removes the elements of ranks from `start` up to but not including `stop`
        (ranks count from 1; a `start` below 1 counts as 1). */
    method RemoveRangeByRank(start: int, stop: int) returns (removed: seq<Element>)
      requires Valid()
      modifies this, NodeSet(all)
      ensures Valid() && NodeSet(all) <= old(NodeSet(all))
      ensures var s := old(Elements());
              var c := Clamp(start - 1, 0, |s|);
              && removed == s[c..Clamp(stop - 1, c, |s|)]
              && Elements() == Cutout(s, c, |removed|)
    {
      ghost var s, c := Elements(), Clamp(start - 1, 0, |Elements()|);
      var update; ghost var rank; var i;
      update, rank, i := DescendToRank(start - 1, c);
      NextOnBottom(c);
      removed := DrainByRank(update[0].level[0].forward, i + 1, stop, update, rank, s, c);
    }

    /** The loop of the search for a rank: stops at the first node it settles on
        that carries the member, the header (with the empty member) included. */
    method SearchRank(e: Element, ghost c: nat) returns (rank: int)
      requires Composed(all, header, level) && LinksOf(all) && SplitsAt(all, AtOrBeforeTest(e), c)
      ensures 0 <= rank <= c
      ensures rank > 0 ==> all[rank].element.member == e.member && (e.member == "" ==> NextTall(all, level - 1, 0) <= c)
      ensures rank == 0 ==> all[c].element.member != e.member || (e.member == "" && NextTall(all, level - 1, 0) > c)
    {
      rank := 0;
      var x := header;
      var i := level - 1;
      NextTallIsNext(all, level - 1, 0);
      while i >= 0
        invariant -1 <= i < level
        invariant 0 <= rank <= c && x == all[rank] && i < x.height
        invariant i < level - 1 ==> x.element.member != e.member && IsLastTall(all, i + 1, c, rank)
        invariant i < level - 1 && e.member == "" ==> rank > 0 && NextTall(all, level - 1, 0) <= c
      {
        var covered;
        x, covered := Walk(x, i, AtOrBeforeTest(e), c, rank);
        rank := rank + covered;
        if x.element.member == e.member {
          return rank;
        }
        i := i - 1;
      }
      assert c == 0 || all[c].height >= 1;
      return 0;
    }

    /** The rank of an element, counted from 1; 0 when it is not found.

        The header carries the empty member.  So the search for the empty member
        gives up at the header unless the top level has a node at or before it;
        for every other member of the list the rank is right. */
    method GetRank(member: string, score: real) returns (rank: int)
      requires Valid()
      ensures 0 <= rank <= |Elements()| && (rank > 0 ==> Elements()[rank-1].member == member)
      ensures forall k ::
        0 <= k < |Elements()| && Elements()[k] == Element(member, score) && OnlyCarrier(Elements(), k) ==>
        rank == if member != "" || NextTall(all, level - 1, 0) <= k + 1 then k + 1 else 0
    {
      var e := Element(member, score);
      ghost var c := Cut(Elements(), AtOrBeforeTest(e));
      CutAtOrBefore(Elements(), e);
      CutSplits(all, AtOrBeforeTest(e));
      rank := SearchRank(e, c);
      assert rank > 0 ==> Elements()[rank-1] == all[rank].element;
    }

    // -------------------------------------------------- score ranges

    /** The guard of the range queries: the borders are told apart, some element
        is not below the range and some is not above it. */
    method HasInRange(min: ScoreBorder, max: ScoreBorder) returns (r: bool)
      requires Valid()
      ensures r <==> !GuardRejects(min, max) && Start(Elements(), min) < |Elements()| && 0 < Stop(Elements(), max)
    {
      ghost var s := Elements();
      RangeSplits(s, min, max);
      NextOnBottom(0);
      assert |all| > 1 ==> s[0] == all[1].element && s[|s|-1] == all[|all|-1].element;
      if || (min.value > max.value && max.inf != POSITIVE_INF)
         || (min.value == max.value && (min.exclude || max.exclude))
      {
        return false;
      }
      var n := tail;
      if n == null || !min.Less(n.element.score) {
        return false;
      }
      n := header.level[0].forward;
      if n == null || !max.Greater(n.element.score) {
        return false;
      }
      return true;
    }

    /** The first node in a score range that the guard lets through. */
    method GetFirstInScoreRange(min: ScoreBorder, max: ScoreBorder) returns (node: Node?)
      requires Valid()
      ensures var a, b := Start(Elements(), min), Stop(Elements(), max);
              node == if !GuardRejects(min, max) && a < b then all[a+1] else null
    {
      RangeBounds(all, min, max, 0);
      var has := HasInRange(min, max);
      if !has {
        return null;
      }
      var update; ghost var rank; var n;
      update, rank, n := Locate(NotReached(min), Start(Elements(), min));
      if !max.Greater(n.element.score) {
        return null;
      }
      return n;
    }

    /** The last node in a score range that the guard lets through. */
    method GetLastInScoreRange(min: ScoreBorder, max: ScoreBorder) returns (node: Node?)
      requires Valid()
      ensures var a, b := Start(Elements(), min), Stop(Elements(), max);
              node == if !GuardRejects(min, max) && a < b then all[b] else null
    {
      RangeBounds(all, min, max, 0);
      RangeSplits(Elements(), min, max);
      var has := HasInRange(min, max);
      if !has {
        return null;
      }
      var update; ghost var rank; var next;
      update, rank, next := Locate(NotPassed(max), Stop(Elements(), max));
      var n := update[0];
      assert n.element == Elements()[Stop(Elements(), max) - 1];
      if !min.Less(n.element.score) {
        return null;
      }
      return n;
    }
  }
}
