/** Nodes of the skip list and the shape their heights dictate.

    A list is written as the sequence `all` of its nodes in order, with the
    header in front, so that position and rank coincide.  The heights alone
    determine what every level of every node has to hold. */
module Shape {
  import opened Order

  const MAX_LEVEL := 16

  datatype Level = Level(forward: Node?, span: int)

  class Node {
    const element: Element
    ghost const height: nat   // the length of `level`, fixed at creation
    var backward: Node?
    var level: seq<Level>

    constructor (height: nat, score: real, member: string)
      ensures element == Element(member, score) && this.height == height
      ensures backward == null
      ensures level == seq(height, _ => Level(null, 0))
    {
      this.element := Element(member, score);
      this.height := height;
      backward := null;
      level := seq(height, _ => Level(null, 0));
    }
  }

  /** The listed elements: everything but the header. */
  ghost function ElementsOf(all: seq<Node>): (s: seq<Element>)
    ensures all != [] ==>
      |s| == |all| - 1 && forall p {:trigger all[p].element} :: 1 <= p < |all| ==> s[p-1] == all[p].element
  {
    if all == [] then [] else seq(|all| - 1, p requires 0 <= p < |all| - 1 => all[p+1].element)
  }

  ghost predicate Apart(all: seq<Node>, p: nat, q: nat)
    requires p < |all| && q < |all|
  {
    all[p] != all[q]
  }

  /** No node occurs twice. */
  ghost predicate Distinct(all: seq<Node>) {
    forall p, q {:trigger Apart(all, p, q)} :: 0 <= p < q < |all| ==> Apart(all, p, q)
  }

  lemma OnePosition(all: seq<Node>, p: nat)
    requires Distinct(all) && p < |all|
    ensures forall q {:trigger all[q]} :: 0 <= q < |all| && all[q] == all[p] ==> q == p
  {
    forall q | 0 <= q < |all| && all[q] == all[p] ensures q == p {
      assert q < p ==> Apart(all, q, p);
      assert p < q ==> Apart(all, p, q);
    }
  }

  /** Which nodes make a list of `top` levels: a header, and distinct nodes of
      heights from 1 to `top`. */
  ghost predicate Composed(all: seq<Node>, header: Node, top: int) {
    && all != [] && all[0] == header && Distinct(all)
    && header.element == Element("", 0.0) && header.height == MAX_LEVEL
    && 1 <= top <= MAX_LEVEL
    && (forall p {:trigger all[p].height} :: 1 <= p < |all| ==> 1 <= all[p].height <= top)
  }

  /** The first position after `p` that is tall enough for level `i`; the
      length of the list when there is none. */
  ghost function NextTall(all: seq<Node>, i: nat, p: nat): (q: nat)
    requires p < |all|
    ensures p < q <= |all|
    decreases |all| - p
  {
    if p + 1 == |all| || all[p+1].height > i then p + 1 else NextTall(all, i, p + 1)
  }

  lemma {:induction false} NextTallIsNext(all: seq<Node>, i: nat, p: nat)
    requires p < |all|
    ensures var q := NextTall(all, i, p);
            && (q < |all| ==> all[q].height > i)
            && (forall r :: p < r < q ==> all[r].height <= i)
    decreases |all| - p
  {
    if p + 1 < |all| && all[p+1].height <= i {
      NextTallIsNext(all, i, p + 1);
    }
  }

  /** What level `i` of the node at position `p` has to hold: the next node tall
      enough and the exact rank distance to it, or nil and the rank distance to
      the end of the list. */
  ghost function LinkAt(all: seq<Node>, i: nat, p: nat): Level
    requires p < |all|
  {
    var q := NextTall(all, i, p);
    if q < |all| then Level(all[q], q - p) else Level(null, |all| - 1 - p)
  }

  /** `p` is the last position up to `c` that is tall enough for level `i`. */
  ghost predicate IsLastTall(all: seq<Node>, i: nat, c: nat, p: nat) {
    && p <= c < |all|
    && all[p].height > i
    && forall r :: p < r <= c ==> all[r].height <= i
  }

  lemma NextTallUnique(all: seq<Node>, i: nat, p: nat, q: nat)
    requires p < q <= |all|
    requires q < |all| ==> all[q].height > i
    requires forall r :: p < r < q ==> all[r].height <= i
    ensures NextTall(all, i, p) == q
  {
    NextTallIsNext(all, i, p);
  }

  /** Of the listed nodes, exactly those up to position `c` pass `test`. */
  ghost predicate SplitsAt(all: seq<Node>, test: Element -> bool, c: nat) {
    c < |all| && forall p {:trigger all[p].element} :: 1 <= p < |all| ==> (test(all[p].element) <==> p <= c)
  }

  lemma CutSplits(all: seq<Node>, test: Element -> bool)
    requires all != [] && Downward(ElementsOf(all), test)
    ensures SplitsAt(all, test, Cut(ElementsOf(all), test))
  {
    var s, c := ElementsOf(all), Cut(ElementsOf(all), test);
    forall p | 1 <= p < |all| ensures test(all[p].element) <==> p <= c {
      assert s[p-1] == all[p].element;
    }
  }

  /** Stepping along level `i` while the element reached passes `test` stays
      within the passing prefix, and stops at its last tall position. */
  lemma NextAgainstCut(all: seq<Node>, test: Element -> bool, i: nat, c: nat, p: nat)
    requires SplitsAt(all, test, c) && p <= c && all[p].height > i
    ensures var q := NextTall(all, i, p);
            if q < |all| && test(all[q].element) then q <= c && all[q].height > i else IsLastTall(all, i, c, p)
  {
    NextTallIsNext(all, i, p);
  }

  ghost function InsertAt(all: seq<Node>, c: nat, n: Node): (r: seq<Node>)
    requires c < |all|
    ensures |r| == |all| + 1
    ensures forall p {:trigger r[p]} :: 0 <= p < |r| ==>
            r[p] == if p <= c then all[p] else if p == c + 1 then n else all[p-1]
  {
    all[..c+1] + [n] + all[c+1..]
  }

  ghost function RemoveAt(all: seq<Node>, c: nat): (r: seq<Node>)
    requires c < |all|
    ensures |r| == |all| - 1
    ensures forall p {:trigger r[p]} :: 0 <= p < |r| ==> r[p] == if p < c then all[p] else all[p+1]
  {
    all[..c] + all[c+1..]
  }

  lemma InsertComposed(all: seq<Node>, header: Node, top: int, c: nat, n: Node)
    requires Composed(all, header, top) && c < |all| && n !in all && 1 <= n.height <= top
    ensures Composed(InsertAt(all, c, n), header, top)
  {
    var all' := InsertAt(all, c, n);
    forall p, q | 0 <= p < q < |all'| ensures Apart(all', p, q) {
      if p != c + 1 && q != c + 1 {
        assert Apart(all, if p <= c then p else p - 1, if q <= c then q else q - 1);
      }
    }
  }

  /** An element not yet listed has a place, and the order holds with it there. */
  lemma InsertFits(all: seq<Node>, e: Element)
    requires all != [] && Ascending(ElementsOf(all)) && e !in ElementsOf(all)
    ensures SplitsAt(all, BeforeTest(e), CutBefore(ElementsOf(all), e))
    ensures Ascending(Put(ElementsOf(all), e))
  {
    CutBeforeSplits(ElementsOf(all), e);
    CutSplits(all, BeforeTest(e));
    PutAscending(ElementsOf(all), e);
  }

  lemma InsertPuts(all: seq<Node>, c: nat, n: Node)
    requires all != [] && c == CutBefore(ElementsOf(all), n.element)
    ensures ElementsOf(InsertAt(all, c, n)) == Put(ElementsOf(all), n.element)
  {
    var s, t := ElementsOf(InsertAt(all, c, n)), Put(ElementsOf(all), n.element);
    forall p | 0 <= p < |s| ensures s[p] == t[p] {
      assert s[p] == InsertAt(all, c, n)[p+1].element;
      if p < c {
        assert t[p] == all[p+1].element;
      } else if p > c {
        assert t[p] == all[p].element;
      }
    }
  }

  /** The top level in use stays occupied. */
  lemma InsertTop(all: seq<Node>, header: Node, top: int, top': int, c: nat, n: Node)
    requires Composed(all, header, top) && c < |all| && 1 <= n.height <= MAX_LEVEL
    requires top == 1 || NextTall(all, top - 1, 0) < |all|
    requires top' == if n.height > top then n.height else top
    ensures top' == 1 || NextTall(InsertAt(all, c, n), top' - 1, 0) < |InsertAt(all, c, n)|
  {
    var all' := InsertAt(all, c, n);
    NextTallIsNext(all', top' - 1, 0);
    if n.height >= top {
      assert all'[c+1].height > top' - 1;
    } else {
      NextTallIsNext(all, top - 1, 0);
      var q := NextTall(all, top - 1, 0);
      assert all'[if q <= c then q else q + 1].height > top' - 1;
    }
  }

  /** Inserting after `c` leaves the links behind `c` alone. */
  lemma InsertKeepsLater(all: seq<Node>, c: nat, n: Node, i: nat, p: nat)
    requires c < p < |all|
    ensures LinkAt(InsertAt(all, c, n), i, p + 1) == LinkAt(all, i, p)
  {
    NextTallIsNext(all, i, p);
    NextTallUnique(InsertAt(all, c, n), i, p + 1, NextTall(all, i, p) + 1);
  }

  /** Inserting after `c` leaves the links that end at or before `c` alone. */
  lemma InsertKeepsEarlier(all: seq<Node>, c: nat, n: Node, i: nat, p: nat)
    requires c < |all| && p < |all| && NextTall(all, i, p) <= c
    ensures LinkAt(InsertAt(all, c, n), i, p) == LinkAt(all, i, p)
  {
    NextTallIsNext(all, i, p);
    NextTallUnique(InsertAt(all, c, n), i, p, NextTall(all, i, p));
  }

  /** A link over the place of a tall enough new node is split in two. */
  lemma InsertSplits(all: seq<Node>, c: nat, n: Node, i: nat, p: nat)
    requires IsLastTall(all, i, c, p) && i < n.height
    ensures var l := LinkAt(all, i, p);
            && LinkAt(InsertAt(all, c, n), i, p) == Level(n, c + 1 - p)
            && LinkAt(InsertAt(all, c, n), i, c + 1) == Level(l.forward, l.span - (c - p))
  {
    NextTallIsNext(all, i, p);
    NextTallUnique(InsertAt(all, c, n), i, p, c + 1);
    NextTallUnique(InsertAt(all, c, n), i, c + 1, NextTall(all, i, p) + 1);
  }

  /** A link over the place of a lower new node counts one more. */
  lemma InsertStretches(all: seq<Node>, c: nat, n: Node, i: nat, p: nat)
    requires IsLastTall(all, i, c, p) && n.height <= i
    ensures var l := LinkAt(all, i, p);
            LinkAt(InsertAt(all, c, n), i, p) == Level(l.forward, l.span + 1)
  {
    NextTallIsNext(all, i, p);
    NextTallUnique(InsertAt(all, c, n), i, p, NextTall(all, i, p) + 1);
  }

  /** The two updates of an insertion give the links of the longer list. */
  ghost predicate InsertsOnPath(all: seq<Node>, c: nat, n: Node, i: nat, p: nat)
    requires p < |all| && c < |all|
  {
    var l, all' := LinkAt(all, i, p), InsertAt(all, c, n);
    if i < n.height then
      LinkAt(all', i, p) == Level(n, (c - p) + 1) && LinkAt(all', i, c + 1) == Level(l.forward, l.span - (c - p))
    else
      LinkAt(all', i, p) == l.(span := l.span + 1)
  }

  lemma InsertOnPath(all: seq<Node>, c: nat, n: Node, i: nat, p: nat)
    requires IsLastTall(all, i, c, p)
    ensures InsertsOnPath(all, c, n, i, p)
  {
    if i < n.height {
      InsertSplits(all, c, n, i, p);
    } else {
      InsertStretches(all, c, n, i, p);
    }
  }

  /** Only the last tall position before the new node changes its link. */
  lemma InsertElsewhere(all: seq<Node>, c: nat, n: Node, i: nat, last: nat, p: nat)
    requires IsLastTall(all, i, c, last) && p < |all| && p != last && all[p].height > i
    ensures LinkAt(InsertAt(all, c, n), i, if p <= c then p else p + 1) == LinkAt(all, i, p)
  {
    NextTallIsNext(all, i, p);
    if p <= c {
      InsertKeepsEarlier(all, c, n, i, p);
    } else {
      InsertKeepsLater(all, c, n, i, p);
    }
  }

  lemma RemoveKeepsLater(all: seq<Node>, c: nat, i: nat, p: nat)
    requires c < p < |all|
    ensures LinkAt(RemoveAt(all, c), i, p - 1) == LinkAt(all, i, p)
  {
    NextTallIsNext(all, i, p);
    NextTallUnique(RemoveAt(all, c), i, p - 1, NextTall(all, i, p) - 1);
  }

  lemma RemoveKeepsEarlier(all: seq<Node>, c: nat, i: nat, p: nat)
    requires c < |all| && p < |all| && NextTall(all, i, p) < c
    ensures LinkAt(RemoveAt(all, c), i, p) == LinkAt(all, i, p)
  {
    NextTallIsNext(all, i, p);
    NextTallUnique(RemoveAt(all, c), i, p, NextTall(all, i, p));
  }

  /** The two links that meet at a removed node are joined. */
  lemma RemoveJoins(all: seq<Node>, c: nat, i: nat, p: nat)
    requires c + 1 < |all| && IsLastTall(all, i, c, p) && i < all[c+1].height
    ensures var l := LinkAt(all, i, c + 1);
            LinkAt(RemoveAt(all, c + 1), i, p) == Level(l.forward, LinkAt(all, i, p).span + l.span - 1)
  {
    NextTallIsNext(all, i, c + 1);
    NextTallUnique(all, i, p, c + 1);
    NextTallUnique(RemoveAt(all, c + 1), i, p, NextTall(all, i, c + 1) - 1);
  }

  /** A link over a removed lower node counts one less. */
  lemma RemoveShrinks(all: seq<Node>, c: nat, i: nat, p: nat)
    requires c + 1 < |all| && IsLastTall(all, i, c, p) && all[c+1].height <= i
    ensures var l := LinkAt(all, i, p);
            LinkAt(RemoveAt(all, c + 1), i, p) == Level(l.forward, l.span - 1)
  {
    NextTallIsNext(all, i, p);
    NextTallUnique(RemoveAt(all, c + 1), i, p, NextTall(all, i, p) - 1);
  }

  lemma RemoveElsewhere(all: seq<Node>, c: nat, i: nat, last: nat, p: nat)
    requires c + 1 < |all| && IsLastTall(all, i, c, last) && p < |all| && p != last && p != c + 1 && all[p].height > i
    ensures LinkAt(RemoveAt(all, c + 1), i, if p <= c then p else p - 1) == LinkAt(all, i, p)
  {
    NextTallIsNext(all, i, p);
    if p <= c {
      RemoveKeepsEarlier(all, c + 1, i, p);
    } else {
      RemoveKeepsLater(all, c + 1, i, p);
    }
  }

  /** The link over a removed node, along its path. */
  lemma RemoveOnPath(all: seq<Node>, c: nat, i: nat, p: nat)
    requires c + 1 < |all| && IsLastTall(all, i, c, p) && Distinct(all)
    ensures var l, now := LinkAt(all, i, p), LinkAt(RemoveAt(all, c + 1), i, p);
            if l.forward == all[c+1] then
              i < all[c+1].height &&
                now == Level(LinkAt(all, i, c + 1).forward, l.span + (LinkAt(all, i, c + 1).span - 1))
            else
              now == l.(span := l.span - 1)
  {
    NextTallIsNext(all, i, p);
    if i < all[c+1].height {
      NextTallUnique(all, i, p, c + 1);
      RemoveJoins(all, c, i, p);
    } else {
      RemoveShrinks(all, c, i, p);
    }
  }

  lemma RemoveComposed(all: seq<Node>, header: Node, top: int, c: nat)
    requires Composed(all, header, top) && c + 1 < |all|
    ensures Composed(RemoveAt(all, c + 1), header, top)
  {
    var all' := RemoveAt(all, c + 1);
    forall p, q | 0 <= p < q < |all'| ensures Apart(all', p, q) {
      assert Apart(all, if p <= c then p else p + 1, if q <= c then q else q + 1);
    }
  }

  ghost function NodeSet(all: seq<Node>): set<Node> {
    set n | n in all
  }

  lemma RemoveNodeSet(all: seq<Node>, c: nat)
    requires c < |all|
    ensures NodeSet(RemoveAt(all, c)) <= NodeSet(all)
  {
    forall n | n in RemoveAt(all, c) ensures n in all {
      var p :| 0 <= p < |RemoveAt(all, c)| && RemoveAt(all, c)[p] == n;
      assert n == all[if p < c then p else p + 1];
    }
  }

  lemma RemoveElements(all: seq<Node>, c: nat)
    requires c + 1 < |all|
    ensures ElementsOf(RemoveAt(all, c + 1)) == Drop(ElementsOf(all), c)
    ensures Ascending(ElementsOf(all)) ==> Ascending(ElementsOf(RemoveAt(all, c + 1)))
  {
    if Ascending(ElementsOf(all)) {
      DropElements(ElementsOf(all), c);
    }
    var s, t := ElementsOf(RemoveAt(all, c + 1)), Drop(ElementsOf(all), c);
    forall p | 0 <= p < |s| ensures s[p] == t[p] {
      assert s[p] == RemoveAt(all, c + 1)[p+1].element;
      assert t[p] == all[if p < c then p + 1 else p + 2].element;
    }
  }

  lemma RemoveKeepsPath(all: seq<Node>, c: nat, i: nat, p: nat)
    requires c + 1 < |all| && IsLastTall(all, i, c, p)
    ensures IsLastTall(RemoveAt(all, c + 1), i, c, p)
  {
  }
}
