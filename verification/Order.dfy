/** The order a sorted set keeps: by score, then by member.

    A finite map from members to scores has exactly one listing in that order.
    Every answer of the sorted set is stated over this listing. */
module Order {
  datatype Element = Element(member: string, score: real)

  /** A time in seconds as a score. */
  function Score(ts: int): real {
    ts as real
  }

  /** `<` on strings: lexicographic, a proper prefix comes first. */
  predicate StringLess(a: string, b: string) {
    b != [] && (a == [] || a[0] < b[0] || (a[0] == b[0] && StringLess(a[1..], b[1..])))
  }

  predicate Before(a: Element, b: Element) {
    a.score < b.score || (a.score == b.score && StringLess(a.member, b.member))
  }

  predicate AtOrBefore(a: Element, b: Element) {
    a.score < b.score || (a.score == b.score && (a.member == b.member || StringLess(a.member, b.member)))
  }

  lemma {:induction false} StringLessTransitive(a: string, b: string, c: string)
    requires StringLess(a, b) && StringLess(b, c)
    ensures StringLess(a, c)
  {
    if a != [] && a[0] == b[0] == c[0] {
      StringLessTransitive(a[1..], b[1..], c[1..]);
    }
  }

  lemma {:induction false} StringLessTrichotomy(a: string, b: string)
    ensures StringLess(a, b) || a == b || StringLess(b, a)
    ensures !(StringLess(a, b) && StringLess(b, a))
    ensures StringLess(a, b) ==> a != b
  {
    if a != [] && b != [] {
      StringLessTrichotomy(a[1..], b[1..]);
      if a[0] == b[0] && a[1..] == b[1..] {
        assert a == [a[0]] + a[1..];
        assert b == [b[0]] + b[1..];
      }
    }
  }

  /** The strings first differ at i, and there the first has the lesser character. */
  ghost predicate LessAt(a: string, b: string, i: nat) {
    i < |a| && i < |b| && a[..i] == b[..i] && a[i] < b[i]
  }

  lemma LessAtRest(a: string, b: string, i: nat)
    requires a != [] && b != [] && a[0] == b[0]
    ensures LessAt(a, b, i + 1) <==> LessAt(a[1..], b[1..], i)
  {
    if i < |a| - 1 && i < |b| - 1 {
      assert a[..i+1] == [a[0]] + a[1..][..i] && b[..i+1] == [b[0]] + b[1..][..i];
      assert a[..i+1][1..] == a[1..][..i] && b[..i+1][1..] == b[1..][..i];
    }
  }

  lemma PrefixRest(a: string, b: string)
    requires a != [] && b != [] && a[0] == b[0]
    ensures a < b <==> a[1..] < b[1..]
  {
    assert a == [a[0]] + a[1..] && b == [b[0]] + b[1..];
  }

  /** A string is less than another exactly when it is a proper prefix of it, or
      has the lesser character where the two first differ. */
  lemma {:induction false} StringLessExact(a: string, b: string)
    ensures StringLess(a, b) <==> a < b || exists i: nat :: LessAt(a, b, i)
  {
    if a != [] && b != [] {
      if a[0] == b[0] {
        StringLessExact(a[1..], b[1..]);
        PrefixRest(a, b);
        forall i: nat ensures LessAt(a, b, i) ==> 0 < i && LessAt(a[1..], b[1..], i - 1) {
          if 0 < i {
            LessAtRest(a, b, i - 1);
          }
        }
        forall i: nat ensures LessAt(a[1..], b[1..], i) ==> LessAt(a, b, i + 1) {
          LessAtRest(a, b, i);
        }
      } else {
        assert a[0] < b[0] ==> LessAt(a, b, 0);
        assert forall i: nat :: LessAt(a, b, i) && i > 0 ==> a[..i][0] == b[..i][0];
      }
    }
  }

  /** `Before` is a strict total order on elements. */
  lemma BeforeIsTotalOrder(a: Element, b: Element, c: Element)
    ensures !Before(a, a)
    ensures Before(a, b) || a == b || Before(b, a)
    ensures !(Before(a, b) && Before(b, a))
    ensures Before(a, b) && Before(b, c) ==> Before(a, c)
    ensures AtOrBefore(a, b) <==> !Before(b, a)
  {
    StringLessTrichotomy(a.member, a.member);
    StringLessTrichotomy(a.member, b.member);
    if StringLess(a.member, b.member) && StringLess(b.member, c.member) {
      StringLessTransitive(a.member, b.member, c.member);
    }
  }

  ghost predicate Ascending(s: seq<Element>) {
    forall i, j {:trigger Before(s[i], s[j])} :: 0 <= i < j < |s| ==> Before(s[i], s[j])
  }

  /** `s` is the map `m`, written out in ascending order. */
  ghost predicate Lists(s: seq<Element>, m: map<string, real>) {
    && Ascending(s)
    && (forall e {:trigger e in s} :: e in s ==> e.member in m && m[e.member] == e.score)
    && (forall k {:trigger Element(k, m[k])} :: k in m ==> Element(k, m[k]) in s)
  }

  /** Exactly the first `c` elements, and no longer run, satisfy `test`. */
  ghost predicate IsCut(s: seq<Element>, test: Element -> bool, c: nat) {
    c <= |s| && (forall i :: 0 <= i < c ==> test(s[i])) && (c < |s| ==> !test(s[c]))
  }

  lemma {:induction false} CutExists(s: seq<Element>, test: Element -> bool) returns (c: nat)
    ensures IsCut(s, test, c)
  {
    if s == [] || !test(s[0]) {
      c := 0;
    } else {
      c := CutExists(s[1..], test);
      c := c + 1;
    }
  }

  lemma CutHas(s: seq<Element>, test: Element -> bool)
    ensures exists c :: IsCut(s, test, c)
  {
    var c := CutExists(s, test);
  }

  /** The number of leading elements that satisfy `test`. */
  ghost function Cut(s: seq<Element>, test: Element -> bool): (c: nat)
    ensures c <= |s|
    ensures forall i :: 0 <= i < c ==> test(s[i])
    ensures c < |s| ==> !test(s[c])
  {
    CutHas(s, test);
    var c :| IsCut(s, test, c);
    c
  }

  /** Along `s`, `test` never becomes true again once it is false. */
  ghost predicate Downward(s: seq<Element>, test: Element -> bool) {
    forall i, j :: 0 <= i < j < |s| && test(s[j]) ==> test(s[i])
  }

  function BeforeTest(e: Element): Element -> bool {
    (x: Element) => Before(x, e)
  }

  function AtOrBeforeTest(e: Element): Element -> bool {
    (x: Element) => AtOrBefore(x, e)
  }

  ghost function CutBefore(s: seq<Element>, e: Element): nat {
    Cut(s, BeforeTest(e))
  }

  /** In an ascending sequence the elements before `e` are exactly the first
      `CutBefore` ones, so `e` can only stand at that index. */
  lemma CutBeforeSplits(s: seq<Element>, e: Element)
    requires Ascending(s)
    ensures Downward(s, BeforeTest(e)) && Downward(s, AtOrBeforeTest(e))
    ensures var c := CutBefore(s, e);
            forall i :: 0 <= i < |s| ==>
              (Before(s[i], e) <==> i < c) && (s[i] == e ==> i == c) && (i >= c && e !in s ==> Before(e, s[i]))
  {
    forall i, j | 0 <= i < j < |s|
      ensures (Before(s[j], e) ==> Before(s[i], e)) && (AtOrBefore(s[j], e) ==> AtOrBefore(s[i], e))
    {
      BeforeIsTotalOrder(s[i], s[j], e);
      BeforeIsTotalOrder(e, s[j], e);
      BeforeIsTotalOrder(e, s[i], s[j]);
      BeforeIsTotalOrder(s[i], e, e);
    }
    forall i | 0 <= i < |s| ensures s[i] == e || Before(s[i], e) || Before(e, s[i])
                            ensures s[i] == e ==> !Before(s[i], e) {
      BeforeIsTotalOrder(s[i], e, e);
    }
    BeforeIsTotalOrder(e, e, e);
  }

  lemma CutUnique(s: seq<Element>, test: Element -> bool, c: nat)
    requires IsCut(s, test, c)
    ensures Cut(s, test) == c
  {
  }

  /** The elements at or before a listed element end with it. */
  lemma CutAtOrBefore(s: seq<Element>, e: Element)
    requires Ascending(s)
    ensures Downward(s, AtOrBeforeTest(e))
    ensures forall i :: 0 <= i < |s| && s[i] == e ==> Cut(s, AtOrBeforeTest(e)) == i + 1
  {
    CutBeforeSplits(s, e);
    forall i | 0 <= i < |s| && s[i] == e ensures Cut(s, AtOrBeforeTest(e)) == i + 1 {
      forall j | 0 <= j < |s| ensures AtOrBefore(s[j], e) <==> j <= i {
        BeforeIsTotalOrder(s[j], e, e);
        assert i < j ==> Before(s[i], s[j]);
      }
      CutUnique(s, AtOrBeforeTest(e), i + 1);
    }
  }

  /** `s` with `e` put in at its place. */
  ghost function Put(s: seq<Element>, e: Element): (r: seq<Element>)
    ensures |r| == |s| + 1
  {
    s[..CutBefore(s, e)] + [e] + s[CutBefore(s, e)..]
  }

  lemma PutElements(s: seq<Element>, e: Element)
    ensures forall x :: x in Put(s, e) <==> x == e || x in s
  {
    assert s == s[..CutBefore(s, e)] + s[CutBefore(s, e)..];
  }

  lemma PutAscending(s: seq<Element>, e: Element)
    requires Ascending(s) && e !in s
    ensures Ascending(Put(s, e))
  {
    CutBeforeSplits(s, e);
  }

  /** Putting a new member's element into a listing lists the extended map. */
  lemma PutLists(s: seq<Element>, m: map<string, real>, k: string, v: real)
    requires Lists(s, m) && k !in m
    ensures Lists(Put(s, Element(k, v)), m[k := v])
  {
    PutAscending(s, Element(k, v));
    PutElements(s, Element(k, v));
  }

  /** `s` without the element at index `c`. */
  ghost function Drop(s: seq<Element>, c: nat): seq<Element>
    requires c < |s|
  {
    s[..c] + s[c+1..]
  }

  /** `s` without the `k` elements from index `c` on. */
  ghost function Cutout(s: seq<Element>, c: nat, k: nat): (r: seq<Element>)
    requires c + k <= |s|
    ensures |r| == |s| - k
  {
    s[..c] + s[c+k..]
  }

  lemma CutoutStep(s: seq<Element>, c: nat, k: nat)
    requires c + k < |s|
    ensures Cutout(s, c, k)[c] == s[c+k]
    ensures Drop(Cutout(s, c, k), c) == Cutout(s, c, k + 1)
  {
  }

  lemma DropElements(s: seq<Element>, c: nat)
    requires Ascending(s) && c < |s|
    ensures Ascending(Drop(s, c))
    ensures forall e :: e in Drop(s, c) <==> e in s && e != s[c]
  {
    var t := Drop(s, c);
    assert s == s[..c] + [s[c]] + s[c+1..];
    CutBeforeSplits(s, s[c]);
  }

  /** Taking a member's element out of a listing lists the smaller map. */
  lemma DropLists(s: seq<Element>, m: map<string, real>, c: nat)
    requires Lists(s, m) && c < |s|
    ensures Lists(Drop(s, c), m - {s[c].member})
  {
    DropElements(s, c);
    forall k | k in m - {s[c].member} ensures Element(k, m[k]) in Drop(s, c) {
      assert Element(k, m[k]) in s;
    }
    forall e | e in Drop(s, c) ensures e.member in m - {s[c].member} {
      assert e in s && s[c] in s;
    }
  }

  /** Every finite map has a listing. */
  lemma {:induction false} ListingExists(m: map<string, real>) returns (s: seq<Element>)
    ensures Lists(s, m) && |s| == |m|
  {
    if m == map[] {
      s := [];
    } else {
      var k :| k in m;
      var m', v := m - {k}, m[k];
      assert m == m'[k := v] && |m'| == |m| - 1;
      var rest := ListingExists(m');
      PutLists(rest, m', k, v);
      s := Put(rest, Element(k, v));
    }
  }

  lemma FirstIsIn(t: seq<Element>)
    ensures t == [] || t[0] in t
  {
  }

  lemma {:induction false} SameElementsSameSequence(s: seq<Element>, t: seq<Element>)
    requires Ascending(s) && Ascending(t)
    requires forall e :: e in s <==> e in t
    ensures s == t
  {
    if s == [] {
      FirstIsIn(t);
    } else {
      assert s[0] in t;
      assert t[0] in s;
      var i :| 0 <= i < |t| && t[i] == s[0];
      var j :| 0 <= j < |s| && s[j] == t[0];
      if s[0] != t[0] {
        BeforeIsTotalOrder(s[0], t[0], s[0]);
        assert false;
      }
      forall e ensures e in s[1..] <==> e in t[1..] {
        BeforeIsTotalOrder(s[0], s[0], s[0]);
        if e in s[1..] { assert e in t; }
        if e in t[1..] { assert e in s; }
      }
      SameElementsSameSequence(s[1..], t[1..]);
    }
  }

  /** Two listings of a map are equal, and as long as the map. */
  lemma ListingsAgree(s: seq<Element>, t: seq<Element>, m: map<string, real>)
    requires Lists(s, m) && Lists(t, m)
    ensures s == t && |s| == |m|
  {
    var u := ListingExists(m);
    assert forall e :: e in s <==> e in t;
    assert forall e :: e in s <==> e in u;
    SameElementsSameSequence(s, t);
    SameElementsSameSequence(s, u);
  }

  lemma ListingHas(m: map<string, real>)
    ensures exists s :: Lists(s, m)
  {
    var s := ListingExists(m);
  }

  /** The elements of a map in ascending order. */
  ghost function Listing(m: map<string, real>): (s: seq<Element>)
    ensures |s| == |m|
  {
    ListingHas(m);
    var s :| Lists(s, m);
    ListingsAgree(s, s, m);
    s
  }

  lemma ListingLists(m: map<string, real>)
    ensures Lists(Listing(m), m)
  {
    ListingHas(m);
  }

  /** A map has only one listing. */
  lemma ListingUnique(s: seq<Element>, m: map<string, real>)
    requires Lists(s, m)
    ensures s == Listing(m)
  {
    ListingsAgree(s, Listing(m), m);
  }

  /** The members of `m` whose element comes strictly before `e`. */
  ghost function Smaller(m: map<string, real>, e: Element): set<string> {
    set k | k in m && Before(Element(k, m[k]), e)
  }

  lemma SmallerThanFirst(s: seq<Element>, m: map<string, real>)
    requires Lists(s, m) && s != []
    ensures Smaller(m, s[0]) == {}
  {
    CutBeforeSplits(s, s[0]);
  }

  lemma SmallerStep(s: seq<Element>, m: map<string, real>, i: nat)
    requires Lists(s, m) && 0 < i < |s|
    ensures s[i-1].member !in Smaller(m, s[i-1])
    ensures Smaller(m, s[i]) == Smaller(m, s[i-1]) + {s[i-1].member}
  {
    CutBeforeSplits(s, s[i-1]);
    CutBeforeSplits(s, s[i]);
  }

  /** The index of an element in the listing is the number of smaller elements. */
  lemma {:induction false} IndexIsSmallerCount(s: seq<Element>, m: map<string, real>, i: nat)
    requires Lists(s, m) && i < |s|
    ensures i == |Smaller(m, s[i])|
  {
    if i == 0 {
      SmallerThanFirst(s, m);
    } else {
      IndexIsSmallerCount(s, m, i - 1);
      SmallerStep(s, m, i);
    }
  }
}
