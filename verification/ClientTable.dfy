/** The clients a proxy knows, as values: what each event makes of the list of
    connected clients and of the list still to be connected. */
module ClientTables {
  import opened Order
  import Namings

  datatype ClientStatus = ClientStatus(retryConnectTs: int, seriesFailCount: int)

  datatype ClientData = ClientData(serviceId: string, status: ClientStatus)

  datatype Client = Client(host: string, port: int, data: ClientData) {
    predicate At(host: string, port: int) { this.host == host && this.port == port }

    function Address(): string { host + ":" + Namings.Itoa(port) }
  }

  function NewClient(host: string, port: int, serviceId: string): Client {
    Client(host, port, ClientData(serviceId, ClientStatus(0, 0)))
  }

  datatype Clients = Clients(active: seq<Client>, inactive: seq<Client>) {
    ghost function All(): multiset<Client> { multiset(active) + multiset(inactive) }
  }

  lemma AddressExample(data: ClientData)
    ensures Client("10.0.0.1", 8080, data).Address() == "10.0.0.1:8080"
  {
    Namings.ItoaExamples();
  }

  /** Two clients have one address exactly when host and port agree. */
  lemma AddressInjective(c: Client, d: Client)
    ensures c.Address() == d.Address() <==> c.At(d.host, d.port)
  {
    if c.Address() == d.Address() {
      Namings.ItoaFree(c.port, ':');
      Namings.ItoaFree(d.port, ':');
      Namings.AfterLastOf(c.host, Namings.Itoa(c.port), ':');
      Namings.AfterLastOf(d.host, Namings.Itoa(d.port), ':');
      Namings.ItoaInjective(c.port, d.port);
      assert c.host == c.Address()[..|c.host|];
    }
  }

  // ----- the order of the connected clients -----

  ghost predicate Ordered(s: seq<Client>) {
    forall i, j :: 0 <= i < j < |s| ==> !StringLess(s[j].Address(), s[i].Address())
  }

  function WithAddress(s: seq<Client>, a: string): seq<Client> {
    if s == [] then [] else (if s[0].Address() == a then [s[0]] else []) + WithAddress(s[1..], a)
  }

  /** `t` holds the clients of `s` by address, those of one address in the order
      they had. */
  ghost predicate StableSortOf(t: seq<Client>, s: seq<Client>) {
    Ordered(t) && forall a :: WithAddress(t, a) == WithAddress(s, a)
  }

  function Inserted(c: Client, s: seq<Client>): seq<Client> {
    if s == [] || !StringLess(s[0].Address(), c.Address()) then [c] + s
    else [s[0]] + Inserted(c, s[1..])
  }

  function Sorted(s: seq<Client>): seq<Client> {
    if s == [] then [] else Inserted(s[0], Sorted(s[1..]))
  }

  lemma NotLessTransitive(a: string, b: string, c: string)
    requires !StringLess(b, a) && !StringLess(c, b)
    ensures !StringLess(c, a)
  {
    StringLessTrichotomy(a, b);
    StringLessTrichotomy(b, c);
    StringLessTrichotomy(a, c);
    if StringLess(a, b) && StringLess(b, c) {
      StringLessTransitive(a, b, c);
    }
  }

  lemma {:induction false} InsertedElements(c: Client, s: seq<Client>)
    ensures multiset(Inserted(c, s)) == multiset(s) + multiset{c}
  {
    if s != [] && StringLess(s[0].Address(), c.Address()) {
      InsertedElements(c, s[1..]);
      assert s == [s[0]] + s[1..];
    }
  }

  lemma WithAddressFirst(c: Client, s: seq<Client>, a: string)
    ensures WithAddress([c] + s, a) == (if c.Address() == a then [c] else []) + WithAddress(s, a)
  {
    assert ([c] + s)[1..] == s;
  }

  lemma OneEmptySwaps(x: seq<Client>, y: seq<Client>, s: seq<Client>)
    requires x == [] || y == []
    ensures x + (y + s) == y + (x + s)
  {
  }

  lemma WithAddressSwap(c: Client, d: Client, s: seq<Client>, a: string)
    requires c.Address() != d.Address()
    ensures WithAddress([c] + ([d] + s), a) == WithAddress([d] + ([c] + s), a)
    ensures WithAddress([c] + ([d] + s), a) == (if c.Address() == a then [c] else []) + WithAddress([d] + s, a)
  {
    WithAddressFirst(c, [d] + s, a);
    WithAddressFirst(d, [c] + s, a);
    WithAddressFirst(c, s, a);
    WithAddressFirst(d, s, a);
    var x, y := if c.Address() == a then [c] else [], if d.Address() == a then [d] else [];
    OneEmptySwaps(x, y, WithAddress(s, a));
  }

  lemma {:induction false} InsertedGroup(c: Client, s: seq<Client>, a: string)
    ensures WithAddress(Inserted(c, s), a) == WithAddress([c] + s, a)
  {
    if s != [] && StringLess(s[0].Address(), c.Address()) {
      var rest := s[1..];
      InsertedGroup(c, rest, a);
      StringLessTrichotomy(s[0].Address(), c.Address());
      WithAddressFirst(s[0], Inserted(c, rest), a);
      WithAddressSwap(s[0], c, rest, a);
      assert s == [s[0]] + rest;
    }
  }

  lemma {:induction false} InsertedOrdered(c: Client, s: seq<Client>)
    requires Ordered(s)
    ensures Ordered(Inserted(c, s))
  {
    if s == [] || !StringLess(s[0].Address(), c.Address()) {
      forall j | 0 <= j < |s| ensures !StringLess(s[j].Address(), c.Address()) {
        StringLessTrichotomy(s[0].Address(), s[0].Address());
        NotLessTransitive(c.Address(), s[0].Address(), s[j].Address());
      }
    } else {
      var rest := Inserted(c, s[1..]);
      InsertedOrdered(c, s[1..]);
      InsertedElements(c, s[1..]);
      StringLessTrichotomy(s[0].Address(), c.Address());
      forall j | 0 <= j < |rest| ensures !StringLess(rest[j].Address(), s[0].Address()) {
        assert rest[j] in multiset(rest);
        if rest[j] != c {
          assert rest[j] in s[1..];
        }
      }
    }
  }

  lemma {:induction false} SortedOrdered(s: seq<Client>)
    ensures Ordered(Sorted(s))
  {
    if s != [] {
      SortedOrdered(s[1..]);
      InsertedOrdered(s[0], Sorted(s[1..]));
    }
  }

  lemma {:induction false} SortedElements(s: seq<Client>)
    ensures multiset(Sorted(s)) == multiset(s)
  {
    if s != [] {
      SortedElements(s[1..]);
      InsertedElements(s[0], Sorted(s[1..]));
      assert s == [s[0]] + s[1..];
    }
  }

  lemma {:induction false} SortedGroup(s: seq<Client>, a: string)
    ensures WithAddress(Sorted(s), a) == WithAddress(s, a)
  {
    if s != [] {
      var rest := Sorted(s[1..]);
      SortedGroup(s[1..], a);
      InsertedGroup(s[0], rest, a);
      assert ([s[0]] + rest)[1..] == rest;
    }
  }

  lemma SortedSorts(s: seq<Client>)
    ensures StableSortOf(Sorted(s), s)
    ensures multiset(Sorted(s)) == multiset(s) && |Sorted(s)| == |s|
  {
    SortedOrdered(s);
    SortedElements(s);
    assert |Sorted(s)| == |multiset(Sorted(s))| && |s| == |multiset(s)|;
    forall a ensures WithAddress(Sorted(s), a) == WithAddress(s, a) {
      SortedGroup(s, a);
    }
  }

  lemma {:induction false} WithAddressFinds(s: seq<Client>, a: string)
    ensures WithAddress(s, a) != [] <==> exists i :: 0 <= i < |s| && s[i].Address() == a
    ensures WithAddress(s, a) != [] ==> WithAddress(s, a)[0].Address() == a
  {
    if s != [] {
      WithAddressFinds(s[1..], a);
      if WithAddress(s[1..], a) != [] {
        var i :| 0 <= i < |s[1..]| && s[1..][i].Address() == a;
        assert s[i + 1].Address() == a;
      }
      if s[0].Address() != a && exists i :: 0 <= i < |s| && s[i].Address() == a {
        var i :| 0 <= i < |s| && s[i].Address() == a;
        assert s[1..][i - 1].Address() == a;
      }
    }
  }

  /** The first address of an ordered list is at most any address it holds. */
  lemma HeadLeast(t: seq<Client>, u: seq<Client>)
    requires Ordered(t) && Ordered(u) && t != [] && u != []
    requires exists i :: 0 <= i < |u| && u[i].Address() == t[0].Address()
    requires exists i :: 0 <= i < |t| && t[i].Address() == u[0].Address()
    ensures t[0].Address() == u[0].Address()
  {
    StringLessTrichotomy(t[0].Address(), u[0].Address());
  }

  lemma {:induction false} SameGroups(t: seq<Client>, u: seq<Client>)
    requires Ordered(t) && Ordered(u) && forall a :: WithAddress(t, a) == WithAddress(u, a)
    ensures t == u
  {
    if t == [] {
      if u != [] {
        WithAddressFinds(u, u[0].Address());
      }
    } else {
      var a := t[0].Address();
      WithAddressFinds(t, a);
      WithAddressFinds(u, a);
      WithAddressFinds(t, u[0].Address());
      WithAddressFinds(u, u[0].Address());
      HeadLeast(t, u);
      assert WithAddress(t, a)[0] == t[0] && WithAddress(u, a)[0] == u[0];
      forall b ensures WithAddress(t[1..], b) == WithAddress(u[1..], b) {
        var head := if b == a then [t[0]] else [];
        assert WithAddress(t, b) == head + WithAddress(t[1..], b);
        assert WithAddress(u, b) == head + WithAddress(u[1..], b);
        assert (head + WithAddress(t[1..], b))[|head|..] == WithAddress(t[1..], b);
      }
      SameGroups(t[1..], u[1..]);
    }
  }

  /** A stable sort by address has one result, whatever the algorithm. */
  lemma {:induction false} StableSortUnique(t: seq<Client>, s: seq<Client>)
    requires StableSortOf(t, s)
    ensures t == Sorted(s)
  {
    SortedSorts(s);
    SameGroups(t, Sorted(s));
  }

  function Addresses(s: seq<Client>): (r: seq<string>)
    ensures |r| == |s|
  {
    seq(|s|, i requires 0 <= i < |s| => s[i].Address())
  }

  /** The client a request of this hash goes to. */
  function Routed(s: seq<Client>, hash: nat): Client
    requires s != []
  {
    s[hash % |s|]
  }

  lemma {:induction false} AtLeastOnce(k: int, n: int)
    requires 0 < k && 0 < n
    ensures n <= k * n
  {
    if k != 1 {
      AtLeastOnce(k - 1, n);
      assert k * n == (k - 1) * n + n;
    }
  }

  lemma Multiple(k: int, n: int)
    requires 0 < n && -n < k * n < n
    ensures k == 0
  {
    assert (-k) * n == -(k * n);
    if 0 < k {
      AtLeastOnce(k, n);
    } else if k < 0 {
      AtLeastOnce(-k, n);
    }
  }

  lemma RemainderSmall(h: int, n: int)
    requires 0 <= h < n
    ensures h % n == h
  {
    assert h == h / n * n + h % n;
    Multiple(h / n, n);
  }

  lemma RemainderRepeats(h: int, n: int)
    requires 0 < n
    ensures (h + n) % n == h % n
  {
    var k := (h + n) / n - 1 - h / n;
    assert h == h / n * n + h % n && h + n == (h + n) / n * n + (h + n) % n;
    assert k * n == (h + n) / n * n - n - h / n * n;
    Multiple(k, n);
  }

  /** The hash goes round the list: every client has its hashes, and they repeat. */
  lemma RoutedExact(s: seq<Client>, hash: nat)
    requires s != []
    ensures hash < |s| ==> Routed(s, hash) == s[hash]
    ensures Routed(s, hash + |s|) == Routed(s, hash)
  {
    RemainderRepeats(hash, |s|);
    if hash < |s| {
      RemainderSmall(hash, |s|);
    }
  }

  ghost predicate NonDescending(x: seq<string>) {
    forall i, j :: 0 <= i < j < |x| ==> !StringLess(x[j], x[i])
  }

  lemma FirstAndRest(x: seq<string>)
    requires x != []
    ensures multiset(x) == multiset{x[0]} + multiset(x[1..])
  {
    assert x == [x[0]] + x[1..];
  }

  lemma FirstSame(x: seq<string>, y: seq<string>)
    requires x != [] && y != [] && x[0] in y && y[0] in x
    requires NonDescending(x) && NonDescending(y)
    ensures x[0] == y[0]
  {
    StringLessTrichotomy(x[0], y[0]);
    StringLessTrichotomy(x[0], x[0]);
  }

  lemma SameElementsSplit(x: seq<string>, y: seq<string>)
    requires multiset(x) == multiset(y) && x != []
    ensures y != [] && x[0] in y && y[0] in x
    ensures x[0] == y[0] ==> multiset(x[1..]) == multiset(y[1..])
  {
    FirstAndRest(x);
    assert x[0] in multiset(y);
    FirstAndRest(y);
    assert y[0] in multiset(x);
    assert multiset(x[1..]) == multiset(x) - multiset{x[0]};
    assert multiset(y[1..]) == multiset(y) - multiset{y[0]};
  }

  lemma {:induction false} NonDescendingUnique(x: seq<string>, y: seq<string>)
    requires NonDescending(x) && NonDescending(y) && multiset(x) == multiset(y)
    ensures x == y
  {
    if x == [] {
      if y != [] { FirstAndRest(y); }
    } else {
      SameElementsSplit(x, y);
      FirstSame(x, y);
      NonDescendingUnique(x[1..], y[1..]);
      assert x == [x[0]] + x[1..] && y == [y[0]] + y[1..];
    }
  }

  /** Two proxies connected to the same addresses send every hash to the same
      host and port. */
  lemma SameRoute(s: seq<Client>, t: seq<Client>, hash: nat)
    requires Ordered(s) && Ordered(t) && s != []
    requires multiset(Addresses(s)) == multiset(Addresses(t))
    ensures t != [] && Routed(t, hash).At(Routed(s, hash).host, Routed(s, hash).port)
  {
    NonDescendingUnique(Addresses(s), Addresses(t));
    assert |s| == |Addresses(s)| == |Addresses(t)| == |t|;
    var i := hash % |s|;
    assert Addresses(s)[i] == Addresses(t)[i];
    AddressInjective(t[i], s[i]);
  }
}
