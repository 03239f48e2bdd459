/** Whole runs of a proxy's client table beside the services registered: when
    the table is exactly those, and when it is not. */
module ClientRuns {
  import opened ClientEvents
  import opened ClientTables
  import opened Namings
  import opened Order
  import opened Outcomes

  // ----- the services registered -----

  function Leaving(r: set<Client>, host: string, port: int): set<Client> {
    set x | x in r && !x.At(host, port)
  }

  /** A put replaces what the address held, a deletion takes it out. */
  function Announce(r: set<Client>, change: ServiceChange): set<Client> {
    var ServiceInfo(_, id, host, port) := change.service;
    Leaving(r, host, port) + if change.put then {NewClient(host, port, id)} else {}
  }

  function Announced(r: set<Client>, changes: seq<ServiceChange>): set<Client> {
    if changes == [] then r else Announce(Announced(r, changes[..|changes| - 1]), changes[|changes| - 1])
  }

  function RegisteredAfter(r: set<Client>, e: Event): set<Client> {
    match e
    case Changes(changes) => Announced(r, changes)
    case ClientExit(host, port, id) => Leaving(r, host, port)
    case _ => r
  }

  /** The services registered after a run: what a map by address would hold. */
  function Registered(r: set<Client>, es: seq<Event>): set<Client> {
    if es == [] then r else RegisteredAfter(Registered(r, es[..|es| - 1]), es[|es| - 1])
  }

  ghost predicate PutLast(changes: seq<ServiceChange>, x: Client, i: nat)
    requires i < |changes|
  {
    var s := changes[i].service;
    && changes[i].put && x == NewClient(s.host, s.port, s.serviceId)
    && forall j :: i < j < |changes| ==> !x.At(changes[j].service.host, changes[j].service.port)
  }

  /** What counts for an address is the last change that names it. */
  lemma {:induction false} AnnouncedExact(r: set<Client>, changes: seq<ServiceChange>, x: Client)
    ensures x in Announced(r, changes) <==>
            || (x in r && forall j :: 0 <= j < |changes| ==> !x.At(changes[j].service.host, changes[j].service.port))
            || exists i :: 0 <= i < |changes| && PutLast(changes, x, i)
  {
    if changes != [] {
      var n := |changes| - 1;
      var before, s := changes[..n], changes[n].service;
      AnnouncedExact(r, before, x);
      if x.At(s.host, s.port) {
        assert changes[n].put && x == NewClient(s.host, s.port, s.serviceId) <==> PutLast(changes, x, n);
      } else {
        forall i | 0 <= i < n ensures PutLast(before, x, i) <==> PutLast(changes, x, i) {
          assert forall j :: i < j < n ==> before[j] == changes[j];
        }
        assert forall j :: 0 <= j < n ==> before[j] == changes[j];
      }
    }
  }

  lemma RunPrefix(c: Clients, r: set<Client>, es: seq<Event>, k: nat)
    requires k < |es|
    ensures AfterAll(c, es[..k + 1]) == After(AfterAll(c, es[..k]), es[k])
    ensures Registered(r, es[..k + 1]) == RegisteredAfter(Registered(r, es[..k]), es[k])
  {
    assert es[..k + 1][..k] == es[..k];
  }

  lemma ChangesPrefix(c: Clients, r: set<Client>, changes: seq<ServiceChange>, k: nat)
    requires k < |changes|
    ensures ChangedAll(c, changes[..k + 1]) == Changed(ChangedAll(c, changes[..k]), changes[k])
    ensures Announced(r, changes[..k + 1]) == Announce(Announced(r, changes[..k]), changes[k])
  {
    assert changes[..k + 1][..k] == changes[..k];
  }

  lemma SetWithout(r: set<Client>, it: Client)
    ensures multiset(r - {it}) == multiset(r) - multiset{it}
  {
  }

  lemma SetWith(r: set<Client>, it: Client)
    requires it !in r
    ensures multiset(r + {it}) == multiset(r) + multiset{it}
  {
  }

  lemma MinusEither(a: multiset<Client>, b: multiset<Client>, it: Client)
    ensures it in a ==> a + b - multiset{it} == a - multiset{it} + b
    ensures it !in a ==> a + b - multiset{it} == a + (b - multiset{it})
    ensures it !in b ==> b - multiset{it} == b
  {
  }

  // ----- nothing registered is missing -----

  lemma AppendedAll(c: Clients, host: string, port: int, id: string)
    ensures Appended(c, host, port, id).All() == c.All() + multiset{NewClient(host, port, id)}
  {
  }

  lemma MinusFrom(a: multiset<Client>, b: multiset<Client>, it: Client)
    requires it in b
    ensures a + b - multiset{it} == a + (b - multiset{it})
  {
  }

  lemma RemovedFound(c: Clients, host: string, port: int, id: string)
    requires Lookup(c, host, port, id).Some?
    ensures var x := Lookup(c, host, port, id).value;
            x in c.All() && x.At(host, port) && Removed(c, host, port, id).All() == c.All() - multiset{x}
  {
    var i, j := IndexOf(c.active, host, port, id), IndexOf(c.inactive, host, port, id);
    var a, b := multiset(c.active), multiset(c.inactive);
    if i >= 0 {
      MinusEither(a, b, c.active[i]);
    } else {
      MinusFrom(a, b, c.inactive[j]);
    }
  }

  lemma ClosedAll(c: Clients, host: string, port: int, id: string)
    requires IndexOf(c.active, host, port, id) >= 0
    ensures Closed(c, host, port, id).All() == c.All() + multiset{c.active[IndexOf(c.active, host, port, id)]}
    ensures c.active[IndexOf(c.active, host, port, id)] in c.All()
    ensures Closed(c, host, port, id).active == c.active && c.inactive <= Closed(c, host, port, id).inactive
  {
  }

  /** A close event that finds its client among the connected ones. */
  predicate ClosesActive(c: Clients, e: Event) {
    e.ClientClose? && IndexOf(c.active, e.host, e.port, e.serviceId) >= 0
  }

  ghost predicate Present(c: Clients, r: set<Client>) {
    forall x :: x in r ==> x in c.All()
  }

  lemma PresentIsLess(c: Clients, r: set<Client>)
    ensures Present(c, r) <==> multiset(r) <= c.All()
  {
    assert forall x :: x in r <==> x in multiset(r);
  }

  lemma RemovedPresent(c: Clients, r: set<Client>, host: string, port: int, id: string)
    requires Present(c, r)
    ensures Present(Removed(c, host, port, id), Leaving(r, host, port))
  {
    if Lookup(c, host, port, id).Some? {
      RemovedFound(c, host, port, id);
    }
  }

  lemma AppendedPresent(c: Clients, r: set<Client>, host: string, port: int, id: string)
    requires Present(c, r)
    ensures Present(Appended(c, host, port, id), r + {NewClient(host, port, id)})
  {
    AppendedAll(c, host, port, id);
  }

  lemma FoundPresent(c: Clients, host: string, port: int, id: string)
    requires Fresh(c) && Lookup(c, host, port, id).Some? && Lookup(c, host, port, id).value.data.serviceId == id
    ensures NewClient(host, port, id) in c.All()
  {
    RemovedFound(c, host, port, id);
  }

  lemma ChangePresent(c: Clients, r: set<Client>, change: ServiceChange)
    requires Fresh(c) && Present(c, r)
    ensures Present(Changed(c, change), Announce(r, change))
  {
    var ServiceInfo(_, id, host, port) := change.service;
    var found := Lookup(c, host, port, id);
    RemovedPresent(c, r, host, port, id);
    if change.put {
      if found.Some? && found.value.data.serviceId == id {
        FoundPresent(c, host, port, id);
      } else {
        AppendedPresent(c, Leaving(r, host, port), host, port, id);
        AppendedPresent(Removed(c, host, port, id), Leaving(r, host, port), host, port, id);
      }
    }
  }

  lemma {:induction false} ChangesPresent(c: Clients, r: set<Client>, changes: seq<ServiceChange>)
    requires Fresh(c) && Present(c, r)
    ensures Present(ChangedAll(c, changes), Announced(r, changes))
  {
    if changes != [] {
      var n := |changes| - 1;
      ChangesPresent(c, r, changes[..n]);
      ChangesFresh(c, changes[..n]);
      ChangePresent(ChangedAll(c, changes[..n]), Announced(r, changes[..n]), changes[n]);
    }
  }

  lemma EventPresent(c: Clients, r: set<Client>, e: Event)
    requires Fresh(c) && Present(c, r)
    ensures Present(After(c, e), RegisteredAfter(r, e))
  {
    match e
    case Tick(now, answers) => TickConserves(c, now, answers);
    case Changes(changes) => ChangesPresent(c, r, changes);
    case ClientExit(host, port, id) => RemovedPresent(c, r, host, port, id);
    case ClientClose(host, port, id) =>
      if ClosesActive(c, e) {
        ClosedAll(c, host, port, id);
      }
    case _ =>
  }

  lemma {:induction false} AlwaysPresent(c: Clients, r: set<Client>, es: seq<Event>)
    requires Fresh(c) && Present(c, r)
    ensures Present(AfterAll(c, es), Registered(r, es))
  {
    if es != [] {
      var n := |es| - 1;
      AlwaysPresent(c, r, es[..n]);
      AlwaysFresh(c, es[..n]);
      EventPresent(AfterAll(c, es[..n]), Registered(r, es[..n]), es[n]);
    }
  }

  /** Over every run, whatever ids it uses and whatever it closes, no registered
      service is missing from the table. */
  lemma NeverMissing(c: Clients, r: set<Client>, es: seq<Event>)
    requires Fresh(c) && multiset(r) <= c.All()
    ensures multiset(Registered(r, es)) <= AfterAll(c, es).All()
  {
    PresentIsLess(c, r);
    AlwaysPresent(c, r, es);
    PresentIsLess(AfterAll(c, es), Registered(r, es));
  }

  // ----- nothing else is in the table -----

  /** At most one service at an address. */
  ghost predicate OneEach(r: set<Client>) {
    && (forall x, y :: x in r && y in r && x.At(y.host, y.port) ==> x == y)
    && (forall x :: x in r ==> x == NewClient(x.host, x.port, x.data.serviceId))
  }

  /** The table is the registered services, once each, whatever their ids. */
  ghost predicate Exact(c: Clients, r: set<Client>) {
    c.All() == multiset(r) && OneEach(r)
  }

  /** What is registered at the address goes by the id, or no id is given. */
  ghost predicate Agrees(r: set<Client>, host: string, port: int, id: string) {
    id == "" || forall x :: x in r && x.At(host, port) ==> x.data.serviceId == id
  }

  lemma OneAtPlace(c: Clients, r: set<Client>, x: Client)
    requires Exact(c, r) && x in r
    ensures (x in c.active) != (x in c.inactive)
    ensures forall y :: (y in c.active || y in c.inactive) && y.At(x.host, x.port) ==> y == x
    ensures Leaving(r, x.host, x.port) == r - {x}
  {
    assert multiset(r)[x] == 1 && c.All()[x] == multiset(c.active)[x] + multiset(c.inactive)[x];
    forall y | (y in c.active || y in c.inactive) && y.At(x.host, x.port) ensures y == x {
      assert y in c.All() && y in multiset(r);
    }
  }

  lemma NoneAtPlace(c: Clients, r: set<Client>, host: string, port: int)
    requires Exact(c, r) && forall x :: x in r ==> !x.At(host, port)
    ensures forall y :: y in c.active || y in c.inactive ==> !y.At(host, port)
    ensures Leaving(r, host, port) == r
  {
    forall y | y in c.active || y in c.inactive ensures !y.At(host, port) {
      assert y in c.All() && y in multiset(r);
    }
  }

  /** Of a list with one client of an address, the search by id finds that one or
      nothing. */
  lemma IndexOfOnly(s: seq<Client>, x: Client, id: string)
    requires forall y :: y in s && y.At(x.host, x.port) ==> y == x
    ensures IndexOf(s, x.host, x.port, id) >= 0 <==> x in s && (id == "" || id == x.data.serviceId)
    ensures IndexOf(s, x.host, x.port, id) >= 0 ==> s[IndexOf(s, x.host, x.port, id)] == x
  {
    var i := FirstClient(s, x.host, x.port);
    if i < |s| {
      assert s[i] in s;
    }
  }

  /** What the search of a table by id finds of the one client of an address. */
  predicate Answers(x: Client, id: string) {
    id == "" || id == x.data.serviceId
  }

  lemma LookupOne(c: Clients, r: set<Client>, x: Client, id: string)
    requires Exact(c, r) && x in r
    ensures Lookup(c, x.host, x.port, id) == if Answers(x, id) then Some(x) else None
  {
    OneAtPlace(c, r, x);
    IndexOfOnly(c.active, x, id);
    IndexOfOnly(c.inactive, x, id);
  }

  lemma RemovedOne(c: Clients, r: set<Client>, x: Client, id: string)
    requires Exact(c, r) && x in r
    ensures !Answers(x, id) ==> Removed(c, x.host, x.port, id) == c
    ensures Answers(x, id) ==> Removed(c, x.host, x.port, id).All() == multiset(r - {x})
  {
    OneAtPlace(c, r, x);
    IndexOfOnly(c.active, x, id);
    IndexOfOnly(c.inactive, x, id);
    MinusEither(multiset(c.active), multiset(c.inactive), x);
    SetWithout(r, x);
  }

  lemma AgreesAt(r: set<Client>, x: Client, id: string)
    requires OneEach(r) && x in r
    ensures Agrees(r, x.host, x.port, id) <==> Answers(x, id)
  {
  }

  lemma WithoutDiffers(r: set<Client>, x: Client, m: multiset<Client>)
    requires x in r && x !in m
    ensures multiset(r) != m && multiset(r) + m != m
  {
    assert x in multiset(r);
  }

  lemma LeavingOneEach(r: set<Client>, host: string, port: int)
    requires OneEach(r)
    ensures OneEach(Leaving(r, host, port))
  {
  }

  lemma DeletionAt(c: Clients, r: set<Client>, x: Client, id: string)
    requires Exact(c, r) && x in r
    ensures Removed(c, x.host, x.port, id).All() == multiset(Leaving(r, x.host, x.port)) <==> Answers(x, id)
  {
    OneAtPlace(c, r, x);
    RemovedOne(c, r, x, id);
    WithoutDiffers(r, x, multiset(r - {x}));
  }

  lemma NotFound(s: seq<Client>, host: string, port: int, id: string)
    requires forall y :: y in s ==> !y.At(host, port)
    ensures IndexOf(s, host, port, id) == -1
  {
    assert forall k :: 0 <= k < |s| ==> s[k] in s;
  }

  lemma DeletionNone(c: Clients, r: set<Client>, host: string, port: int, id: string)
    requires Exact(c, r) && forall x :: x in r ==> !x.At(host, port)
    ensures Removed(c, host, port, id) == c && Leaving(r, host, port) == r
  {
    NoneAtPlace(c, r, host, port);
    NotFound(c.active, host, port, id);
    NotFound(c.inactive, host, port, id);
  }

  lemma DeletionExact(c: Clients, r: set<Client>, host: string, port: int, id: string)
    requires Exact(c, r)
    ensures Exact(Removed(c, host, port, id), Leaving(r, host, port)) <==> Agrees(r, host, port, id)
  {
    LeavingOneEach(r, host, port);
    if x :| x in r && x.At(host, port) {
      AgreesAt(r, x, id);
      DeletionAt(c, r, x, id);
    } else {
      DeletionNone(c, r, host, port, id);
    }
  }

  lemma AnnounceOneEach(r: set<Client>, change: ServiceChange)
    requires OneEach(r)
    ensures OneEach(Announce(r, change))
  {
  }

  /** A put at an address with a client that the search finds. */
  lemma PutFound(c: Clients, r: set<Client>, x: Client, name: string, id: string)
    requires Exact(c, r) && x in r && Answers(x, id)
    ensures var change := ServiceChange(ServiceInfo(name, id, x.host, x.port), true);
            Changed(c, change).All() == multiset(Announce(r, change))
  {
    var change := ServiceChange(ServiceInfo(name, id, x.host, x.port), true);
    OneAtPlace(c, r, x);
    LookupOne(c, r, x, id);
    var it := NewClient(x.host, x.port, id);
    if x.data.serviceId == id {
      assert Changed(c, change) == c && it == x;
      assert Announce(r, change) == r;
    } else {
      RemovedOne(c, r, x, id);
      AppendedAll(Removed(c, x.host, x.port, id), x.host, x.port, id);
      SetWith(r - {x}, it);
    }
  }

  /** A put at an address with a client that goes by another id. */
  lemma PutBeside(c: Clients, r: set<Client>, x: Client, name: string, id: string)
    requires Exact(c, r) && x in r && !Answers(x, id)
    ensures var change := ServiceChange(ServiceInfo(name, id, x.host, x.port), true);
            Changed(c, change).All() != multiset(Announce(r, change))
  {
    var change := ServiceChange(ServiceInfo(name, id, x.host, x.port), true);
    OneAtPlace(c, r, x);
    LookupOne(c, r, x, id);
    AppendedAll(c, x.host, x.port, id);
    assert x in multiset(r) && x in Changed(c, change).All();
    assert x !in Announce(r, change);
  }

  lemma PutNew(c: Clients, r: set<Client>, name: string, host: string, port: int, id: string)
    requires Exact(c, r) && forall x :: x in r ==> !x.At(host, port)
    ensures var change := ServiceChange(ServiceInfo(name, id, host, port), true);
            Changed(c, change).All() == multiset(Announce(r, change))
  {
    NoneAtPlace(c, r, host, port);
    AppendedAll(c, host, port, id);
    SetWith(r, NewClient(host, port, id));
  }

  lemma PutExact(c: Clients, r: set<Client>, name: string, host: string, port: int, id: string)
    requires Exact(c, r)
    ensures var change := ServiceChange(ServiceInfo(name, id, host, port), true);
            Exact(Changed(c, change), Announce(r, change)) <==> Agrees(r, host, port, id)
  {
    AnnounceOneEach(r, ServiceChange(ServiceInfo(name, id, host, port), true));
    if x :| x in r && x.At(host, port) {
      AgreesAt(r, x, id);
      if Answers(x, id) {
        PutFound(c, r, x, name, id);
      } else {
        PutBeside(c, r, x, name, id);
      }
    } else {
      PutNew(c, r, name, host, port, id);
    }
  }

  /** From an exact table, a change leaves an exact one if and only if it agrees
      with what is registered at its address. */
  lemma ChangeExact(c: Clients, r: set<Client>, change: ServiceChange)
    requires Exact(c, r)
    ensures var s := change.service;
            Exact(Changed(c, change), Announce(r, change)) <==> Agrees(r, s.host, s.port, s.serviceId)
  {
    if change.put {
      var s := change.service;
      PutExact(c, r, s.name, s.host, s.port, s.serviceId);
    } else {
      DeletionExact(c, r, change.service.host, change.service.port, change.service.serviceId);
    }
  }

  ghost predicate AgreesInTurn(r: set<Client>, changes: seq<ServiceChange>, j: nat)
    requires j < |changes|
  {
    var s := changes[j].service;
    Agrees(Announced(r, changes[..j]), s.host, s.port, s.serviceId)
  }

  /** What leaves an exact table exact: every change agrees with what is
      registered at its address when its turn comes, and a close finds nothing. */
  ghost predicate Harmless(c: Clients, r: set<Client>, e: Event) {
    match e
    case Changes(changes) =>
      forall j :: 0 <= j < |changes| ==> AgreesInTurn(r, changes, j)
    case ClientExit(host, port, id) => Agrees(r, host, port, id)
    case ClientClose(_, _, _) => !ClosesActive(c, e)
    case _ => true
  }

  ghost predicate ExactInTurn(c: Clients, r: set<Client>, changes: seq<ServiceChange>, j: nat)
    requires j <= |changes|
  {
    Exact(ChangedAll(c, changes[..j]), Announced(r, changes[..j]))
  }

  /** Exact after the event, and between its changes. */
  ghost predicate ExactThrough(c: Clients, r: set<Client>, e: Event) {
    match e
    case Changes(changes) => forall j :: 0 <= j <= |changes| ==> ExactInTurn(c, r, changes, j)
    case _ => Exact(After(c, e), RegisteredAfter(r, e))
  }

  lemma ExactNextTurn(c: Clients, r: set<Client>, changes: seq<ServiceChange>, j: nat)
    requires j < |changes| && ExactInTurn(c, r, changes, j)
    ensures ExactInTurn(c, r, changes, j + 1) <==> AgreesInTurn(r, changes, j)
  {
    ChangesPrefix(c, r, changes, j);
    ChangeExact(ChangedAll(c, changes[..j]), Announced(r, changes[..j]), changes[j]);
  }

  lemma {:induction false} ExactUntilTurn(c: Clients, r: set<Client>, changes: seq<ServiceChange>, j: nat)
    requires Exact(c, r) && j <= |changes|
    requires forall i :: 0 <= i < j ==> AgreesInTurn(r, changes, i)
    ensures ExactInTurn(c, r, changes, j)
  {
    if j != 0 {
      ExactUntilTurn(c, r, changes, j - 1);
      ExactNextTurn(c, r, changes, j - 1);
    }
  }

  lemma ChangesExact(c: Clients, r: set<Client>, changes: seq<ServiceChange>)
    requires Exact(c, r)
    ensures (forall j :: 0 <= j <= |changes| ==> ExactInTurn(c, r, changes, j)) <==>
            (forall j :: 0 <= j < |changes| ==> AgreesInTurn(r, changes, j))
  {
    if forall j :: 0 <= j <= |changes| ==> ExactInTurn(c, r, changes, j) {
      forall j | 0 <= j < |changes| ensures AgreesInTurn(r, changes, j) {
        assert ExactInTurn(c, r, changes, j) && ExactInTurn(c, r, changes, j + 1);
        ExactNextTurn(c, r, changes, j);
      }
    }
    if forall j :: 0 <= j < |changes| ==> AgreesInTurn(r, changes, j) {
      forall j | 0 <= j <= |changes| ensures ExactInTurn(c, r, changes, j) {
        ExactUntilTurn(c, r, changes, j);
      }
    }
  }

  /** An exact table stays exact through an event if and only if the event is
      harmless, whatever ids the addresses had before. */
  lemma EventExact(c: Clients, r: set<Client>, e: Event)
    requires Exact(c, r)
    ensures ExactThrough(c, r, e) <==> Harmless(c, r, e)
  {
    match e
    case Tick(now, answers) => TickConserves(c, now, answers);
    case Changes(changes) => ChangesExact(c, r, changes);
    case ClientExit(host, port, id) => DeletionExact(c, r, host, port, id);
    case ClientClose(host, port, id) =>
      if ClosesActive(c, e) {
        ClosedAll(c, host, port, id);
        assert |After(c, e).All()| == |c.All()| + 1;
      }
    case _ =>
  }

  lemma ExactAfter(c: Clients, r: set<Client>, e: Event)
    requires ExactThrough(c, r, e)
    ensures Exact(After(c, e), RegisteredAfter(r, e))
  {
    if e.Changes? {
      assert ExactInTurn(c, r, e.changes, |e.changes|);
      assert e.changes[..|e.changes|] == e.changes;
    }
  }

  ghost predicate HarmlessAt(c: Clients, r: set<Client>, es: seq<Event>, k: nat)
    requires k < |es|
  {
    Harmless(AfterAll(c, es[..k]), Registered(r, es[..k]), es[k])
  }

  ghost predicate ExactAt(c: Clients, r: set<Client>, es: seq<Event>, k: nat)
    requires k < |es|
  {
    ExactThrough(AfterAll(c, es[..k]), Registered(r, es[..k]), es[k])
  }

  ghost predicate ExactBefore(c: Clients, r: set<Client>, es: seq<Event>, k: nat)
    requires k <= |es|
  {
    Exact(AfterAll(c, es[..k]), Registered(r, es[..k]))
  }

  lemma ExactNext(c: Clients, r: set<Client>, es: seq<Event>, k: nat)
    requires k < |es| && ExactBefore(c, r, es, k)
    ensures ExactAt(c, r, es, k) <==> HarmlessAt(c, r, es, k)
    ensures ExactAt(c, r, es, k) ==> ExactBefore(c, r, es, k + 1)
  {
    var d, q := AfterAll(c, es[..k]), Registered(r, es[..k]);
    EventExact(d, q, es[k]);
    RunPrefix(c, r, es, k);
    if ExactAt(c, r, es, k) {
      ExactAfter(d, q, es[k]);
    }
  }

  lemma {:induction false} ExactUntil(c: Clients, r: set<Client>, es: seq<Event>, k: nat)
    requires Exact(c, r) && k <= |es|
    requires forall j :: 0 <= j < k ==> ExactAt(c, r, es, j) || HarmlessAt(c, r, es, j)
    ensures ExactBefore(c, r, es, k)
  {
    if k != 0 {
      var j := k - 1;
      ExactUntil(c, r, es, j);
      assert ExactAt(c, r, es, j) || HarmlessAt(c, r, es, j);
      ExactNext(c, r, es, j);
    }
  }

  /** Over any run at all, the table is exactly the registered services at every
      point if and only if every event is harmless at its time. */
  lemma RunExact(c: Clients, r: set<Client>, es: seq<Event>)
    requires Exact(c, r)
    ensures (forall k :: 0 <= k < |es| ==> ExactAt(c, r, es, k)) <==>
            (forall k :: 0 <= k < |es| ==> HarmlessAt(c, r, es, k))
  {
    if || (forall k :: 0 <= k < |es| ==> ExactAt(c, r, es, k))
       || (forall k :: 0 <= k < |es| ==> HarmlessAt(c, r, es, k))
    {
      forall k | 0 <= k < |es| ensures ExactAt(c, r, es, k) <==> HarmlessAt(c, r, es, k) {
        ExactUntil(c, r, es, k);
        ExactNext(c, r, es, k);
      }
    }
  }

  // ----- the start -----

  function Services(infos: seq<ServiceInfo>): (r: set<Client>)
    ensures forall x :: x in r <==>
      exists i :: 0 <= i < |infos| && x == NewClient(infos[i].host, infos[i].port, infos[i].serviceId)
  {
    set i | 0 <= i < |infos| :: NewClient(infos[i].host, infos[i].port, infos[i].serviceId)
  }

  ghost predicate DistinctPlaces(infos: seq<ServiceInfo>) {
    forall i, j :: 0 <= i < j < |infos| ==> infos[i].host != infos[j].host || infos[i].port != infos[j].port
  }

  lemma ServicesWith(infos: seq<ServiceInfo>, n: nat)
    requires |infos| == n + 1 && DistinctPlaces(infos)
    ensures var it := NewClient(infos[n].host, infos[n].port, infos[n].serviceId);
            Services(infos) == Services(infos[..n]) + {it} && it !in Services(infos[..n])
  {
    var it := NewClient(infos[n].host, infos[n].port, infos[n].serviceId);
    forall x | x in Services(infos) ensures x in Services(infos[..n]) + {it} {
      var i :| 0 <= i < |infos| && x == NewClient(infos[i].host, infos[i].port, infos[i].serviceId);
      assert i < n ==> infos[..n][i] == infos[i];
    }
    forall x | x in Services(infos[..n]) ensures x in Services(infos) && x != it {
      var i :| 0 <= i < n && x == NewClient(infos[..n][i].host, infos[..n][i].port, infos[..n][i].serviceId);
      assert infos[..n][i] == infos[i];
    }
  }

  lemma {:induction false} InitialAll(infos: seq<ServiceInfo>, answers: nat -> bool)
    requires DistinctPlaces(infos)
    ensures Initial(infos, answers).All() == multiset(Services(infos))
  {
    if infos != [] {
      var n := |infos| - 1;
      var it := NewClient(infos[n].host, infos[n].port, infos[n].serviceId);
      InitialAll(infos[..n], answers);
      ServicesWith(infos, n);
      SetWith(Services(infos[..n]), it);
      assert Initial(infos, answers).All() == Initial(infos[..n], answers).All() + multiset{it};
    }
  }

  /** A proxy that starts with services at distinct addresses starts exact. */
  lemma InitialExact(infos: seq<ServiceInfo>, answers: nat -> bool)
    requires DistinctPlaces(infos)
    ensures Exact(Initial(infos, answers), Services(infos))
  {
    InitialAll(infos, answers);
  }

  /** What a look-up reports stands at distinct addresses. */
  lemma FoundDistinct(store: map<string, string>, name: string, keys: seq<string>, infos: seq<ServiceInfo>)
    requires Published(store) && Free(name, '/') && Reports(Parses(store), Selected(store, name), keys, infos)
    ensures DistinctPlaces(infos)
  {
    forall i | 0 <= i < |infos| ensures infos[i].name == name && KeyOf(infos[i]) == keys[i] {
      ReportedOffers(store, name, keys[i], infos[i]);
    }
    forall i, j | 0 <= i < j < |infos| ensures infos[i].host != infos[j].host || infos[i].port != infos[j].port {
      assert keys[i] != keys[j];
    }
  }

  /** A client of a service that the store offers under the name. */
  ghost predicate OfferedClient(store: map<string, string>, name: string, x: Client) {
    exists info :: Offers(store, info) && info.name == name && x == NewClient(info.host, info.port, info.serviceId)
  }

  lemma ServicesOffered(store: map<string, string>, name: string, keys: seq<string>, infos: seq<ServiceInfo>)
    requires Published(store) && Free(name, '/') && Reports(Parses(store), Selected(store, name), keys, infos)
    ensures forall x :: x in Services(infos) <==> OfferedClient(store, name, x)
  {
    FindsOffered(store, name, keys, infos);
    forall x | x in Services(infos) ensures OfferedClient(store, name, x) {
      var i :| 0 <= i < |infos| && x == NewClient(infos[i].host, infos[i].port, infos[i].serviceId);
      assert infos[i] in infos;
    }
    forall x | OfferedClient(store, name, x) ensures x in Services(infos) {
      var info :| Offers(store, info) && info.name == name && x == NewClient(info.host, info.port, info.serviceId);
      assert info in infos;
    }
  }

  /** Every run of a proxy that starts from what a look-up reported: nothing
      registered is ever missing, and the table is exact at every point if and
      only if every event is harmless at its time. */
  lemma RunFromFound(store: map<string, string>, name: string, keys: seq<string>, infos: seq<ServiceInfo>,
                     answers: nat -> bool, es: seq<Event>)
    requires Published(store) && Free(name, '/') && Reports(Parses(store), Selected(store, name), keys, infos)
    ensures var c, r := Initial(infos, answers), Services(infos);
            && (forall x :: x in r <==> OfferedClient(store, name, x))
            && multiset(Registered(r, es)) <= AfterAll(c, es).All()
            && ((forall k :: 0 <= k < |es| ==> ExactAt(c, r, es, k)) <==>
                (forall k :: 0 <= k < |es| ==> HarmlessAt(c, r, es, k)))
  {
    FoundDistinct(store, name, keys, infos);
    ServicesOffered(store, name, keys, infos);
    InitialExact(infos, answers);
    InitialFresh(infos, answers);
    NeverMissing(Initial(infos, answers), Services(infos), es);
    RunExact(Initial(infos, answers), Services(infos), es);
  }

  // ----- addresses that keep their ids -----

  type Ids = (string, int) -> string

  ghost predicate Kept(r: set<Client>, ids: Ids) {
    forall x :: x in r ==> x.data.serviceId == ids(x.host, x.port)
  }

  ghost predicate ChangeKeeps(change: ServiceChange, ids: Ids) {
    var s := change.service;
    s.serviceId == ids(s.host, s.port) || (!change.put && s.serviceId == "")
  }

  /** An event in which every address keeps its one id; a deletion may leave it
      out. */
  ghost predicate Keeps(e: Event, ids: Ids) {
    match e
    case Changes(changes) => forall x :: x in changes ==> ChangeKeeps(x, ids)
    case ClientExit(host, port, id) => id == "" || id == ids(host, port)
    case _ => true
  }

  lemma {:induction false} AnnouncedKept(r: set<Client>, ids: Ids, changes: seq<ServiceChange>)
    requires Kept(r, ids) && forall x :: x in changes ==> ChangeKeeps(x, ids)
    ensures Kept(Announced(r, changes), ids)
  {
    if changes != [] {
      var n := |changes| - 1;
      AnnouncedKept(r, ids, changes[..n]);
      assert changes[n] in changes;
    }
  }

  /** Where addresses keep their ids, the one event that does harm is a close that
      finds its client connected. */
  lemma KeepsIsHarmless(c: Clients, r: set<Client>, ids: Ids, e: Event)
    requires Kept(r, ids) && Keeps(e, ids)
    ensures Harmless(c, r, e) <==> !ClosesActive(c, e)
    ensures Kept(RegisteredAfter(r, e), ids)
  {
    if e.Changes? {
      AnnouncedKept(r, ids, e.changes);
      forall j | 0 <= j < |e.changes| ensures AgreesInTurn(r, e.changes, j) {
        AnnouncedKept(r, ids, e.changes[..j]);
        assert e.changes[j] in e.changes;
      }
    }
  }

  /** An exact table then stays exact at an event unless that is such a close, and
      only then. */
  lemma EventTracksExactly(c: Clients, r: set<Client>, ids: Ids, e: Event)
    requires Exact(c, r) && Kept(r, ids) && Keeps(e, ids)
    ensures Exact(After(c, e), RegisteredAfter(r, e)) <==> !ClosesActive(c, e)
  {
    KeepsIsHarmless(c, r, ids, e);
    EventExact(c, r, e);
    if !ClosesActive(c, e) {
      ExactAfter(c, r, e);
    }
  }

  lemma {:induction false} RegisteredKept(r: set<Client>, ids: Ids, es: seq<Event>)
    requires Kept(r, ids) && forall e :: e in es ==> Keeps(e, ids)
    ensures Kept(Registered(r, es), ids)
  {
    if es != [] {
      var n := |es| - 1;
      RegisteredKept(r, ids, es[..n]);
      assert es[n] in es;
      KeepsIsHarmless(Clients([], []), Registered(r, es[..n]), ids, es[n]);
    }
  }

  ghost predicate ClosesAt(c: Clients, es: seq<Event>, k: nat)
    requires k < |es|
  {
    ClosesActive(AfterAll(c, es[..k]), es[k])
  }

  /** So such a run has an exact table all the way exactly when no close event
      finds its client connected at its time. */
  lemma RunTracksExactly(c: Clients, r: set<Client>, ids: Ids, es: seq<Event>)
    requires Exact(c, r) && Kept(r, ids) && forall e :: e in es ==> Keeps(e, ids)
    ensures (forall k :: 0 <= k < |es| ==> ExactAt(c, r, es, k)) <==>
            (forall k :: 0 <= k < |es| ==> !ClosesAt(c, es, k))
  {
    RunExact(c, r, es);
    forall k | 0 <= k < |es| ensures HarmlessAt(c, r, es, k) <==> !ClosesAt(c, es, k) {
      assert es[k] in es;
      RegisteredKept(r, ids, es[..k]);
      KeepsIsHarmless(AfterAll(c, es[..k]), Registered(r, es[..k]), ids, es[k]);
    }
  }

  /** A deletion closes the connection it removes.  The close event that this
      causes does no harm when it comes next, whatever id it carries. */
  lemma DeletionThenClose(c: Clients, r: set<Client>, host: string, port: int, id: string, closed: string)
    requires Exact(c, r) && Agrees(r, host, port, id)
    ensures var d := After(Removed(c, host, port, id), ClientClose(host, port, closed));
            d == Removed(c, host, port, id) && Exact(d, Leaving(r, host, port))
  {
    DeletionExact(c, r, host, port, id);
    NoneAtPlace(Removed(c, host, port, id), Leaving(r, host, port), host, port);
    NotFound(Removed(c, host, port, id).active, host, port, closed);
  }

  // ----- an address that comes back under another id -----

  /** Every client at the address goes by the id. */
  ghost predicate OnlyUnder(m: multiset<Client>, host: string, port: int, id: string) {
    forall x :: x in m && x.At(host, port) ==> x.data.serviceId == id
  }

  lemma OnlyUnderWith(m: multiset<Client>, x: Client, host: string, port: int, id: string)
    ensures OnlyUnder(m + multiset{x}, host, port, id) <==>
            OnlyUnder(m, host, port, id) && (x.At(host, port) ==> x.data.serviceId == id)
  {
    assert x in m + multiset{x};
    assert forall y :: y in m ==> y in m + multiset{x};
  }

  lemma OnlyUnderWithout(m: multiset<Client>, x: Client, host: string, port: int, id: string)
    requires x in m && x.data.serviceId == id
    ensures OnlyUnder(m, host, port, id) <==> OnlyUnder(m - multiset{x}, host, port, id)
  {
    assert m == m - multiset{x} + multiset{x};
    OnlyUnderWith(m - multiset{x}, x, host, port, id);
  }

  /** A put under a non-empty id takes no client out. */
  lemma PutTakesNothing(c: Clients, change: ServiceChange)
    requires change.put && change.service.serviceId != ""
    ensures var s := change.service;
            Changed(c, change) == c || Changed(c, change) == Appended(c, s.host, s.port, s.serviceId)
  {
  }

  /** So it leaves its address known under that id only if and only if the address
      was already known under no other. */
  lemma PutReplaces(c: Clients, change: ServiceChange)
    requires change.put && change.service.serviceId != ""
    ensures var s := change.service;
            OnlyUnder(Changed(c, change).All(), s.host, s.port, s.serviceId) <==>
            OnlyUnder(c.All(), s.host, s.port, s.serviceId)
  {
    var s := change.service;
    PutTakesNothing(c, change);
    AppendedAll(c, s.host, s.port, s.serviceId);
    OnlyUnderWith(c.All(), NewClient(s.host, s.port, s.serviceId), s.host, s.port, s.serviceId);
  }

  /** What the search of an address finds, as a multiset. */
  function Displaced(c: Clients, host: string, port: int): multiset<Client> {
    match Lookup(c, host, port, "")
    case Some(x) => multiset{x}
    case None => multiset{}
  }

  /** A put under the empty id takes out the client that the search finds, and no
      other: the address is left known under that id only if and only if all its
      other clients were. */
  lemma PutWithoutId(c: Clients, change: ServiceChange)
    requires change.put && change.service.serviceId == ""
    ensures var s := change.service;
            OnlyUnder(Changed(c, change).All(), s.host, s.port, "") <==>
            OnlyUnder(c.All() - Displaced(c, s.host, s.port), s.host, s.port, "")
  {
    var ServiceInfo(_, _, host, port) := change.service;
    var it := NewClient(host, port, "");
    match Lookup(c, host, port, "")
    case None =>
      AppendedAll(c, host, port, "");
      OnlyUnderWith(c.All(), it, host, port, "");
    case Some(x) =>
      RemovedFound(c, host, port, "");
      if x.data.serviceId == "" {
        OnlyUnderWithout(c.All(), x, host, port, "");
      } else {
        AppendedAll(Removed(c, host, port, ""), host, port, "");
        OnlyUnderWith(c.All() - multiset{x}, it, host, port, "");
      }
  }

  lemma SecondPutAppends(host: string, port: int, was: string, now: string)
    requires was != now && now != ""
    ensures var put := (id: string) => ServiceChange(ServiceInfo("n", id, host, port), true);
            && ChangedAll(Clients([], []), [put(was), put(now)])
              == Clients([], [NewClient(host, port, was), NewClient(host, port, now)])
            && Announced({}, [put(was), put(now)]) == {NewClient(host, port, now)}
  {
    var first := ServiceChange(ServiceInfo("n", was, host, port), true);
    var second := ServiceChange(ServiceInfo("n", now, host, port), true);
    var c := Clients([], []);
    ChangesPrefix(c, {}, [first, second], 0);
    ChangesPrefix(c, {}, [first, second], 1);
    assert [first, second][..0] == [] && [first, second][..1] == [first] && [first, second][..2] == [first, second];
    assert Changed(c, first) == Clients([], [NewClient(host, port, was)]);
  }

  lemma FirstConnects(c: Clients, now: int, answers: nat -> bool, k: nat)
    requires c.inactive != [] && c.inactive[0].data.status.retryConnectTs <= now && answers(k)
    ensures Connected(c, now, answers, k) == Connected(Moved(c, 0), now, answers, k + 1)
  {
    assert PassFrom(c.inactive, now, answers, k, 0) == Pass(0, k + 1);
  }

  lemma NoneWaiting(c: Clients, now: int, answers: nat -> bool, k: nat)
    requires c.inactive == []
    ensures Connected(c, now, answers, k) == (c, k)
  {
  }

  lemma SortedPair(x: Client, y: Client)
    requires x.Address() == y.Address()
    ensures Sorted([x, y]) == [x, y]
  {
    StringLessTrichotomy(x.Address(), y.Address());
    StableSortUnique([x, y], [x, y]);
  }

  lemma BothConnect(x: Client, y: Client, now: int, answers: nat -> bool)
    requires x.data.status.retryConnectTs <= now && y.data.status.retryConnectTs <= now
    requires answers(0) && answers(1)
    ensures Connected(Clients([], [x, y]), now, answers, 0).0 == Clients([x, y], [])
  {
    FirstConnects(Clients([], [x, y]), now, answers, 0);
    assert Moved(Clients([], [x, y]), 0) == Clients([x], [y]);
    FirstConnects(Clients([x], [y]), now, answers, 1);
    assert Moved(Clients([x], [y]), 0) == Clients([x, y], []);
    NoneWaiting(Clients([x, y], []), now, answers, 2);
  }

  lemma TwoConnect(x: Client, y: Client, now: int, answers: nat -> bool)
    requires x.data.status.retryConnectTs <= now && y.data.status.retryConnectTs <= now
    requires answers(0) && answers(1) && x.Address() == y.Address()
    ensures Ticked(Clients([], [x, y]), now, answers) == Clients([x, y], [])
  {
    BothConnect(x, y, now, answers);
    SortedPair(x, y);
  }

  lemma RemovedOfTwo(x: Client, y: Client)
    requires x.At(y.host, y.port) && x.data.serviceId != y.data.serviceId && y.data.serviceId != ""
    ensures Removed(Clients([x, y], []), y.host, y.port, y.data.serviceId) == Clients([x, y], [])
    ensures Removed(Clients([x, y], []), y.host, y.port, "") == Clients([y], [])
  {
    assert Without([x, y], 0) == [y];
  }

  /** Two announcements of an address under different ids leave two clients.  Once
      both are connected, withdrawing the second by its id takes neither out, and
      withdrawing the address without an id takes out the first: either way a
      client stays that no service stands behind. */
  lemma StaleClientStays(host: string, port: int, was: string, id: string, now: nat, answers: nat -> bool)
    requires was != id && id != "" && answers(0) && answers(1)
    ensures var put := (id: string) => ServiceChange(ServiceInfo("n", id, host, port), true);
            var older, newer := NewClient(host, port, was), NewClient(host, port, id);
            && ChangedAll(Clients([], []), [put(was), put(id)]) == Clients([], [older, newer])
            && Ticked(Clients([], [older, newer]), now, answers) == Clients([older, newer], [])
            && Removed(Clients([older, newer], []), host, port, id) == Clients([older, newer], [])
            && Removed(Clients([older, newer], []), host, port, "") == Clients([newer], [])
            && Announced({}, [put(was), put(id)]) == {newer}
            && Leaving({newer}, host, port) == {}
  {
    SecondPutAppends(host, port, was, id);
    RemovedOfTwo(NewClient(host, port, was), NewClient(host, port, id));
    TwoConnect(NewClient(host, port, was), NewClient(host, port, id), now, answers);
  }

  /** A close that finds its client connected enters it a second time; the next
      tick may then connect both entries. */
  lemma CloseDuplicates(it: Client, now: int, answers: nat -> bool)
    requires it.data.status.retryConnectTs <= now && answers(0)
    ensures After(Clients([it], []), ClientClose(it.host, it.port, it.data.serviceId)) == Clients([it], [it])
    ensures Ticked(Clients([it], [it]), now, answers) == Clients([it, it], [])
  {
    FirstConnects(Clients([it], [it]), now, answers, 0);
    assert Moved(Clients([it], [it]), 0) == Clients([it, it], []);
    NoneWaiting(Clients([it, it], []), now, answers, 1);
    SortedPair(it, it);
  }

  /** A deletion changes nothing exactly when both lists overlook it, whatever
      stands behind the first client of the address. */
  lemma DeleteDoesNothing(c: Clients, host: string, port: int, id: string)
    ensures Removed(c, host, port, id) == c <==>
      Overlooked(c.active, host, port, id) && Overlooked(c.inactive, host, port, id)
  {
    OverlookedExact(c.active, host, port, id);
    OverlookedExact(c.inactive, host, port, id);
    var d := Removed(c, host, port, id);
    if IndexOf(c.active, host, port, id) >= 0 {
      assert |d.active| < |c.active|;
    } else if IndexOf(c.inactive, host, port, id) >= 0 {
      assert |d.inactive| < |c.inactive|;
    }
  }
}
