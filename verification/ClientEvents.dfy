/** What each event of a proxy's loop makes of its client table. */
module ClientEvents {
  import opened Outcomes
  import opened ClientTables
  import opened Namings

  datatype ServiceChange = ServiceChange(service: ServiceInfo, put: bool)

  function Without(s: seq<Client>, i: nat): (r: seq<Client>)
    requires i < |s|
    ensures |r| == |s| - 1
    ensures multiset(r) == multiset(s) - multiset{s[i]}
  {
    assert s == s[..i] + [s[i]] + s[i + 1..];
    s[..i] + s[i + 1..]
  }

  lemma WithoutExact(s: seq<Client>, i: nat)
    requires i < |s|
    ensures forall k :: 0 <= k < |s| - 1 ==> Without(s, i)[k] == s[if k < i then k else k + 1]
  {
  }

  /** The first client at an address; the length of the list if there is none. */
  function FirstClient(s: seq<Client>, host: string, port: int): (i: nat)
    ensures i <= |s|
    ensures forall k :: 0 <= k < i ==> !s[k].At(host, port)
    ensures i < |s| ==> s[i].At(host, port)
  {
    if s == [] || s[0].At(host, port) then 0 else 1 + FirstClient(s[1..], host, port)
  }

  /** Only the first client at an address is looked at: when it has another id
      the search gives up.  The empty id stands for any id. */
  function IndexOf(s: seq<Client>, host: string, port: int, serviceId: string): (index: int)
    ensures -1 <= index < |s|
    ensures index >= 0 ==> s[index].At(host, port)
  {
    var i := FirstClient(s, host, port);
    if i < |s| && (serviceId == "" || s[i].data.serviceId == serviceId) then i else -1
  }

  /** The first client at the address is missing or goes by another id. */
  ghost predicate Overlooked(s: seq<Client>, host: string, port: int, id: string) {
    forall i :: 0 <= i < |s| && s[i].At(host, port) && (forall k :: 0 <= k < i ==> !s[k].At(host, port)) ==>
      id != "" && s[i].data.serviceId != id
  }

  lemma OverlookedExact(s: seq<Client>, host: string, port: int, id: string)
    ensures IndexOf(s, host, port, id) < 0 <==> Overlooked(s, host, port, id)
  {
  }

  lemma IndexOfExact(s: seq<Client>, host: string, port: int, id: string)
    requires IndexOf(s, host, port, id) >= 0
    ensures var index := IndexOf(s, host, port, id);
            && s[index].At(host, port) && (id == "" || s[index].data.serviceId == id)
            && forall k :: 0 <= k < index ==> !s[k].At(host, port)
  {
  }

  function Lookup(c: Clients, host: string, port: int, serviceId: string): Option<Client> {
    var i, j := IndexOf(c.active, host, port, serviceId), IndexOf(c.inactive, host, port, serviceId);
    if i >= 0 then Some(c.active[i]) else if j >= 0 then Some(c.inactive[j]) else None
  }

  function Removed(c: Clients, host: string, port: int, serviceId: string): Clients {
    var i, j := IndexOf(c.active, host, port, serviceId), IndexOf(c.inactive, host, port, serviceId);
    if i >= 0 then c.(active := Without(c.active, i))
    else if j >= 0 then c.(inactive := Without(c.inactive, j))
    else c
  }

  function Appended(c: Clients, host: string, port: int, serviceId: string): Clients {
    c.(inactive := c.inactive + [NewClient(host, port, serviceId)])
  }

  function Changed(c: Clients, change: ServiceChange): Clients {
    var ServiceInfo(_, id, host, port) := change.service;
    if !change.put then Removed(c, host, port, id) else
    match Lookup(c, host, port, id)
    case None => Appended(c, host, port, id)
    case Some(client) =>
      if client.data.serviceId != id then Appended(Removed(c, host, port, id), host, port, id) else c
  }

  /** The connected list is searched first, and only the client found goes. */
  lemma RemovedExact(c: Clients, host: string, port: int, id: string)
    ensures var d, found := Removed(c, host, port, id), Lookup(c, host, port, id);
            var i, j := IndexOf(c.active, host, port, id), IndexOf(c.inactive, host, port, id);
            && (i >= 0 ==> found == Some(c.active[i]) && d == Clients(c.active[..i] + c.active[i+1..], c.inactive))
            && (i < 0 <= j ==>
                found == Some(c.inactive[j]) && d == Clients(c.active, c.inactive[..j] + c.inactive[j+1..]))
            && (i < 0 && j < 0 ==> found == None && d == c)
  {
  }

  /** A put connects nothing: it can only add one client, last in the waiting list. */
  lemma PutWaits(c: Clients, change: ServiceChange)
    requires change.put
    ensures var s, d := change.service, Changed(c, change);
            d == c || (d.inactive != [] && d.inactive[|d.inactive| - 1] == NewClient(s.host, s.port, s.serviceId))
    ensures change.service.serviceId != "" ==>
            Changed(c, change).active == c.active && c.inactive <= Changed(c, change).inactive
  {
  }

  function ChangedAll(c: Clients, changes: seq<ServiceChange>): Clients {
    if changes == [] then c else Changed(ChangedAll(c, changes[..|changes| - 1]), changes[|changes| - 1])
  }

  // ----- the reconnect tick -----

  /** One pass over the list, from place i and attempt k on: where a connection
      succeeded, -1 if nowhere, and the number of the next attempt. */
  datatype Pass = Pass(hit: int, used: nat)

  function PassFrom(s: seq<Client>, now: int, answers: nat -> bool, k: nat, i: nat): (r: Pass)
    requires i <= |s|
    ensures r.hit == -1 || i <= r.hit < |s|
    ensures k <= r.used <= k + |s| - i
    decreases |s| - i
  {
    if i == |s| then Pass(-1, k)
    else if now < s[i].data.status.retryConnectTs then PassFrom(s, now, answers, k, i + 1)
    else if answers(k) then Pass(i, k + 1)
    else PassFrom(s, now, answers, k + 1, i + 1)
  }

  /** How many clients are due. */
  ghost function Dues(s: seq<Client>, now: int): nat {
    if s == [] then 0 else (if s[0].data.status.retryConnectTs <= now then 1 else 0) + Dues(s[1..], now)
  }

  /** Attempts go to the due clients in turn, up to the first that succeeds. */
  lemma {:induction false} PassExact(s: seq<Client>, now: int, answers: nat -> bool, k: nat, i: nat)
    requires i <= |s|
    ensures var pass := PassFrom(s, now, answers, k, i);
            && (pass.hit < 0 ==> pass.used == k + Dues(s[i..], now) && forall j :: k <= j < pass.used ==> !answers(j))
            && (pass.hit >= 0 ==>
                  && s[pass.hit].data.status.retryConnectTs <= now
                  && pass.used == k + Dues(s[i..pass.hit], now) + 1
                  && answers(pass.used - 1) && forall j :: k <= j < pass.used - 1 ==> !answers(j))
    decreases |s| - i
  {
    var pass := PassFrom(s, now, answers, k, i);
    if i < |s| {
      assert s[i..][0] == s[i] && s[i..][1..] == s[i + 1..];
      if pass.hit != i {
        assert pass.hit >= 0 ==> s[i..pass.hit] == [s[i]] + s[i + 1..pass.hit];
        PassExact(s, now, answers, if now < s[i].data.status.retryConnectTs then k else k + 1, i + 1);
      }
    }
  }

  function Moved(c: Clients, i: nat): Clients
    requires i < |c.inactive|
  {
    Clients(c.active + [c.inactive[i]], Without(c.inactive, i))
  }

  function Connected(c: Clients, now: int, answers: nat -> bool, k: nat): (r: (Clients, nat))
    ensures k <= r.1
    decreases |c.inactive|
  {
    var pass := PassFrom(c.inactive, now, answers, k, 0);
    if pass.hit < 0 then (c, pass.used) else Connected(Moved(c, pass.hit), now, answers, pass.used)
  }

  function Ticked(c: Clients, now: int, answers: nat -> bool): Clients {
    var d := Connected(c, now, answers, 0).0;
    d.(active := Sorted(d.active))
  }

  /** The number of connection attempts of a tick. */
  function Attempts(c: Clients, now: int, answers: nat -> bool): nat {
    Connected(c, now, answers, 0).1
  }

  function Successes(answers: nat -> bool, first: nat, end: nat): nat
    requires first <= end
    decreases end - first
  {
    if first == end then 0 else (if answers(first) then 1 else 0) + Successes(answers, first + 1, end)
  }

  lemma {:induction false} SuccessesSplit(answers: nat -> bool, a: nat, b: nat, c: nat)
    requires a <= b <= c
    ensures Successes(answers, a, c) == Successes(answers, a, b) + Successes(answers, b, c)
    decreases b - a
  {
    if a < b {
      SuccessesSplit(answers, a + 1, b, c);
    }
  }

  lemma {:induction false} PassSuccesses(s: seq<Client>, now: int, answers: nat -> bool, k: nat, i: nat)
    requires i <= |s|
    ensures Successes(answers, k, PassFrom(s, now, answers, k, i).used) ==
            if PassFrom(s, now, answers, k, i).hit < 0 then 0 else 1
    decreases |s| - i
  {
    if i < |s| {
      if now < s[i].data.status.retryConnectTs {
        PassSuccesses(s, now, answers, k, i + 1);
      } else if !answers(k) {
        PassSuccesses(s, now, answers, k + 1, i + 1);
      }
    }
  }

  ghost predicate Due(s: seq<Client>, now: int) {
    forall c :: c in s ==> c.data.status.retryConnectTs <= now
  }

  lemma {:induction false} PassRefused(s: seq<Client>, now: int, answers: nat -> bool, k: nat, i: nat)
    requires i <= |s| && Due(s, now) && PassFrom(s, now, answers, k, i).hit < 0
    ensures PassFrom(s, now, answers, k, i).used == k + |s| - i
    ensures forall j :: k <= j < k + |s| - i ==> !answers(j)
    decreases |s| - i
  {
    if i < |s| {
      PassRefused(s, now, answers, k + 1, i + 1);
    }
  }

  lemma MovedConserves(c: Clients, i: nat)
    requires i < |c.inactive|
    ensures Moved(c, i).All() == c.All()
    ensures |Moved(c, i).inactive| == |c.inactive| - 1
    ensures forall x :: x in Moved(c, i).inactive ==> x in c.inactive
  {
    forall x | x in Moved(c, i).inactive ensures x in c.inactive {
      assert x in multiset(Moved(c, i).inactive);
    }
  }

  // ----- which clients a tick connects -----

  /** The clients attempted, attempt by attempt, from attempt k at place i on: through
      the list in order, and from its start again, without the client, after each
      success. */
  function Tried(s: seq<Client>, answers: nat -> bool, k: nat, i: nat): seq<Client>
    requires i <= |s|
    decreases |s|, |s| - i
  {
    if i == |s| then [] else
    [s[i]] + if answers(k) then Tried(Without(s, i), answers, k + 1, 0) else Tried(s, answers, k + 1, i + 1)
  }

  /** Of the clients attempted from attempt k on, those with this answer. */
  function Chosen(log: seq<Client>, answers: nat -> bool, k: nat, answer: bool): seq<Client> {
    if log == [] then [] else
    (if answers(k) == answer then [log[0]] else []) + Chosen(log[1..], answers, k + 1, answer)
  }

  lemma {:induction false} ChosenConcat(a: seq<Client>, b: seq<Client>, answers: nat -> bool, k: nat, answer: bool)
    ensures Chosen(a + b, answers, k, answer) == Chosen(a, answers, k, answer) + Chosen(b, answers, k + |a|, answer)
    decreases |a|
  {
    if a == [] {
      assert a + b == b;
    } else {
      var rest := a[1..];
      assert (a + b)[1..] == rest + b && (a + b)[0] == a[0];
      ChosenConcat(rest, b, answers, k + 1, answer);
      var head := if answers(k) == answer then [a[0]] else [];
      assert head + (Chosen(rest, answers, k + 1, answer) + Chosen(b, answers, k + |a|, answer)) ==
             head + Chosen(rest, answers, k + 1, answer) + Chosen(b, answers, k + |a|, answer);
    }
  }

  lemma {:induction false} ChosenIn(log: seq<Client>, answers: nat -> bool, k: nat, answer: bool, x: Client)
    ensures x in Chosen(log, answers, k, answer) <==>
            exists j :: 0 <= j < |log| && log[j] == x && answers(k + j) == answer
    decreases |log|
  {
    if log != [] {
      ChosenIn(log[1..], answers, k + 1, answer, x);
      if j :| 0 <= j < |log| && log[j] == x && answers(k + j) == answer {
        assert 0 < j ==> log[1..][j - 1] == x && answers(k + 1 + (j - 1)) == answer;
      }
      if j :| 0 <= j < |log| - 1 && log[1..][j] == x && answers(k + 1 + j) == answer {
        assert log[j + 1] == x && answers(k + (j + 1)) == answer;
      }
      assert answers(k + 0) == answers(k);
    }
  }

  /** What a tick makes of the table from attempt k at place i on. */
  function ConnectedFrom(c: Clients, now: int, answers: nat -> bool, k: nat, i: nat): (Clients, nat)
    requires i <= |c.inactive|
  {
    var pass := PassFrom(c.inactive, now, answers, k, i);
    if pass.hit < 0 then (c, pass.used) else Connected(Moved(c, pass.hit), now, answers, pass.used)
  }

  lemma FromStart(c: Clients, now: int, answers: nat -> bool, k: nat)
    ensures ConnectedFrom(c, now, answers, k, 0) == Connected(c, now, answers, k)
  {
  }

  lemma ConnectedStep(c: Clients, now: int, answers: nat -> bool, k: nat, i: nat)
    requires i < |c.inactive| && c.inactive[i].data.status.retryConnectTs <= now
    ensures ConnectedFrom(c, now, answers, k, i) ==
            if answers(k) then ConnectedFrom(Moved(c, i), now, answers, k + 1, 0)
            else ConnectedFrom(c, now, answers, k + 1, i + 1)
  {
  }

  ghost predicate Suffix(a: seq<Client>, b: seq<Client>) {
    |a| <= |b| && a == b[|b| - |a|..]
  }

  lemma SuffixLater(a: seq<Client>, b: seq<Client>, before: seq<Client>, x: Client)
    requires Suffix(a, b)
    ensures Suffix(a, before + ([x] + b))
  {
  }

  /** `d` is what `log` makes of `c`, attempt k being its first. */
  ghost predicate Logged(c: Clients, d: Clients, log: seq<Client>, answers: nat -> bool, k: nat) {
    d.active == c.active + Chosen(log, answers, k, true)
  }

  lemma LoggedFirst(c: Clients, d: Clients, x: Client, rest: seq<Client>, answers: nat -> bool, k: nat)
    requires Logged(if answers(k) then c.(active := c.active + [x]) else c, d, rest, answers, k + 1)
    ensures Logged(c, d, [x] + rest, answers, k)
  {
    assert ([x] + rest)[1..] == rest;
  }

  /** `r`, the table and the next attempt, is what `log` leads to. */
  ghost predicate LeadsTo(c: Clients, r: (Clients, nat), log: seq<Client>, answers: nat -> bool, k: nat, i: nat)
    requires i <= |c.inactive|
  {
    && r.1 == k + |log|
    && Logged(c, r.0, log, answers, k)
    && Suffix(r.0.inactive, c.inactive[..i] + log)
  }

  lemma LeadsFromStart(c: Clients, r: (Clients, nat), log: seq<Client>, answers: nat -> bool, k: nat)
    requires LeadsTo(c, r, log, answers, k, 0)
    ensures r.1 == k + |log| && Suffix(r.0.inactive, log)
    ensures r.0.active == c.active + Chosen(log, answers, k, true)
  {
    assert c.inactive[..0] + log == log;
  }

  lemma LeadsAfterSuccess(c: Clients, r: (Clients, nat), rest: seq<Client>, answers: nat -> bool, k: nat, i: nat)
    requires i < |c.inactive| && answers(k) && LeadsTo(Moved(c, i), r, rest, answers, k + 1, 0)
    ensures LeadsTo(c, r, [c.inactive[i]] + rest, answers, k, i)
  {
    var s, x := c.inactive, c.inactive[i];
    LoggedFirst(c, r.0, x, rest, answers, k);
    LeadsFromStart(Moved(c, i), r, rest, answers, k + 1);
    SuffixLater(r.0.inactive, rest, s[..i], x);
  }

  lemma LeadsAfterRefusal(c: Clients, r: (Clients, nat), rest: seq<Client>, answers: nat -> bool, k: nat, i: nat)
    requires i < |c.inactive| && !answers(k) && LeadsTo(c, r, rest, answers, k + 1, i + 1)
    ensures LeadsTo(c, r, [c.inactive[i]] + rest, answers, k, i)
  {
    LoggedFirst(c, r.0, c.inactive[i], rest, answers, k);
    assert c.inactive[..i + 1] + rest == c.inactive[..i] + ([c.inactive[i]] + rest);
  }

  lemma MovedDue(c: Clients, now: int, i: nat)
    requires i < |c.inactive| && Due(c.inactive, now)
    ensures Due(Moved(c, i).inactive, now) && c.inactive[i].data.status.retryConnectTs <= now
  {
    assert c.inactive[i] in c.inactive;
    MovedConserves(c, i);
  }

  lemma {:induction false} ConnectedTriedFrom(c: Clients, now: int, answers: nat -> bool, k: nat, i: nat)
    requires i <= |c.inactive| && Due(c.inactive, now)
    ensures LeadsTo(c, ConnectedFrom(c, now, answers, k, i), Tried(c.inactive, answers, k, i), answers, k, i)
    decreases |c.inactive|, |c.inactive| - i
  {
    var s := c.inactive;
    if i == |s| {
      assert s[..i] + [] == s;
    } else {
      var r := ConnectedFrom(c, now, answers, k, i);
      MovedDue(c, now, i);
      ConnectedStep(c, now, answers, k, i);
      if answers(k) {
        ConnectedTriedFrom(Moved(c, i), now, answers, k + 1, 0);
        LeadsAfterSuccess(c, r, Tried(Without(s, i), answers, k + 1, 0), answers, k, i);
      } else {
        ConnectedTriedFrom(c, now, answers, k + 1, i + 1);
        LeadsAfterRefusal(c, r, Tried(s, answers, k + 1, i + 1), answers, k, i);
      }
    }
  }

  /** Every attempt is made at the client whose turn it is: those whose own attempt
      succeeds become active, in that order, and those left waiting are the last
      attempted. */
  lemma ConnectedTried(c: Clients, now: int, answers: nat -> bool, k: nat)
    requires Due(c.inactive, now)
    ensures var (d, end) := Connected(c, now, answers, k);
            var log := Tried(c.inactive, answers, k, 0);
            && end == k + |log|
            && d.active == c.active + Chosen(log, answers, k, true)
            && |d.inactive| <= |log| && d.inactive == log[|log| - |d.inactive|..]
  {
    FromStart(c, now, answers, k);
    ConnectedTriedFrom(c, now, answers, k, 0);
    LeadsFromStart(c, Connected(c, now, answers, k), Tried(c.inactive, answers, k, 0), answers, k);
  }

  /** A tick loses and invents no client; each success moves one client over. */
  lemma {:induction false} ConnectedConserves(c: Clients, now: int, answers: nat -> bool, k: nat)
    ensures var r := Connected(c, now, answers, k);
            && r.0.All() == c.All()
            && |r.0.active| == |c.active| + Successes(answers, k, r.1)
    decreases |c.inactive|
  {
    var pass := PassFrom(c.inactive, now, answers, k, 0);
    PassSuccesses(c.inactive, now, answers, k, 0);
    if pass.hit >= 0 {
      MovedConserves(c, pass.hit);
      ConnectedConserves(Moved(c, pass.hit), now, answers, pass.used);
      SuccessesSplit(answers, k, pass.used, Connected(c, now, answers, k).1);
    }
  }

  lemma {:induction false} ConnectedKeeps(c: Clients, now: int, answers: nat -> bool, k: nat)
    ensures c.active <= Connected(c, now, answers, k).0.active
    decreases |c.inactive|
  {
    var pass := PassFrom(c.inactive, now, answers, k, 0);
    if pass.hit >= 0 {
      ConnectedKeeps(Moved(c, pass.hit), now, answers, pass.used);
    }
  }

  lemma PrefixLess(s: seq<Client>, t: seq<Client>)
    requires s <= t
    ensures multiset(s) <= multiset(t)
  {
    assert t == s + t[|s|..];
  }

  lemma TickConserves(c: Clients, now: int, answers: nat -> bool)
    ensures Ticked(c, now, answers).All() == c.All()
    ensures multiset(c.active) <= multiset(Ticked(c, now, answers).active)
    ensures |Ticked(c, now, answers).active| == |c.active| + Successes(answers, 0, Attempts(c, now, answers))
    ensures StableSortOf(Ticked(c, now, answers).active, Connected(c, now, answers, 0).0.active)
  {
    var d := Connected(c, now, answers, 0).0;
    ConnectedConserves(c, now, answers, 0);
    ConnectedKeeps(c, now, answers, 0);
    PrefixLess(c.active, d.active);
    SortedSorts(d.active);
  }

  /** A tick ends only when every client still waiting has just refused. */
  lemma {:induction false} ConnectedExhausts(c: Clients, now: int, answers: nat -> bool, k: nat)
    requires Due(c.inactive, now)
    ensures var r := Connected(c, now, answers, k);
            && k + |r.0.inactive| <= r.1
            && forall j :: r.1 - |r.0.inactive| <= j < r.1 ==> !answers(j)
    decreases |c.inactive|
  {
    var pass := PassFrom(c.inactive, now, answers, k, 0);
    if pass.hit < 0 {
      PassRefused(c.inactive, now, answers, k, 0);
    } else {
      MovedConserves(c, pass.hit);
      ConnectedExhausts(Moved(c, pass.hit), now, answers, pass.used);
    }
  }

  /** The clients that a tick moves: those of the attempts that succeeded. */
  function TickMoves(s: seq<Client>, answers: nat -> bool): seq<Client> {
    Chosen(Tried(s, answers, 0, 0), answers, 0, true)
  }

  lemma TickedMoves(c: Clients, now: int, answers: nat -> bool)
    ensures Due(c.inactive, now) ==>
            StableSortOf(Ticked(c, now, answers).active, c.active + TickMoves(c.inactive, answers))
  {
    TickConserves(c, now, answers);
    if Due(c.inactive, now) {
      ConnectedTried(c, now, answers, 0);
    }
  }

  /** Every attempt ended as the reachability of its client says. */
  ghost predicate AsReached(log: seq<Client>, answers: nat -> bool, reach: Client -> bool) {
    forall j :: 0 <= j < |log| ==> answers(j) == reach(log[j])
  }

  lemma ChosenReach(log: seq<Client>, answers: nat -> bool, reach: Client -> bool, x: Client)
    requires AsReached(log, answers, reach)
    ensures x in Chosen(log, answers, 0, true) ==> reach(x)
  {
    ChosenIn(log, answers, 0, true, x);
  }

  lemma WaitingRefused(c: Clients, now: int, answers: nat -> bool, reach: Client -> bool, x: Client)
    requires Due(c.inactive, now) && AsReached(Tried(c.inactive, answers, 0, 0), answers, reach)
    ensures x in Connected(c, now, answers, 0).0.inactive ==> !reach(x)
  {
    var (d, end) := Connected(c, now, answers, 0);
    var log := Tried(c.inactive, answers, 0, 0);
    ConnectedTried(c, now, answers, 0);
    ConnectedExhausts(c, now, answers, 0);
    if x in d.inactive {
      var i :| 0 <= i < |d.inactive| && d.inactive[i] == x;
      var j := |log| - |d.inactive| + i;
      assert log[j] == x && !answers(j);
    }
  }

  lemma MovedCounts(c: Clients, d: Clients, moved: seq<Client>, x: Client)
    requires d.All() == c.All() && multiset(d.active) == multiset(c.active + moved)
    ensures multiset(d.active)[x] == multiset(c.active)[x] + multiset(moved)[x]
    ensures multiset(d.inactive)[x] + multiset(moved)[x] == multiset(c.inactive)[x]
  {
    assert d.All()[x] == c.All()[x];
  }

  /** When every attempt at a client ends as that client's reachability says, a tick
      connects exactly the waiting clients that can be reached. */
  lemma ReachableConnect(c: Clients, now: int, answers: nat -> bool, reach: Client -> bool, x: Client)
    requires Due(c.inactive, now) && AsReached(Tried(c.inactive, answers, 0, 0), answers, reach)
    ensures var d, waiting := Ticked(c, now, answers), multiset(c.inactive)[x];
            && multiset(d.active)[x] == multiset(c.active)[x] + (if reach(x) then waiting else 0)
            && multiset(d.inactive)[x] == if reach(x) then 0 else waiting
  {
    var d, log := Ticked(c, now, answers), Tried(c.inactive, answers, 0, 0);
    TickConserves(c, now, answers);
    ConnectedTried(c, now, answers, 0);
    SortedSorts(Connected(c, now, answers, 0).0.active);
    MovedCounts(c, d, Chosen(log, answers, 0, true), x);
    WaitingRefused(c, now, answers, reach, x);
    ChosenReach(log, answers, reach, x);
  }

  function Triangle(n: nat): nat {
    if n == 0 then 0 else n + Triangle(n - 1)
  }

  lemma TriangleExact(n: nat)
    ensures 2 * Triangle(n) == n * (n + 1)
  {
  }

  /** With n clients waiting it makes at most n + (n - 1) + ... + 1 attempts. */
  lemma {:induction false} AttemptsBounded(c: Clients, now: int, answers: nat -> bool, k: nat)
    ensures Connected(c, now, answers, k).1 - k <= Triangle(|c.inactive|)
    decreases |c.inactive|
  {
    var pass := PassFrom(c.inactive, now, answers, k, 0);
    if pass.hit >= 0 {
      MovedConserves(c, pass.hit);
      AttemptsBounded(Moved(c, pass.hit), now, answers, pass.used);
    }
  }

  // ----- events and runs -----

  /** How the caller waits for an answer. */
  datatype CallType = Call | CallAsync | Cast

  /** `pending` is what is recorded of the request to be sent, if it still is. */
  datatype Event =
    | Tick(now: int, answers: nat -> bool)
    | Changes(changes: seq<ServiceChange>)
    | ClientExit(host: string, port: int, serviceId: string)
    | ClientClose(host: string, port: int, serviceId: string)
    | ClientTimeout(host: string, port: int, serviceId: string)
    | Send(hash: nat, sent: bool, pending: Option<CallType>)
    | Broadcast(reached: nat -> bool)

  function Closed(c: Clients, host: string, port: int, serviceId: string): Clients {
    var i := IndexOf(c.active, host, port, serviceId);
    if i >= 0 then c.(inactive := c.inactive + [c.active[i]]) else c
  }

  function After(c: Clients, e: Event): Clients {
    match e
    case Tick(now, answers) => Ticked(c, now, answers)
    case Changes(changes) => ChangedAll(c, changes)
    case ClientExit(host, port, id) => Removed(c, host, port, id)
    case ClientClose(host, port, id) => Closed(c, host, port, id)
    case ClientTimeout(_, _, _) => c
    case Send(_, _, _) => c
    case Broadcast(_) => c
  }

  function AfterAll(c: Clients, es: seq<Event>): Clients {
    if es == [] then c else After(AfterAll(c, es[..|es| - 1]), es[|es| - 1])
  }

  /** The two lists a proxy starts with: each service found is tried once. */
  function Initial(infos: seq<ServiceInfo>, answers: nat -> bool): Clients {
    if infos == [] then Clients([], []) else
    var n := |infos| - 1;
    var c := Initial(infos[..n], answers);
    var client := NewClient(infos[n].host, infos[n].port, infos[n].serviceId);
    if answers(n) then c.(active := c.active + [client]) else c.(inactive := c.inactive + [client])
  }

  function NewClients(infos: seq<ServiceInfo>): (s: seq<Client>)
    ensures |s| == |infos|
  {
    seq(|infos|, i requires 0 <= i < |infos| => NewClient(infos[i].host, infos[i].port, infos[i].serviceId))
  }

  /** A service is active at the start exactly if its attempt succeeded. */
  lemma {:induction false} InitialChosen(infos: seq<ServiceInfo>, answers: nat -> bool)
    ensures Initial(infos, answers).active == Chosen(NewClients(infos), answers, 0, true)
    ensures Initial(infos, answers).inactive == Chosen(NewClients(infos), answers, 0, false)
  {
    if infos != [] {
      var n := |infos| - 1;
      InitialChosen(infos[..n], answers);
      var client := NewClient(infos[n].host, infos[n].port, infos[n].serviceId);
      assert NewClients(infos) == NewClients(infos[..n]) + [client];
      ChosenConcat(NewClients(infos[..n]), [client], answers, 0, true);
      ChosenConcat(NewClients(infos[..n]), [client], answers, 0, false);
    }
  }

  lemma RemovedOrdered(c: Clients, host: string, port: int, serviceId: string)
    requires Ordered(c.active)
    ensures Ordered(Removed(c, host, port, serviceId).active)
  {
  }

  lemma {:induction false} ChangesOrdered(c: Clients, changes: seq<ServiceChange>)
    requires Ordered(c.active)
    ensures Ordered(ChangedAll(c, changes).active)
  {
    if changes != [] {
      var n := |changes| - 1;
      ChangesOrdered(c, changes[..n]);
      var service := changes[n].service;
      RemovedOrdered(ChangedAll(c, changes[..n]), service.host, service.port, service.serviceId);
    }
  }

  lemma EventOrdered(c: Clients, e: Event)
    requires e.Tick? || Ordered(c.active)
    ensures Ordered(After(c, e).active)
  {
    match e
    case Tick(now, answers) => SortedSorts(Connected(c, now, answers, 0).0.active);
    case Changes(changes) => ChangesOrdered(c, changes);
    case ClientExit(host, port, id) => RemovedOrdered(c, host, port, id);
    case _ =>
  }

  ghost predicate Ticks(es: seq<Event>) {
    exists i :: 0 <= i < |es| && es[i].Tick?
  }

  lemma TicksBefore(es: seq<Event>)
    requires es != [] && !es[|es| - 1].Tick?
    ensures Ticks(es) ==> Ticks(es[..|es| - 1])
  {
    if i :| 0 <= i < |es| && es[i].Tick? {
      assert es[..|es| - 1][i].Tick?;
    }
  }

  /** From the first tick on the connected clients are in address order. */
  lemma {:induction false} OrderedAfterTick(c: Clients, es: seq<Event>)
    requires Ordered(c.active) || Ticks(es)
    ensures Ordered(AfterAll(c, es).active)
  {
    if es != [] {
      var n := |es| - 1;
      if !es[n].Tick? {
        TicksBefore(es);
        OrderedAfterTick(c, es[..n]);
      }
      EventOrdered(AfterAll(c, es[..n]), es[n]);
    }
  }

  // ----- the retry time is never in force -----

  /** No client has a retry time or a failure count. */
  ghost predicate Fresh(c: Clients) {
    forall x :: x in c.All() ==> x == NewClient(x.host, x.port, x.data.serviceId)
  }

  lemma MinusLess(a: multiset<Client>, b: multiset<Client>, x: Client)
    ensures a - multiset{x} + b <= a + b
    ensures b + (a - multiset{x}) <= b + a
  {
  }

  lemma RemovedLess(c: Clients, host: string, port: int, id: string)
    ensures Removed(c, host, port, id).All() <= c.All()
  {
    var a, b := multiset(c.active), multiset(c.inactive);
    var i, j := IndexOf(c.active, host, port, id), IndexOf(c.inactive, host, port, id);
    if i >= 0 {
      MinusLess(a, b, c.active[i]);
    } else if j >= 0 {
      MinusLess(b, a, c.inactive[j]);
    }
  }

  lemma RemovedFresh(c: Clients, host: string, port: int, id: string)
    requires Fresh(c)
    ensures Fresh(Removed(c, host, port, id))
  {
    RemovedLess(c, host, port, id);
  }

  lemma AppendedFresh(c: Clients, host: string, port: int, id: string)
    requires Fresh(c)
    ensures Fresh(Appended(c, host, port, id))
  {
    assert Appended(c, host, port, id).All() == c.All() + multiset{NewClient(host, port, id)};
  }

  lemma ChangedFresh(c: Clients, change: ServiceChange)
    requires Fresh(c)
    ensures Fresh(Changed(c, change))
  {
    var ServiceInfo(_, id, host, port) := change.service;
    RemovedFresh(c, host, port, id);
    AppendedFresh(c, host, port, id);
    AppendedFresh(Removed(c, host, port, id), host, port, id);
  }

  lemma {:induction false} ChangesFresh(c: Clients, changes: seq<ServiceChange>)
    requires Fresh(c)
    ensures Fresh(ChangedAll(c, changes))
  {
    if changes != [] {
      var n := |changes| - 1;
      ChangesFresh(c, changes[..n]);
      ChangedFresh(ChangedAll(c, changes[..n]), changes[n]);
    }
  }

  lemma EventFresh(c: Clients, e: Event)
    requires Fresh(c)
    ensures Fresh(After(c, e))
  {
    match e
    case Tick(now, answers) => TickConserves(c, now, answers);
    case Changes(changes) => ChangesFresh(c, changes);
    case ClientExit(host, port, id) => RemovedFresh(c, host, port, id);
    case ClientClose(host, port, id) =>
      var i := IndexOf(c.active, host, port, id);
      if i >= 0 {
        assert After(c, e).All() == c.All() + multiset{c.active[i]};
        assert c.active[i] in c.All();
      }
    case _ =>
  }

  lemma {:induction false} AlwaysFresh(c: Clients, es: seq<Event>)
    requires Fresh(c)
    ensures Fresh(AfterAll(c, es))
  {
    if es != [] {
      AlwaysFresh(c, es[..|es| - 1]);
      EventFresh(AfterAll(c, es[..|es| - 1]), es[|es| - 1]);
    }
  }

  lemma {:induction false} InitialFresh(infos: seq<ServiceInfo>, answers: nat -> bool)
    ensures Fresh(Initial(infos, answers))
  {
    if infos != [] {
      var n := |infos| - 1;
      InitialFresh(infos[..n], answers);
      var c := Initial(infos[..n], answers);
      assert Initial(infos, answers).All() ==
             c.All() + multiset{NewClient(infos[n].host, infos[n].port, infos[n].serviceId)};
    }
  }

  lemma AlwaysDue(infos: seq<ServiceInfo>, answers: nat -> bool, es: seq<Event>, now: nat)
    ensures Due(AfterAll(Initial(infos, answers), es).inactive, now)
  {
    var c := AfterAll(Initial(infos, answers), es);
    InitialFresh(infos, answers);
    AlwaysFresh(Initial(infos, answers), es);
    assert forall x :: x in c.inactive ==> x in c.All();
  }

  /** In every run, a tick at any time tries every waiting client: it ends with
      each of those still waiting having refused, one after the other. */
  lemma TickTriesAll(infos: seq<ServiceInfo>, answers: nat -> bool, es: seq<Event>, now: nat, tries: nat -> bool)
    ensures var c := AfterAll(Initial(infos, answers), es);
            var n, left := Attempts(c, now, tries), |Ticked(c, now, tries).inactive|;
            left <= n && forall j :: n - left <= j < n ==> !tries(j)
  {
    AlwaysDue(infos, answers, es, now);
    ConnectedExhausts(AfterAll(Initial(infos, answers), es), now, tries, 0);
  }
}
