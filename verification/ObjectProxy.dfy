/** The proxy of one service: the handlers its loop runs one at a time, and
    their effect on the table of clients. */
module ObjectProxies {
  import opened Outcomes
  import opened Namings
  import opened ClientTables
  import opened ClientEvents
  import opened ClientRuns

  /** The library's stable sort, by "host:port". */
  method SortClients(clients: seq<Client>) returns (sorted: seq<Client>)
    ensures StableSortOf(sorted, clients)
    ensures multiset(sorted) == multiset(clients)
  {
    SortedSorts(clients);
    sorted := Sorted(clients);
  }

  method FindClientIndex(clients: seq<Client>, host: string, port: int, serviceId: string) returns (index: int)
    ensures index == IndexOf(clients, host, port, serviceId)
    ensures index < 0 <==> Overlooked(clients, host, port, serviceId)
  {
    OverlookedExact(clients, host, port, serviceId);
    for i := 0 to |clients|
      invariant i <= FirstClient(clients, host, port)
    {
      if clients[i].host == host && clients[i].port == port {
        if serviceId != "" && serviceId != clients[i].data.serviceId {
          break;
        }
        return i;
      }
    }
    return -1;
  }

  /** What becomes of a request: handed to a client, refused with an error, or
      dropped where nobody waits.  `LockKept` is the return without unlocking. */
  datatype SendResult = Handed(client: Client) | Refused | Ignored | LockKept

  lemma MovedBack(was: Clients, index: nat, sorted: seq<Client>)
    requires index < |was.active| && multiset(sorted) == multiset(Without(was.active, index))
    ensures multiset(sorted) + multiset(was.inactive + [was.active[index]]) == was.All()
  {
  }

  class ObjectProxy {
    var activeClients: seq<Client>
    var inactiveClients: seq<Client>
    const invalidSeriesFailCount: int

    ghost function State(): Clients
      reads this
    {
      Clients(activeClients, inactiveClients)
    }

    constructor (infos: seq<ServiceInfo>, answers: nat -> bool, invalidSeriesFailCount: int)
      ensures State() == Initial(infos, answers)
    {
      this.invalidSeriesFailCount := invalidSeriesFailCount;
      activeClients, inactiveClients := [], [];
      new;
      for i := 0 to |infos|
        invariant State() == Initial(infos[..i], answers)
      {
        assert infos[..i + 1][..i] == infos[..i];
        var client := NewClient(infos[i].host, infos[i].port, infos[i].serviceId);
        if answers(i) {
          activeClients := activeClients + [client];
        } else {
          inactiveClients := inactiveClients + [client];
        }
      }
      assert infos[..|infos|] == infos;
    }

    /** One pass over the waiting clients, up to the first that connects. */
    method TryClients(now: int, answers: nat -> bool, k: nat) returns (connectOk: bool, used: nat)
      modifies this
      ensures var pass := PassFrom(old(inactiveClients), now, answers, k, 0);
              && used == pass.used && connectOk == (pass.hit >= 0)
              && State() == if pass.hit < 0 then old(State()) else Moved(old(State()), pass.hit)
    {
      connectOk, used := false, k;
      var size := |inactiveClients|;
      var i := 0;
      while i < size
        invariant i <= size == |inactiveClients| && State() == old(State()) && !connectOk
        invariant PassFrom(inactiveClients, now, answers, used, i) == PassFrom(inactiveClients, now, answers, k, 0)
      {
        var client := inactiveClients[i];
        if now < client.data.status.retryConnectTs {
          i := i + 1;
          continue;
        }
        var ok := answers(used);
        used := used + 1;
        if ok {
          connectOk := true;
          activeClients := activeClients + [client];
          inactiveClients := inactiveClients[..i] + inactiveClients[i + 1..];
          break;
        }
        i := i + 1;
      }
    }

    method RetryClientConnect(now: int, answers: nat -> bool)
      modifies this
      ensures State() == Ticked(old(State()), now, answers)
      ensures State().All() == old(State().All())
      ensures Ordered(activeClients)
      ensures Due(old(inactiveClients), now) ==>
              StableSortOf(activeClients, old(activeClients) + TickMoves(old(inactiveClients), answers))
    {
      TickConserves(State(), now, answers);
      TickedMoves(State(), now, answers);
      var k := 0;
      while true
        invariant Connected(State(), now, answers, k) == Connected(old(State()), now, answers, 0)
        decreases |inactiveClients|
      {
        var connectOk;
        connectOk, k := TryClients(now, answers, k);
        if !connectOk {
          break;
        }
      }
      ghost var unsorted := activeClients;
      activeClients := SortClients(activeClients);
      StableSortUnique(activeClients, unsorted);
    }

    /** Takes a client out of the connected list and puts it among the others.
        The failure count and the retry time go to a copy of its data and are
        lost. */
    method RetireActiveClient(index: int) returns (panics: bool)
      modifies this
      ensures panics <==> !(0 <= index < |old(activeClients)|)
      ensures panics ==> State() == old(State())
      ensures !panics ==> Ordered(activeClients) && State().All() == old(State().All())
      ensures !panics ==> StableSortOf(activeClients, Without(old(activeClients), index))
      ensures !panics ==> inactiveClients == old(inactiveClients) + [old(activeClients)[index]]
    {
      if index < 0 || index >= |activeClients| {
        return true;
      }
      ghost var was := State();
      var client := activeClients[index];
      activeClients := activeClients[..index] + activeClients[index + 1..];
      assert activeClients == Without(was.active, index);
      inactiveClients := inactiveClients + [client];
      activeClients := SortClients(activeClients);
      MovedBack(was, index, activeClients);
      return false;
    }

    /** The guard lets no index of the list through to the removal, and an index
        beyond the list is read out of range. */
    method RemoveActiveClientByIndex(index: int) returns (panics: bool, removed: bool)
      modifies this
      ensures State() == old(State()) && !removed
      ensures panics <==> index > |activeClients|
    {
      if |activeClients| >= index {
        return false, false;
      }
      panics := RetireActiveClient(index);
      removed := !panics;
    }

    method DoClientRemove(host: string, port: int, serviceId: string)
      modifies this
      ensures State() == Removed(old(State()), host, port, serviceId)
    {
      ghost var was := State();
      var index := FindClientIndex(activeClients, host, port, serviceId);
      if index >= 0 {
        activeClients := activeClients[..index] + activeClients[index + 1..];
        assert activeClients == Without(was.active, index);
        return;
      }
      index := FindClientIndex(inactiveClients, host, port, serviceId);
      if index >= 0 {
        inactiveClients := inactiveClients[..index] + inactiveClients[index + 1..];
        assert inactiveClients == Without(was.inactive, index);
      }
    }

    method FindClient(host: string, port: int, serviceId: string) returns (client: Option<Client>)
      ensures client == Lookup(State(), host, port, serviceId)
    {
      var index := FindClientIndex(activeClients, host, port, serviceId);
      if index >= 0 {
        return Some(activeClients[index]);
      }
      index := FindClientIndex(inactiveClients, host, port, serviceId);
      if index >= 0 {
        return Some(inactiveClients[index]);
      }
      return None;
    }

    /** The retry time set after a put goes to a copy of the client's data and
        is lost. */
    method ApplyChange(change: ServiceChange)
      modifies this
      ensures State() == Changed(old(State()), change)
    {
      var ServiceInfo(_, id, host, port) := change.service;
      if change.put {
        var isNewClient := false;
        var client := FindClient(host, port, id);
        if client.None? {
          isNewClient := true;
        } else if client.value.data.serviceId != id {
          isNewClient := true;
          DoClientRemove(host, port, id);
        }
        if isNewClient {
          inactiveClients := inactiveClients + [NewClient(host, port, id)];
        }
      } else {
        DoClientRemove(host, port, id);
      }
    }

    method DoEventServiceChange(changes: seq<ServiceChange>)
      modifies this
      ensures State() == ChangedAll(old(State()), changes)
    {
      for i := 0 to |changes|
        invariant State() == ChangedAll(old(State()), changes[..i])
      {
        assert changes[..i + 1][..i] == changes[..i];
        ApplyChange(changes[i]);
      }
      assert changes[..|changes|] == changes;
    }

    method DoClientClose(host: string, port: int, serviceId: string)
      modifies this
      ensures State() == Closed(old(State()), host, port, serviceId)
    {
      var index := FindClientIndex(activeClients, host, port, serviceId);
      if index >= 0 {
        inactiveClients := inactiveClients + [activeClients[index]];
      }
    }

    /** The failure count lives in a copy too; reaching the limit leads to the
        removal that removes nothing. */
    method DoClientTimeout(host: string, port: int, serviceId: string)
      modifies this
      ensures State() == old(State())
    {
      var index := FindClientIndex(activeClients, host, port, serviceId);
      if index >= 0 {
        var status := activeClients[index].data.status;
        if status.seriesFailCount + 1 >= invalidSeriesFailCount {
          var panics, removed := RemoveActiveClientByIndex(index);
        }
      }
    }

    /** Sends a request to the client its hash selects.  With no client, whoever
        waits for an answer gets an error; a request no longer recorded leaves
        the proxy locked. */
    method DoSendByHash(hash: nat, sent: bool, pending: Option<CallType>) returns (r: SendResult)
      modifies this
      ensures State() == old(State())
      ensures activeClients != [] ==> r == Handed(activeClients[hash % |activeClients|])
      ensures activeClients != [] ==> r == Handed(Routed(activeClients, hash))
      ensures activeClients == [] ==> r.Handed? == false && (r.LockKept? <==> pending.None?)
      ensures activeClients == [] ==> (r.Refused? <==> pending == Some(Call) || pending == Some(CallAsync))
    {
      if |activeClients| == 0 {
        if pending.None? {
          return LockKept;
        }
        return if pending.value.Call? || pending.value.CallAsync? then Refused else Ignored;
      }
      var index := hash % |activeClients|;
      r := Handed(activeClients[index]);
      if !sent {
        var panics, removed := RemoveActiveClientByIndex(index);
      }
    }

    method DoSendByBroadcast(reached: nat -> bool) returns (panics: bool)
      modifies this
      ensures State() == old(State()) && !panics
    {
      var removes := [];
      for i := 0 to |activeClients| {
        if !reached(i) {
          removes := removes + [activeClients[i].data.serviceId];
        }
      }
      panics := false;
      for r := 0 to |removes|
        invariant !panics && State() == old(State())
      {
        for index := 0 to |activeClients|
          invariant !panics && State() == old(State())
        {
          if removes[r] == activeClients[index].data.serviceId {
            var removed;
            panics, removed := RemoveActiveClientByIndex(index);
          }
        }
      }
    }

    method Handle(e: Event)
      modifies this
      ensures State() == After(old(State()), e)
    {
      match e
      case Tick(now, answers) => RetryClientConnect(now, answers);
      case Changes(changes) => DoEventServiceChange(changes);
      case ClientExit(host, port, id) => DoClientRemove(host, port, id);
      case ClientClose(host, port, id) => DoClientClose(host, port, id);
      case ClientTimeout(host, port, id) => DoClientTimeout(host, port, id);
      case Send(hash, sent, pending) => var r := DoSendByHash(hash, sent, pending);
      case Broadcast(reached) => var panics := DoSendByBroadcast(reached);
    }
  }

  lemma AfterAllStep(c: Clients, es: seq<Event>, i: nat)
    requires i < |es|
    ensures AfterAll(c, es[..i + 1]) == After(AfterAll(c, es[..i]), es[i])
  {
    assert es[..i + 1][..i] == es[..i];
  }

  /** The loop over any events, from any start; once it has seen a tick the
      connected clients are in order. */
  method LoopMain(infos: seq<ServiceInfo>, answers: nat -> bool, limit: int, es: seq<Event>)
    returns (active: seq<Client>, inactive: seq<Client>)
    ensures Clients(active, inactive) == AfterAll(Initial(infos, answers), es)
    ensures Ticks(es) ==> Ordered(active)
  {
    var proxy := new ObjectProxy(infos, answers, limit);
    for i := 0 to |es|
      invariant proxy.State() == AfterAll(Initial(infos, answers), es[..i])
    {
      AfterAllStep(Initial(infos, answers), es, i);
      proxy.Handle(es[i]);
    }
    assert es[..|es|] == es;
    active, inactive := proxy.activeClients, proxy.inactiveClients;
    if Ticks(es) {
      OrderedAfterTick(Initial(infos, answers), es);
    }
  }

  /** Any two proxies that have ticked and are connected to the same addresses
      send each hash to the same host and port, whatever brought them there. */
  lemma ProxiesAgree(a: Clients, es: seq<Event>, b: Clients, fs: seq<Event>, hash: nat)
    requires Ticks(es) && Ticks(fs)
    requires AfterAll(a, es).active != []
    requires multiset(Addresses(AfterAll(a, es).active)) == multiset(Addresses(AfterAll(b, fs).active))
    ensures AfterAll(b, fs).active != []
    ensures var x := Routed(AfterAll(a, es).active, hash);
            Routed(AfterAll(b, fs).active, hash).At(x.host, x.port)
  {
    OrderedAfterTick(a, es);
    OrderedAfterTick(b, fs);
    SameRoute(AfterAll(a, es).active, AfterAll(b, fs).active, hash);
  }

  /** A proxy opened on a store of printed keys, and run: the look-up does not panic,
      no service offered at the start or registered since is ever missing, and
      without harm the clients are exactly those services, once each. */
  method OpenAndRun(store: map<string, string>, name: string, answers: nat -> bool, limit: int, es: seq<Event>)
    returns (active: seq<Client>, inactive: seq<Client>, ghost start: Clients, ghost r: set<Client>)
    requires Published(store) && Free(name, '/')
    ensures forall x :: x in r <==> OfferedClient(store, name, x)
    ensures Exact(start, r)
    ensures multiset(Registered(r, es)) <= multiset(active) + multiset(inactive)
    ensures (forall k :: 0 <= k < |es| ==> HarmlessAt(start, r, es, k)) ==>
            multiset(active) + multiset(inactive) == multiset(Registered(r, es))
    ensures Ticks(es) ==> Ordered(active)
  {
    var found, keys := Find(store, name);
    PublishedNeverPanics(store, name);
    var infos := found.infos;
    start, r := Initial(infos, answers), Services(infos);
    FoundDistinct(store, name, keys, infos);
    InitialExact(infos, answers);
    ServicesOffered(store, name, keys, infos);
    RunFromFound(store, name, keys, infos, answers, es);
    active, inactive := LoopMain(infos, answers, limit, es);
    assert Clients(active, inactive).All() == multiset(active) + multiset(inactive);
    if forall k :: 0 <= k < |es| ==> HarmlessAt(start, r, es, k) {
      ExactUntil(start, r, es, |es|);
      assert es[..|es|] == es;
    }
  }
}
