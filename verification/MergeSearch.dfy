/** Concurrent calls for the same key share one run of the search function: the
    first caller leads, the others wait for its result.

    The protocol is a transition system over any number of calls.  A call is a
    number; its waiting channel, if it makes one, is named by the same number. */
module MergeSearch {
  /** Where a call is.  `leader` is bookkeeping of the model: the call that held the
      key when this one registered. */
  datatype Call<K, R> =
    | Started(key: K)
    | Running(key: K)                             // leads; the function runs
    | Returned(key: K, result: R)                 // leads; the function has returned
    | Delivering(key: K, result: R, rest: seq<nat>) // has let go of the key
    | Waiting(key: K, leader: nat)
    | Led(key: K, result: R)
    | Served(key: K, leader: nat, result: R)

  /** `caches` holds the keys being searched (with the call that leads, where the
      source stores 1), `waits` the channels registered. */
  datatype State<!K, R> = State(caches: map<K, nat>, waits: map<K, seq<nat>>, calls: seq<Call<K, R>>)

  datatype Step<R> =
    | Claim(c: nat)               // under the lock: the key is free
    | Register(c: nat)            // under the lock: the key is taken
    | Return(c: nat, result: R)   // the function returns
    | Collect(c: nat)             // under the lock: take the waiters, free the key
    | Deliver(c: nat)             // hand the result to the next waiter
    | Finish(c: nat)              // no waiter is left

  ghost predicate Enabled<K, R>(s: State<K, R>, step: Step<R>) {
    && step.c < |s.calls|
    && var call := s.calls[step.c];
       match step
       case Claim(_) => call.Started? && call.key !in s.caches
       case Register(_) => call.Started? && call.key in s.caches
       case Return(_, _) => call.Running?
       case Collect(_) => call.Returned?
       case Deliver(_) => call.Delivering? && call.rest != [] && call.rest[0] < |s.calls| &&
         s.calls[call.rest[0]].Waiting?
       case Finish(_) => call.Delivering? && call.rest == []
  }

  /** The channels registered for a key. */
  ghost function WaitsFor<K, R>(s: State<K, R>, key: K): seq<nat> {
    if key in s.waits then s.waits[key] else []
  }

  /** The call leads and has not let go of its key. */
  ghost predicate Holds<K, R>(s: State<K, R>, c: nat) {
    c < |s.calls| && (s.calls[c].Running? || s.calls[c].Returned?)
  }

  /** The state after a step.  A registering call notes who holds the key. */
  ghost function Next<K, R>(s: State<K, R>, step: Step<R>): State<K, R>
    requires Enabled(s, step)
  {
    var call := s.calls[step.c];
    match step
    case Claim(c) => s.(caches := s.caches[call.key := c], calls := s.calls[c := Running(call.key)])
    case Register(c) =>
      s.(waits := s.waits[call.key := WaitsFor(s, call.key) + [c]],
         calls := s.calls[c := Waiting(call.key, s.caches[call.key])])
    case Return(c, result) => s.(calls := s.calls[c := Returned(call.key, result)])
    case Collect(c) =>
      State(s.caches - {call.key}, s.waits - {call.key},
            s.calls[c := Delivering(call.key, call.result, WaitsFor(s, call.key))])
    case Deliver(c) =>
      var w := call.rest[0];
      s.(calls := s.calls[w := Served(call.key, s.calls[w].leader, call.result)][c := call.(rest := call.rest[1..])])
    case Finish(c) => s.(calls := s.calls[c := Led(call.key, call.result)])
  }

  /** The channels a leader still has to serve: those registered while it holds its
      key, and what is left of them once it delivers. */
  ghost function Queue<K, R>(s: State<K, R>, l: nat): seq<nat>
    requires l < |s.calls|
  {
    match s.calls[l]
    case Running(key) => WaitsFor(s, key)
    case Returned(key, _) => WaitsFor(s, key)
    case Delivering(_, _, rest) => rest
    case _ => []
  }

  ghost predicate NoDuplicates(q: seq<nat>) {
    forall i, j :: 0 <= i < j < |q| ==> q[i] != q[j]
  }

  /** A key is taken exactly while some call holds it, and then only one does; only
      for such keys are channels registered. */
  ghost predicate OneHolder<K, R>(s: State<K, R>) {
    && (forall c: nat {:trigger Holds(s, c)} :: Holds(s, c) ==>
        s.calls[c].key in s.caches && s.caches[s.calls[c].key] == c)
    && (forall key {:trigger s.caches[key]} :: key in s.caches ==>
        Holds(s, s.caches[key]) && s.calls[s.caches[key]].key == key)
    && s.waits.Keys <= s.caches.Keys
  }

  /** A waiting call stands in the queue of its own leader, once, and nothing else
      stands in a queue. */
  ghost predicate Queued<K, R>(s: State<K, R>) {
    && (forall w {:trigger s.calls[w]} :: 0 <= w < |s.calls| && s.calls[w].Waiting? ==>
          s.calls[w].leader < |s.calls| && w in Queue(s, s.calls[w].leader))
    && (forall l, w {:trigger w in Queue(s, l)} :: 0 <= l < |s.calls| && w in Queue(s, l) ==>
          w < |s.calls| && s.calls[w] == Waiting(s.calls[l].key, l))
    && (forall l {:trigger Queue(s, l)} :: 0 <= l < |s.calls| ==> NoDuplicates(Queue(s, l)))
  }

  /** What a served call got is the result of its leader. */
  ghost predicate ServedRight<K, R>(s: State<K, R>) {
    forall w {:trigger s.calls[w]} :: 0 <= w < |s.calls| && s.calls[w].Served? ==>
      var l := s.calls[w].leader;
      && l < |s.calls| && (s.calls[l].Delivering? || s.calls[l].Led?)
      && s.calls[l].key == s.calls[w].key && s.calls[l].result == s.calls[w].result
  }

  ghost predicate Inv<K, R>(s: State<K, R>) {
    OneHolder(s) && Queued(s) && ServedRight(s)
  }

  ghost predicate Initial<K, R>(s: State<K, R>) {
    s.caches == map[] && s.waits == map[] && forall c :: 0 <= c < |s.calls| ==> s.calls[c].Started?
  }

  lemma InitialInv<K, R>(s: State<K, R>)
    requires Initial(s)
    ensures Inv(s)
  {
  }

  lemma StepOneHolder<K, R>(s: State<K, R>, step: Step<R>)
    requires Inv(s) && Enabled(s, step)
    ensures OneHolder(Next(s, step))
  {
    var s' := Next(s, step);
    assert step.Return? || step.Collect? ==> Holds(s, step.c);
    forall c: nat | Holds(s', c) ensures s'.calls[c].key in s'.caches && s'.caches[s'.calls[c].key] == c {
      assert c != step.c ==> Holds(s, c);
      assert step.Return? && c == step.c ==> Holds(s, c);
    }
    forall key | key in s'.caches ensures Holds(s', s'.caches[key]) && s'.calls[s'.caches[key]].key == key {
      if key in s.caches {
        assert Holds(s, s.caches[key]);
      }
    }
  }

  /** How a step changes a queue: a registering call joins its leader's, a delivery
      takes the first one out. */
  lemma StepQueue<K, R>(s: State<K, R>, step: Step<R>, l: nat)
    requires Inv(s) && Enabled(s, step) && l < |s.calls|
    ensures var call := s.calls[step.c];
            Queue(Next(s, step), l) ==
              if step.Register? && l == s.caches[call.key] then Queue(s, l) + [step.c]
              else if step.Deliver? && l == step.c then call.rest[1..]
              else Queue(s, l)
  {
    assert s.calls[l].Running? || s.calls[l].Returned? ==> Holds(s, l);
    if step.Register? {
      assert Holds(s, s.caches[s.calls[step.c].key]);
    } else if step.Collect? {
      assert Holds(s, step.c);
    } else if step.Deliver? {
      assert s.calls[step.c].rest[0] in Queue(s, step.c);
    }
  }

  lemma StepMembers<K, R>(s: State<K, R>, step: Step<R>, l: nat)
    requires Inv(s) && Enabled(s, step) && l < |s.calls|
    ensures NoDuplicates(Queue(Next(s, step), l))
    ensures forall w :: w in Queue(Next(s, step), l) ==>
            w < |s.calls| && Next(s, step).calls[w] == Waiting(Next(s, step).calls[l].key, l)
  {
    StepQueue(s, step, l);
    if step.Register? {
      assert Holds(s, s.caches[s.calls[step.c].key]);
      assert step.c !in Queue(s, l);
    } else if step.Deliver? {
      var w := s.calls[step.c].rest[0];
      assert w in Queue(s, step.c);
      forall v | v in Queue(Next(s, step), l) ensures v in Queue(s, l) && v != w {
        if l == step.c {
          var j :| 0 <= j < |Queue(s, l)| - 1 && Queue(s, l)[1..][j] == v;
          assert Queue(s, l)[j+1] == v;
        }
      }
    }
  }

  lemma StepQueued<K, R>(s: State<K, R>, step: Step<R>)
    requires Inv(s) && Enabled(s, step)
    ensures Queued(Next(s, step))
  {
    var s' := Next(s, step);
    forall l | 0 <= l < |s.calls|
      ensures NoDuplicates(Queue(s', l))
      ensures forall w :: w in Queue(s', l) ==> w < |s.calls| && s'.calls[w] == Waiting(s'.calls[l].key, l)
    {
      StepQueue(s, step, l);
      StepMembers(s, step, l);
    }
    forall w | 0 <= w < |s.calls| && s'.calls[w].Waiting?
      ensures s'.calls[w].leader < |s.calls| && w in Queue(s', s'.calls[w].leader)
    {
      if step.Register? && w == step.c {
        StepQueue(s, step, s.caches[s.calls[w].key]);
      } else {
        StepQueue(s, step, s.calls[w].leader);
      }
    }
  }

  lemma StepServedRight<K, R>(s: State<K, R>, step: Step<R>)
    requires Inv(s) && Enabled(s, step)
    ensures ServedRight(Next(s, step))
  {
    if step.Deliver? {
      assert s.calls[step.c].rest[0] in Queue(s, step.c);
    }
  }

  lemma StepInv<K, R>(s: State<K, R>, step: Step<R>)
    requires Inv(s) && Enabled(s, step)
    ensures Inv(Next(s, step))
  {
    StepOneHolder(s, step);
    StepQueued(s, step);
    StepServedRight(s, step);
  }

  // -------------------------------------------------- whole runs

  /** A run of the protocol: `tr` are its states, `steps` what happens between them. */
  ghost predicate Execution<K, R>(tr: seq<State<K, R>>, steps: seq<Step<R>>) {
    && |tr| == |steps| + 1 && Initial(tr[0])
    && forall i {:trigger steps[i]} :: 0 <= i < |steps| ==> Enabled(tr[i], steps[i]) && tr[i+1] == Next(tr[i], steps[i])
  }

  lemma {:induction false} AlwaysInv<K, R>(tr: seq<State<K, R>>, steps: seq<Step<R>>, i: nat)
    requires Execution(tr, steps) && i < |tr|
    ensures Inv(tr[i]) && |tr[i].calls| == |tr[0].calls|
  {
    if i == 0 {
      InitialInv(tr[0]);
    } else {
      AlwaysInv(tr, steps, i - 1);
      StepInv(tr[i-1], steps[i-1]);
    }
  }

  /** At any time a key has at most one leader between claiming and freeing it, and a
      key with registered waiters has one. */
  lemma OneLeaderPerKey<K, R>(tr: seq<State<K, R>>, steps: seq<Step<R>>, i: nat)
    requires Execution(tr, steps) && i < |tr|
    ensures forall c: nat, d: nat ::
      Holds(tr[i], c) && Holds(tr[i], d) && tr[i].calls[c].key == tr[i].calls[d].key ==> c == d
    ensures forall key :: key in tr[i].waits ==> key in tr[i].caches && Holds(tr[i], tr[i].caches[key])
  {
    AlwaysInv(tr, steps, i);
  }

  /** At any time a waiting call's channel lies in exactly one place: in the queue of
      the call that led when it registered, however many rounds overlap. */
  lemma ChannelInOnePlace<K, R>(tr: seq<State<K, R>>, steps: seq<Step<R>>, i: nat, w: nat)
    requires Execution(tr, steps) && i < |tr| && w < |tr[i].calls| && tr[i].calls[w].Waiting?
    ensures var l := tr[i].calls[w].leader;
            && l < |tr[i].calls| && w in Queue(tr[i], l)
            && (var q := Queue(tr[i], l); forall a, b :: 0 <= a < |q| && 0 <= b < |q| && q[a] == q[b] == w ==> a == b)
            && (forall m :: 0 <= m < |tr[i].calls| && w in Queue(tr[i], m) ==> m == l)
  {
    AlwaysInv(tr, steps, i);
    var s, l := tr[i], tr[i].calls[w].leader;
    assert NoDuplicates(Queue(s, l));
  }

  /** How far a call still has to go. */
  function Rank<K, R>(call: Call<K, R>): nat {
    match call
    case Started(_) => 5
    case Running(_) => 4
    case Returned(_, _) => 3
    case Delivering(_, _, _) => 2
    case Waiting(_, _) => 1
    case Led(_, _) => 0
    case Served(_, _, _) => 0
  }

  lemma {:induction false} RanksFall<K, R>(tr: seq<State<K, R>>, steps: seq<Step<R>>, i: nat, j: nat, c: nat)
    requires Execution(tr, steps) && i <= j < |tr| && c < |tr[0].calls|
    ensures |tr[i].calls| == |tr[j].calls| == |tr[0].calls| && Rank(tr[j].calls[c]) <= Rank(tr[i].calls[c])
    decreases j - i
  {
    AlwaysInv(tr, steps, i);
    if i < j {
      AlwaysInv(tr, steps, j - 1);
      RanksFall(tr, steps, i, j - 1, c);
      assert tr[j] == Next(tr[j-1], steps[j-1]);
    }
  }

  /** Step `d` hands a result to call `w`. */
  ghost predicate DeliversTo<K, R>(tr: seq<State<K, R>>, steps: seq<Step<R>>, d: nat, w: nat)
    requires Execution(tr, steps) && d < |steps|
  {
    steps[d].Deliver? && tr[d].calls[steps[d].c].rest[0] == w
  }

  lemma {:induction false} Registered<K, R>(tr: seq<State<K, R>>, steps: seq<Step<R>>, j: nat, w: nat) returns (i: nat)
    requires Execution(tr, steps) && j < |tr| && w < |tr[j].calls| &&
             (tr[j].calls[w].Waiting? || tr[j].calls[w].Served?)
    ensures i < j && steps[i] == Register(w) && w < |tr[i].calls| && tr[i].calls[w] == Started(tr[j].calls[w].key)
    ensures tr[j].calls[w].key in tr[i].caches && tr[i].caches[tr[j].calls[w].key] == tr[j].calls[w].leader
  {
    AlwaysInv(tr, steps, j - 1);
    assert tr[j] == Next(tr[j-1], steps[j-1]);
    if steps[j-1] == Register(w) {
      i := j - 1;
    } else {
      if steps[j-1].Deliver? {
        assert tr[j-1].calls[steps[j-1].c].rest[0] in Queue(tr[j-1], steps[j-1].c);
      }
      i := Registered(tr, steps, j - 1, w);
    }
  }

  lemma {:induction false} HasReturned<K, R>(tr: seq<State<K, R>>, steps: seq<Step<R>>, j: nat, l: nat) returns (m: nat)
    requires Execution(tr, steps) && j < |tr| && l < |tr[j].calls|
    requires tr[j].calls[l].Returned? || tr[j].calls[l].Delivering? || tr[j].calls[l].Led?
    ensures m < j && steps[m] == Return(l, tr[j].calls[l].result)
  {
    AlwaysInv(tr, steps, j - 1);
    assert tr[j] == Next(tr[j-1], steps[j-1]);
    if steps[j-1].Return? && steps[j-1].c == l {
      m := j - 1;
    } else {
      m := HasReturned(tr, steps, j - 1, l);
    }
  }

  lemma {:induction false} HasDelivered<K, R>(tr: seq<State<K, R>>, steps: seq<Step<R>>, j: nat, w: nat)
    returns (d: nat)
    requires Execution(tr, steps) && j < |tr| && w < |tr[j].calls| && tr[j].calls[w].Served?
    ensures d < j && DeliversTo(tr, steps, d, w)
  {
    AlwaysInv(tr, steps, j - 1);
    assert tr[j] == Next(tr[j-1], steps[j-1]);
    if DeliversTo(tr, steps, j - 1, w) {
      d := j - 1;
    } else {
      d := HasDelivered(tr, steps, j - 1, w);
    }
  }

  /** A call is delivered to at most once. */
  lemma DeliveredOnce<K, R>(tr: seq<State<K, R>>, steps: seq<Step<R>>, d: nat, e: nat, w: nat)
    requires Execution(tr, steps) && d < e < |steps| && DeliversTo(tr, steps, d, w)
    ensures !DeliversTo(tr, steps, e, w)
  {
    AlwaysInv(tr, steps, d);
    assert tr[d+1] == Next(tr[d], steps[d]);
    RanksFall(tr, steps, d + 1, e, w);
  }

  /** A call that was served registered while some call led its key, got what the
      function returned to that very call, and got it in exactly one delivery. */
  lemma ServedByItsRound<K, R>(tr: seq<State<K, R>>, steps: seq<Step<R>>, j: nat, w: nat)
    requires Execution(tr, steps) && j < |tr| && w < |tr[j].calls| && tr[j].calls[w].Served?
    ensures var served := tr[j].calls[w];
            exists i, m, d ::
              && 0 <= i < j && 0 <= m < j && 0 <= d < j
              && steps[i] == Register(w) && served.key in tr[i].caches && tr[i].caches[served.key] == served.leader
              && steps[m] == Return(served.leader, served.result)
              && DeliversTo(tr, steps, d, w) && forall e :: 0 <= e < |steps| && DeliversTo(tr, steps, e, w) ==> e == d
  {
    AlwaysInv(tr, steps, j);
    var i := Registered(tr, steps, j, w);
    var m := HasReturned(tr, steps, j, tr[j].calls[w].leader);
    var d := HasDelivered(tr, steps, j, w);
    forall e | 0 <= e < |steps| && DeliversTo(tr, steps, e, w) ensures e == d {
      if e < d {
        DeliveredOnce(tr, steps, e, d, w);
      } else if d < e {
        DeliveredOnce(tr, steps, d, e, w);
      }
    }
  }

  /** The function runs at most once for every call. */
  lemma ReturnsOnce<K, R>(tr: seq<State<K, R>>, steps: seq<Step<R>>, m: nat, n: nat)
    requires Execution(tr, steps) && m < n < |steps| && steps[m].Return? && steps[n].Return?
    ensures steps[m].c != steps[n].c
  {
    AlwaysInv(tr, steps, m);
    assert tr[m+1] == Next(tr[m], steps[m]);
    RanksFall(tr, steps, m + 1, n, steps[m].c);
  }

  // -------------------------------------------------- progress

  function Measure<K, R>(calls: seq<Call<K, R>>): nat {
    if calls == [] then 0 else Rank(calls[0]) + Measure(calls[1..])
  }

  lemma {:induction false} MeasureUpdate<K, R>(calls: seq<Call<K, R>>, c: nat, call: Call<K, R>)
    requires c < |calls|
    ensures Measure(calls[c := call]) == Measure(calls) - Rank(calls[c]) + Rank(call)
  {
    if c == 0 {
      assert calls[c := call][1..] == calls[1..];
    } else {
      MeasureUpdate(calls[1..], c - 1, call);
      assert calls[c := call][1..] == calls[1..][c - 1 := call];
    }
  }

  /** Every step brings the calls closer to their end. */
  lemma StepsDecrease<K, R>(s: State<K, R>, step: Step<R>)
    requires Enabled(s, step)
    ensures Measure(Next(s, step).calls) < Measure(s.calls)
  {
    var call, call' := s.calls[step.c], Next(s, step).calls[step.c];
    if step.Deliver? {
      var w := call.rest[0];
      MeasureUpdate(s.calls, w, Next(s, step).calls[w]);
      MeasureUpdate(s.calls[w := Next(s, step).calls[w]], step.c, call');
    } else {
      MeasureUpdate(s.calls, step.c, call');
    }
  }

  predicate Finished<K, R>(call: Call<K, R>) {
    call.Led? || call.Served?
  }

  lemma SomeStep<K, R>(s: State<K, R>, c: nat, r: R) returns (step: Step<R>)
    requires Inv(s) && c < |s.calls| && !Finished(s.calls[c])
    ensures Enabled(s, step)
    decreases s.calls[c].Waiting?
  {
    match s.calls[c]
    case Started(key) => step := if key in s.caches then Register(c) else Claim(c);
    case Running(_) => step := Return(c, r);
    case Returned(_, _) => step := Collect(c);
    case Delivering(_, _, rest) =>
      if rest == [] {
        step := Finish(c);
      } else {
        assert rest[0] in Queue(s, c);
        step := Deliver(c);
      }
    case Waiting(_, l) =>
      assert c in Queue(s, l);
      step := SomeStep(s, l, r);
  }

  /** As long as some call has not returned, some step can be taken; when all have,
      the tables are empty. */
  lemma CanStepUntilDone<K, R>(s: State<K, R>, r: R)
    requires Inv(s)
    ensures (exists step :: Enabled(s, step)) <==> exists c :: 0 <= c < |s.calls| && !Finished(s.calls[c])
    ensures (forall c :: 0 <= c < |s.calls| ==> Finished(s.calls[c])) ==> s.caches == map[] && s.waits == map[]
  {
    if c :| 0 <= c < |s.calls| && !Finished(s.calls[c]) {
      var step := SomeStep(s, c, r);
    }
    if key :| key in s.caches {
      assert Holds(s, s.caches[key]);
      assert !Finished(s.calls[s.caches[key]]);
    }
  }

  lemma {:induction false} StartMeasure<K, R>(calls: seq<Call<K, R>>)
    requires forall c :: 0 <= c < |calls| ==> calls[c].Started?
    ensures Measure(calls) == 5 * |calls|
  {
    if calls != [] {
      StartMeasure(calls[1..]);
    }
  }

  /** A run of `n` calls takes at most `5 * n` steps. */
  lemma {:induction false} RunsAreShort<K, R>(tr: seq<State<K, R>>, steps: seq<Step<R>>, i: nat)
    requires Execution(tr, steps) && i < |tr|
    ensures Measure(tr[i].calls) + i <= 5 * |tr[0].calls|
  {
    if i == 0 {
      StartMeasure(tr[0].calls);
    } else {
      RunsAreShort(tr, steps, i - 1);
      StepsDecrease(tr[i-1], steps[i-1]);
    }
  }
}
