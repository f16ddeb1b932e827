/** What holds of the limiter over every run. */
module LimiterRuns {
  import opened Basics
  import opened Scheduler
  import opened Limiter

  ghost predicate IsRun(states: seq<Limiter>, steps: seq<Step>) {
    && |states| == |steps| + 1
    && forall i :: 0 <= i < |steps| ==> Enabled(states[i], steps[i]) && states[i + 1] == Next(states[i], steps[i])
  }

  // ---- One pass, in full ----

  lemma ValidIsReady(s: Sched)
    ensures Valid(s) <==> Ready(s.(order := []), s.order)
    ensures Valid(s) <==> Ready(s, [])
  {
    assert s.order + [] == s.order && [] + s.order == s.order;
  }

  /** A pass keeps the structure, the history of every class, and the order of the classes that
      still wait; it visits each of those once, pays for every grant with tokens, and leaves at
      the head of each a request that exceeds its deficit or the tokens left. */
  lemma ServeTheorem(s: Sched, cap: nat)
    requires Valid(s)
    ensures var t := Serve(s, cap);
      && Valid(t) && t.order == Remaining(s.order, t.classes)
      && (forall k :: History(t, k) == History(s, k))
      && t.classes.Keys <= s.classes.Keys
      && (forall k :: k in t.classes ==>
        && Credited(s.classes[k], t.classes[k])
        && t.classes[k].queue != [] && Blocked(t.classes[k].queue[0], t.classes[k].deficit, t.tokens))
      && s.log <= t.log && Positive(t.log[|s.log|..]) && t.tokens <= s.tokens
      && t.tokens + Bytes(t.log) <= s.tokens + Bytes(s.log)
      && (t.classes != map[] ==> t.tokens + Bytes(t.log) == s.tokens + Bytes(s.log))
      && (t.classes == map[] && s.classes != map[] ==> t.tokens == Min(s.tokens + Bytes(s.log) - Bytes(t.log), cap))
      && Backlog(t) + Bytes(t.log) == Backlog(s) + Bytes(s.log)
  {
    hide Pass, Ready, History, Backlog, Bytes, Credited, Blocked, ClassesOk, Lists;
    var s', todo := s.(order := []), s.order;
    var t := Serve(s, cap);
    ValidIsReady(s);
    ValidIsReady(t);
    PassReady(s', todo, cap);
    PassOrder(s', todo, cap);
    assert [] + Remaining(todo, t.classes) == Remaining(todo, t.classes);
    PassTokens(s', todo, cap);
    PassFrame(s', todo, cap);
    assert Backlog(s') == Backlog(s) by {
      SameBacklog(s', s);
    }
    forall k ensures History(t, k) == History(s, k) {
      PassHistory(s', todo, cap, k);
      SameHistory(s', s, k);
    }
    OrderCovers(s);
    forall k | k in t.classes
      ensures Credited(s.classes[k], t.classes[k]) && t.classes[k].queue != []
        && Blocked(t.classes[k].queue[0], t.classes[k].deficit, t.tokens)
    {
      PassCredit(s', todo, cap, k);
    }
  }

  lemma OrderCovers(s: Sched)
    requires Valid(s)
    ensures forall k :: k in s.order <==> k in s.classes
    ensures s.classes != map[] <==> s.order != []
  {
    ListsOnce(s.order, s.classes);
    if s.classes != map[] {
      var k :| k in s.classes;
      assert k in s.order;
    }
    if s.order != [] {
      assert s.order[0] in s.order;
    }
  }

  lemma SameHistory(s: Sched, t: Sched, k: FairnessKey)
    requires s.classes == t.classes && s.log == t.log
    ensures History(s, k) == History(t, k)
  {
  }

  lemma SameBacklog(s: Sched, t: Sched)
    requires s.classes == t.classes
    ensures Backlog(s) == Backlog(t)
  {
  }

  lemma EnqueuedValid(s: Sched, r: Request)
    requires Valid(s)
    ensures Valid(Enqueued(s, r))
  {
    var t := Enqueued(s, r);
    if r.key !in s.classes {
      assert t.classes.Keys == s.classes.Keys + {r.key};
      assert multiset(s.order + [r.key]) == multiset(s.order) + multiset{r.key};
      assert multiset(s.classes.Keys + {r.key}) == multiset(s.classes.Keys) + multiset{r.key};
    } else {
      assert t.classes.Keys == s.classes.Keys;
    }
  }

  lemma EnqueuedTheorem(s: Sched, r: Request)
    requires Valid(s)
    ensures var t := Enqueued(s, r);
      && Valid(t) && t.tokens == s.tokens && t.log == s.log && t.classes != map[]
      && (forall k :: k in s.classes ==> k in t.classes && t.classes[k].deficit == s.classes[k].deficit)
      && r.key in t.classes && (r.key !in s.classes ==> t.classes[r.key].deficit == 0)
      && t.order == (if r.key in s.classes then s.order else s.order + [r.key])
      && (forall k :: History(t, k) == History(s, k) + if k == r.key then [r] else [])
  {
    hide Of, Lists;
    EnqueuedValid(s, r);
    var t := Enqueued(s, r);
    assert r.key in t.classes;
    forall k ensures History(t, k) == History(s, k) + if k == r.key then [r] else [] {
      assert Queue(t, k) == Queue(s, k) + if k == r.key then [r] else [];
    }
  }

  // ---- Every request is accounted for ----

  ghost predicate Accounted(l: Limiter) {
    && Valid(l.sched)
    && forall k :: multiset(Of(k, l.received)) == multiset(History(l.sched, k))
  }

  lemma {:induction false} OfWaiting(classes: Classes, keys: seq<FairnessKey>, k: FairnessKey)
    requires ClassesOk(classes)
    requires forall i :: 0 <= i < |keys| ==> keys[i] in classes
    requires forall i, j :: 0 <= i < j < |keys| ==> keys[i] != keys[j]
    ensures Of(k, Waiting(classes, keys)) == if k in keys then classes[k].queue else []
    decreases |keys|
  {
    hide Of;
    if keys == [] {
      OfClass(k, k, []);
    } else {
      var q, rest := classes[keys[0]].queue, Waiting(classes, keys[1..]);
      OfConcat(k, q, rest);
      OfClass(k, keys[0], q);
      OfWaiting(classes, keys[1..], k);
      assert k in keys <==> k == keys[0] || k in keys[1..] by {
        assert keys == [keys[0]] + keys[1..];
      }
      assert q + [] == q && forall s: seq<Request> :: [] + s == s;
    }
  }

  /** Draining leaves every history as it was. */
  lemma DrainHistory(s: Sched, keys: seq<FairnessKey>, k: FairnessKey)
    requires Valid(s) && Lists(keys, s.classes) && forall i :: 0 <= i < |keys| ==> keys[i] in s.classes
    ensures Of(k, s.log + Waiting(s.classes, keys)) == History(s, k)
  {
    hide Of, Waiting;
    ListsOnce(keys, s.classes);
    OfConcat(k, s.log, Waiting(s.classes, keys));
    OfWaiting(s.classes, keys, k);
    assert k in keys <==> k in s.classes;
  }

  /** What class `k` has received and what it has been granted or waits for, before and after. */
  lemma StepHistory(l: Limiter, step: Step, k: FairnessKey)
    requires Valid(l.sched) && Enabled(l, step)
    ensures var l' := Next(l, step);
      var arrived := if step.Receive? && step.request.key == k then [step.request] else [];
      && Valid(l'.sched) && l.sched.log <= l'.sched.log
      && Of(k, l'.received) == Of(k, l.received) + arrived
      && History(l'.sched, k) ==
        if step.Receive? && l.ceiling == 0 then Of(k, l.sched.log) + arrived + Queue(l.sched, k)
        else History(l.sched, k) + arrived
  {
    hide Of, Serve, Waiting, Backlog, Bytes;
    var s := l.sched;
    assert History(s, k) + [] == History(s, k) && Of(k, l.received) + [] == Of(k, l.received);
    match step
    case Acquire(_, _) =>
      assert Next(l, step).sched.order == s.order && Next(l, step).sched.classes == s.classes;
    case Refund(_) =>
      assert Next(l, step).sched.order == s.order && Next(l, step).sched.classes == s.classes;
    case SetCeiling(_) =>
    case Tick(keys) =>
      if l.ceiling == 0 {
        DrainHistory(s, keys, k);
        assert Of(k, s.log + Waiting(s.classes, keys)) + [] == Of(k, s.log + Waiting(s.classes, keys));
        EmptyIsValid(s.tokens, s.log + Waiting(s.classes, keys));
      } else {
        var u := Refilled(s, l.ceiling);
        assert Valid(u) && History(u, k) == History(s, k);
        ServeTheorem(u, BurstCapacity(l.ceiling));
      }
    case Receive(r) =>
      OfAppend(k, r.key, l.received, [r]);
      if l.ceiling == 0 {
        OfAppend(k, r.key, s.log, [r]);
      } else {
        EnqueuedTheorem(s, r);
        ServeTheorem(Enqueued(s, r), BurstCapacity(l.ceiling));
      }
  }

  lemma EmptyIsValid(tokens: nat, log: seq<Request>)
    ensures Valid(Sched(tokens, map[], [], log))
  {
  }

  lemma StepAccounted(l: Limiter, step: Step)
    requires Accounted(l) && Enabled(l, step)
    ensures Accounted(Next(l, step))
  {
    hide Next, History, Valid, Of;
    var l' := Next(l, step);
    StepHistory(l, step, Default);
    forall k ensures multiset(Of(k, l'.received)) == multiset(History(l'.sched, k)) {
      StepHistory(l, step, k);
      HistorySplit(l.sched, k);
    }
  }

  lemma HistorySplit(s: Sched, k: FairnessKey)
    ensures History(s, k) == Of(k, s.log) + Queue(s, k)
  {
  }

  lemma {:induction false} RunAccounted(states: seq<Limiter>, steps: seq<Step>, n: nat)
    requires IsRun(states, steps) && states[0] == Initial(states[0].ceiling) && n <= |steps|
    ensures Accounted(states[n])
  {
    hide Accounted, Next, Enabled;
    if n == 0 {
      InitialAccounted(states[0].ceiling);
    } else {
      RunAccounted(states, steps, n - 1);
      StepAccounted(states[n - 1], steps[n - 1]);
    }
  }

  lemma InitialAccounted(ceiling: nat)
    ensures Accounted(Initial(ceiling))
  {
    forall k ensures Of(k, []) == History(Initial(ceiling).sched, k) {
    }
  }

  lemma {:induction false} OfCount(r: Request, log: seq<Request>)
    ensures multiset(Of(r.key, log))[r] == multiset(log)[r]
  {
    if log != [] {
      var n := |log| - 1;
      var init, last := log[..n], [log[n]];
      OfCount(r, init);
      assert multiset(log) == multiset(init) + multiset(last) by {
        assert log == init + last;
      }
      assert Of(r.key, log) == if log[n].key == r.key then Of(r.key, init) + last else Of(r.key, init);
    }
  }

  /** In every reachable state the rotation names every waiting class once, every class in the
      map has a waiter, and each request received is granted or queued, exactly once: whatever
      the ceiling does meanwhile. */
  lemma EveryRequestIsGrantedOrQueued(states: seq<Limiter>, steps: seq<Step>, n: nat, r: Request)
    requires IsRun(states, steps) && states[0] == Initial(states[0].ceiling) && n <= |steps|
    ensures Valid(states[n].sched)
    ensures var l := states[n];
      multiset(l.received)[r] == multiset(l.sched.log)[r] + multiset(Queue(l.sched, r.key))[r]
  {
    hide Of, Queue;
    RunAccounted(states, steps, n);
    var l := states[n];
    OfCount(r, l.received);
    OfCount(r, l.sched.log);
    HistorySplit(l.sched, r.key);
  }

  // ---- A disabled limiter ----

  /** A disabled tick releases every waiter without tokens and counts each as a fail-open event. */
  lemma DisabledTickReleasesAll(l: Limiter, keys: seq<FairnessKey>)
    requires Valid(l.sched) && l.ceiling == 0 && Enabled(l, Tick(keys))
    ensures var l' := Next(l, Tick(keys));
      && l'.sched.classes == map[] && l'.sched.order == [] && l'.sched.tokens == l.sched.tokens
      && l'.failopen - l.failopen == |l'.sched.log| - |l.sched.log|
      && forall k :: Of(k, l'.sched.log) == History(l.sched, k)
  {
    hide Of, Waiting, History;
    forall k ensures Of(k, Next(l, Tick(keys)).sched.log) == History(l.sched, k) {
      DrainHistory(l.sched, keys, k);
    }
  }

  /** A request that arrives at a disabled limiter is granted at once and takes no tokens. */
  lemma DisabledGrantsAtOnce(l: Limiter, r: Request)
    requires l.ceiling == 0
    ensures Next(l, Receive(r)).sched == l.sched.(log := l.sched.log + [r])
  {
  }

  /** The requests released by the disabled ticks of a run. */
  ghost function Released(states: seq<Limiter>, steps: seq<Step>): int
    requires |states| == |steps| + 1
    decreases |steps|
  {
    if steps == [] then 0
    else
      var n := |steps| - 1;
      Released(states[..n + 1], steps[..n]) +
      if steps[n].Tick? && states[n].ceiling == 0 then |states[n + 1].sched.log| - |states[n].sched.log| else 0
  }

  /** The fail-open counter counts exactly the requests so released. */
  lemma {:induction false} FailOpenCounts(states: seq<Limiter>, steps: seq<Step>)
    requires IsRun(states, steps)
    ensures states[|steps|].failopen == states[0].failopen + Released(states, steps)
    decreases |steps|
  {
    hide Serve, Enqueued, Refilled, Waiting, Lists;
    if steps != [] {
      var n := |steps| - 1;
      FailOpenCounts(states[..n + 1], steps[..n]);
      StepFailOpen(states[n], steps[n]);
    }
  }

  lemma StepFailOpen(l: Limiter, step: Step)
    requires Enabled(l, step)
    ensures Next(l, step).failopen == l.failopen +
      if step.Tick? && l.ceiling == 0 then |Next(l, step).sched.log| - |l.sched.log| else 0
  {
    hide Serve, Waiting;
  }

  // ---- Order within a class ----

  /** Class `k` has been granted a prefix of what it received, and waits for the rest in order. */
  ghost predicate InOrder(l: Limiter, k: FairnessKey) { Of(k, l.received) == History(l.sched, k) }

  /** A request that is granted past the waiters of its own class. */
  ghost predicate Overtakes(l: Limiter, step: Step, k: FairnessKey) {
    step.Receive? && l.ceiling == 0 && step.request.key == k && Queue(l.sched, k) != []
  }

  /** A grant that is out of order for good. */
  ghost predicate Broken(l: Limiter, k: FairnessKey) {
    var granted, received := Of(k, l.sched.log), Of(k, l.received);
    exists i :: 0 <= i < |granted| && i < |received| && granted[i] != received[i]
  }

  lemma {:induction false} OfMember(k: FairnessKey, log: seq<Request>, r: Request)
    requires r in Of(k, log)
    ensures r in log
  {
    var n := |log| - 1;
    if r in Of(k, log[..n]) {
      OfMember(k, log[..n], r);
    }
  }

  lemma {:induction false} OfGrows(k: FairnessKey, a: seq<Request>, b: seq<Request>)
    requires a <= b
    ensures Of(k, a) <= Of(k, b)
  {
    OfConcat(k, a, b[|a|..]);
    assert b == a + b[|a|..];
  }

  lemma StepOrder(l: Limiter, step: Step, k: FairnessKey)
    requires Valid(l.sched) && Enabled(l, step)
    requires step.Receive? ==> step.request !in l.received
    ensures Broken(l, k) ==> Broken(Next(l, step), k)
    ensures InOrder(l, k) && !Overtakes(l, step, k) ==> InOrder(Next(l, step), k)
    ensures InOrder(l, k) && Overtakes(l, step, k) ==> Broken(Next(l, step), k)
  {
    hide Next, Of, Valid, Enabled;
    var l' := Next(l, step);
    StepHistory(l, step, k);
    OfGrows(k, l.sched.log, l'.sched.log);
    var granted, queue := Of(k, l.sched.log), Queue(l.sched, k);
    if Broken(l, k) {
      var i :| 0 <= i < |granted| && i < |Of(k, l.received)| && granted[i] != Of(k, l.received)[i];
      assert Of(k, l'.sched.log)[i] != Of(k, l'.received)[i];
    }
    if InOrder(l, k) && Overtakes(l, step, k) {
      OvertakenLog(l, step);
      assert queue[0] == Of(k, l.received)[|granted|];
      OfMember(k, l.received, queue[0]);
      assert Of(k, l'.sched.log)[|granted|] == step.request != queue[0] == Of(k, l'.received)[|granted|];
    } else if InOrder(l, k) && step.Receive? && l.ceiling == 0 {
      assert step.request.key == k ==> queue == [];
      assert granted + [] + queue == granted + queue && granted + queue + [] == granted + queue;
    }
  }

  lemma OvertakenLog(l: Limiter, step: Step)
    requires step.Receive? && l.ceiling == 0
    ensures Of(step.request.key, Next(l, step).sched.log) == Of(step.request.key, l.sched.log) + [step.request]
  {
    OfAppend(step.request.key, step.request.key, l.sched.log, [step.request]);
  }

  lemma BrokenIsNotInOrder(l: Limiter, k: FairnessKey)
    requires Broken(l, k)
    ensures !InOrder(l, k)
  {
    var i :| 0 <= i < |Of(k, l.sched.log)| && i < |Of(k, l.received)| && Of(k, l.sched.log)[i] != Of(k, l.received)[i];
    assert History(l.sched, k)[i] == Of(k, l.sched.log)[i];
  }

  ghost predicate AllFresh(states: seq<Limiter>, steps: seq<Step>)
    requires IsRun(states, steps)
  {
    forall i :: 0 <= i < |steps| && steps[i].Receive? ==> steps[i].request !in states[i].received
  }

  /** Grants keep arrival order within a class, over a whole run, exactly when no request of that
      class arrived at a disabled limiter while others of the class still waited. */
  lemma {:induction false} ArrivalOrderIff(states: seq<Limiter>, steps: seq<Step>, n: nat, k: FairnessKey)
    requires IsRun(states, steps) && states[0] == Initial(states[0].ceiling) && n <= |steps|
    requires AllFresh(states, steps)
    ensures InOrder(states[n], k) <==> forall i :: 0 <= i < n ==> !Overtakes(states[i], steps[i], k)
    ensures InOrder(states[n], k) || Broken(states[n], k)
  {
    hide Next, Enabled, InOrder, Broken, Overtakes;
    if n == 0 {
      InitialInOrder(states[0].ceiling, k);
    } else {
      ArrivalOrderIff(states, steps, n - 1, k);
      RunAccounted(states, steps, n - 1);
      StepOrder(states[n - 1], steps[n - 1], k);
      if Broken(states[n], k) {
        BrokenIsNotInOrder(states[n], k);
      }
      if Broken(states[n - 1], k) {
        BrokenIsNotInOrder(states[n - 1], k);
      }
    }
  }

  lemma InitialInOrder(ceiling: nat, k: FairnessKey)
    ensures InOrder(Initial(ceiling), k)
  {
  }

  // ---- The rate bound ----

  /** A run during which the limiter is never disabled. */
  ghost predicate Metered(states: seq<Limiter>, steps: seq<Step>) {
    IsRun(states, steps) && forall i :: 0 <= i < |states| ==> states[i].ceiling != 0
  }

  /** A run at one non-zero ceiling. */
  ghost predicate Steady(states: seq<Limiter>, steps: seq<Step>) {
    IsRun(states, steps) && states[0].ceiling != 0 && forall i :: 0 <= i < |steps| ==> !steps[i].SetCeiling?
  }

  function Ticks(steps: seq<Step>): nat {
    if steps == [] then 0 else Ticks(steps[..|steps| - 1]) + if steps[|steps| - 1].Tick? then 1 else 0
  }

  /** The refills of a run, each at the ceiling of its own tick. */
  function Refills(states: seq<Limiter>, steps: seq<Step>): nat
    requires |states| == |steps| + 1
    decreases |steps|
  {
    if steps == [] then 0
    else
      var n := |steps| - 1;
      Refills(states[..n + 1], steps[..n]) + if steps[n].Tick? then BurstCapacity(states[n].ceiling) else 0
  }

  /** Bytes granted by both paths. */
  function Granted(l: Limiter): nat { Bytes(l.sched.log) + l.fast }

  ghost predicate CappedWhenIdle(l: Limiter) {
    l.sched.classes == map[] ==> l.sched.tokens <= BurstCapacity(l.ceiling)
  }

  lemma StepRate(l: Limiter, step: Step)
    requires Valid(l.sched) && Enabled(l, step) && l.ceiling != 0
    ensures var l' := Next(l, step);
      && l'.sched.tokens + Granted(l') + l.refunded <=
         l.sched.tokens + Granted(l) + l'.refunded + (if step.Tick? then BurstCapacity(l.ceiling) else 0)
      && (BurstCapacity(l.ceiling) == 0 ==> l'.sched.tokens + Granted(l') <= l.sched.tokens + Granted(l))
      && (!step.SetCeiling? ==> l'.ceiling == l.ceiling)
      && (step.Tick? || step.Receive? || (CappedWhenIdle(l) && !step.SetCeiling?) ==> CappedWhenIdle(l'))
  {
    hide Serve, Valid, Bytes, History, Backlog, Credited, Blocked;
    match step
    case Acquire(_, _) =>
    case Refund(_) =>
    case SetCeiling(_) =>
    case Tick(_) =>
      var u := Refilled(l.sched, l.ceiling);
      RefilledValid(l.sched, l.ceiling);
      ServeTheorem(u, BurstCapacity(l.ceiling));
    case Receive(r) =>
      EnqueuedTheorem(l.sched, r);
      ServeTheorem(Enqueued(l.sched, r), BurstCapacity(l.ceiling));
  }

  lemma RefilledValid(s: Sched, ceiling: nat)
    requires Valid(s)
    ensures Valid(Refilled(s, ceiling))
    ensures s.classes != map[] <==> Pending(s)
  {
    if s.classes != map[] {
      var k :| k in s.classes;
      assert s.classes[k].queue != [];
    }
  }

  /** Over every run that is never disabled, whatever the ceilings, the bytes granted by both
      paths, less those handed back, never exceed the tokens at the start plus the refill of every
      tick; and right after the scheduler runs, the bucket is within its capacity if nobody waits. */
  lemma {:induction false} RateBound(states: seq<Limiter>, steps: seq<Step>)
    requires Metered(states, steps) && Valid(states[0].sched)
    ensures var l, l' := states[0], states[|steps|];
      && Valid(l'.sched)
      && l'.sched.tokens + (Granted(l') - Granted(l)) - (l'.refunded - l.refunded) <=
         l.sched.tokens + Refills(states, steps)
      && (steps != [] && (steps[|steps| - 1].Tick? || steps[|steps| - 1].Receive?) ==> CappedWhenIdle(l'))
    decreases |steps|
  {
    hide Next, Valid, Granted, CappedWhenIdle, Enabled, BurstCapacity;
    if steps != [] {
      var n := |steps| - 1;
      RateBound(states[..n + 1], steps[..n]);
      StepRate(states[n], steps[n]);
      StepHistory(states[n], steps[n], Default);
    }
  }

  /** Whether the scheduler has run. */
  predicate Scheduled(steps: seq<Step>) {
    if steps == [] then false
    else steps[|steps| - 1].Tick? || steps[|steps| - 1].Receive? || Scheduled(steps[..|steps| - 1])
  }

  lemma {:induction false} SteadyIsMetered(states: seq<Limiter>, steps: seq<Step>, n: nat)
    requires Steady(states, steps) && n <= |steps|
    ensures states[n].ceiling == states[0].ceiling
  {
    hide Serve, Enqueued, Refilled, Waiting;
    if n > 0 {
      SteadyIsMetered(states, steps, n - 1);
    }
  }

  lemma {:induction false} SteadyRefills(states: seq<Limiter>, steps: seq<Step>, ceiling: nat)
    requires |states| == |steps| + 1 && forall i :: 0 <= i < |states| ==> states[i].ceiling == ceiling
    ensures Refills(states, steps) == Ticks(steps) * BurstCapacity(ceiling)
    decreases |steps|
  {
    hide BurstCapacity;
    if steps != [] {
      var n, cap := |steps| - 1, BurstCapacity(ceiling);
      SteadyRefills(states[..n + 1], steps[..n], ceiling);
      assert (Ticks(steps[..n]) + 1) * cap == Ticks(steps[..n]) * cap + cap;
    }
  }

  lemma {:induction false} SteadyCap(states: seq<Limiter>, steps: seq<Step>)
    requires Steady(states, steps) && Valid(states[0].sched)
    ensures Valid(states[|steps|].sched)
    ensures CappedWhenIdle(states[0]) || Scheduled(steps) ==> CappedWhenIdle(states[|steps|])
    decreases |steps|
  {
    hide Next, Valid, Granted, CappedWhenIdle, Enabled, BurstCapacity;
    if steps != [] {
      var n := |steps| - 1;
      SteadyCap(states[..n + 1], steps[..n]);
      SteadyIsMetered(states, steps, n);
      StepRate(states[n], steps[n]);
      StepHistory(states[n], steps[n], Default);
    }
  }

  lemma SteadyRun(states: seq<Limiter>, steps: seq<Step>)
    requires Steady(states, steps) && Valid(states[0].sched)
    ensures Metered(states, steps) && Valid(states[|steps|].sched) && states[|steps|].ceiling == states[0].ceiling
    ensures Refills(states, steps) == Ticks(steps) * BurstCapacity(states[0].ceiling)
    ensures CappedWhenIdle(states[0]) || Scheduled(steps) ==> CappedWhenIdle(states[|steps|])
  {
    hide Next, Enabled, Valid, CappedWhenIdle, Refills, Ticks, Scheduled, BurstCapacity;
    forall i | 0 <= i < |states| ensures states[i].ceiling == states[0].ceiling {
      SteadyIsMetered(states, steps, i);
    }
    SteadyRefills(states, steps, states[0].ceiling);
    SteadyCap(states, steps);
  }

  /** At one ceiling the refills are a tenth of it per tick, and once the scheduler has run the
      bucket stays within its capacity whenever nobody waits. */
  lemma RateBoundAtOneCeiling(states: seq<Limiter>, steps: seq<Step>)
    requires Steady(states, steps) && Valid(states[0].sched)
    ensures var l, l' := states[0], states[|steps|];
      && (Granted(l') - Granted(l)) - (l'.refunded - l.refunded) <=
         l.sched.tokens + Ticks(steps) * BurstCapacity(l.ceiling)
      && (Scheduled(steps) && l'.sched.classes == map[] ==> l'.sched.tokens <= BurstCapacity(l.ceiling))
  {
    hide Valid, Granted, Refills, Scheduled, Ticks;
    SteadyRun(states, steps);
    RateBound(states, steps);
  }

  /** The rate in bytes: ten times the bytes granted, less those handed back, is at most ten times
      the tokens at the start plus the ceiling per tick, and the refills fall short of that by less
      than one byte per tick. */
  lemma RateInBytes(states: seq<Limiter>, steps: seq<Step>)
    requires Steady(states, steps) && Valid(states[0].sched)
    ensures var l, l', n := states[0], states[|steps|], Ticks(steps);
      && 10 * ((Granted(l') - Granted(l)) - (l'.refunded - l.refunded)) <= 10 * l.sched.tokens + n * l.ceiling
      && n * l.ceiling - 9 * n <= 10 * Refills(states, steps) <= n * l.ceiling
  {
    hide Valid, Granted, Refills, Scheduled, Ticks, BurstCapacity;
    SteadyRun(states, steps);
    RateBound(states, steps);
    TenthTimes(states[0].ceiling, Ticks(steps));
  }

  lemma TenthTimes(ceiling: nat, n: nat)
    ensures n * ceiling - 9 * n <= 10 * (n * BurstCapacity(ceiling)) <= n * ceiling
  {
    var tenth, rest := BurstCapacity(ceiling), ceiling - 10 * BurstCapacity(ceiling);
    assert 0 <= rest <= 9;
    assert 0 <= n * rest <= 9 * n;
    assert n * ceiling == n * (10 * tenth + rest) == 10 * (n * tenth) + n * rest;
  }

  // ---- The counters fit ----

  /** Tokens and deficits are unsigned 64-bit numbers. */
  ghost predicate Fits(s: Sched) {
    s.tokens <= U64_MAX && forall k :: k in s.classes ==> s.classes[k].deficit <= U64_MAX
  }

  lemma ServeFits(s: Sched, cap: nat)
    requires Valid(s) && Fits(s)
    ensures Fits(Serve(s, cap))
  {
    hide Serve, Valid, Bytes, History, Backlog, Blocked;
    ServeTheorem(s, cap);
    BytesShrink(s, cap);
    forall k | k in Serve(s, cap).classes ensures Serve(s, cap).classes[k].deficit <= U64_MAX {
      assert Credited(s.classes[k], Serve(s, cap).classes[k]);
    }
  }

  lemma EnqueuedFits(s: Sched, r: Request)
    requires Fits(s)
    ensures Fits(Enqueued(s, r))
  {
  }

  lemma StepFits(l: Limiter, step: Step)
    requires Valid(l.sched) && Fits(l.sched) && Enabled(l, step) && l.ceiling <= U64_MAX
    ensures Fits(Next(l, step).sched)
  {
    hide Serve, Valid, Lists, Waiting;
    match step
    case Acquire(_, _) =>
    case Refund(_) =>
    case SetCeiling(_) =>
    case Tick(_) =>
      if l.ceiling != 0 {
        RefilledValid(l.sched, l.ceiling);
        ServeFits(Refilled(l.sched, l.ceiling), BurstCapacity(l.ceiling));
      }
    case Receive(r) =>
      if l.ceiling != 0 {
        EnqueuedTheorem(l.sched, r);
        EnqueuedFits(l.sched, r);
        ServeFits(Enqueued(l.sched, r), BurstCapacity(l.ceiling));
      }
  }

  /** Over every run whose ceilings are 64-bit numbers, no counter ever leaves that range. */
  lemma {:induction false} CountersFit(states: seq<Limiter>, steps: seq<Step>, n: nat)
    requires IsRun(states, steps) && states[0] == Initial(states[0].ceiling) && n <= |steps|
    requires forall i :: 0 <= i < |states| ==> states[i].ceiling <= U64_MAX
    ensures Valid(states[n].sched) && states[n].sched.tokens <= 0xFFFF_FFFF_FFFF_FFFF
    ensures forall k :: k in states[n].sched.classes ==> states[n].sched.classes[k].deficit <= 0xFFFF_FFFF_FFFF_FFFF
    ensures Fits(states[n].sched)
  {
    hide Next, Enabled, Valid;
    if n == 0 {
      EmptyIsValid(BurstCapacity(states[0].ceiling), []);
    } else {
      CountersFit(states, steps, n - 1);
      StepFits(states[n - 1], steps[n - 1]);
      StepHistory(states[n - 1], steps[n - 1], Default);
    }
  }

  // ---- A bucket nobody waits on ----

  /** Exactly a tenth of a second of the ceiling is in the bucket, and nobody waits. */
  ghost predicate FullAndIdle(l: Limiter) {
    && l.sched.classes == map[] && l.sched.order == []
    && 10 * l.sched.tokens <= l.ceiling < 10 * l.sched.tokens + 10
  }

  /** A new limiter is full. */
  lemma NewIsFull(ceiling: nat)
    ensures FullAndIdle(Initial(ceiling))
  {
  }

  /** A tick with nobody waiting fills the bucket, whatever was left in it and whatever the
      ceiling was before. */
  lemma IdleTickFills(l: Limiter, keys: seq<FairnessKey>)
    requires 0 < l.ceiling <= U64_MAX && l.sched.classes == map[] && l.sched.order == []
    ensures FullAndIdle(Next(l, Tick(keys)))
  {
    assert Serve(Refilled(l.sched, l.ceiling), BurstCapacity(l.ceiling)) == Refilled(l.sched, l.ceiling);
  }

  /** A new ceiling takes effect with the next tick. */
  lemma NewCeilingTakesEffect(l: Limiter, bps: nat, keys: seq<FairnessKey>)
    requires 0 < bps <= U64_MAX && l.sched.classes == map[] && l.sched.order == []
    ensures var l' := Next(Next(l, SetCeiling(bps)), Tick(keys));
      l'.ceiling == bps && 10 * l'.sched.tokens <= bps < 10 * l'.sched.tokens + 10
  {
    IdleTickFills(Next(l, SetCeiling(bps)), keys);
  }

  predicate LeavesBucket(step: Step) { step.Tick? || step.Refund? }

  /** It stays full until somebody acquires, arrives or changes the ceiling; and any acquire of up
      to that much then succeeds, with all that was desired or all there is. */
  lemma {:induction false} FullUntilUsed(states: seq<Limiter>, steps: seq<Step>, minBytes: nat, desired: nat)
    requires IsRun(states, steps) && FullAndIdle(states[0]) && 0 < states[0].ceiling <= U64_MAX
    requires forall i :: 0 <= i < |steps| ==> LeavesBucket(steps[i])
    ensures var l := states[|steps|];
      && FullAndIdle(l) && l.ceiling == states[0].ceiling
      && (minBytes <= l.ceiling / 10 ==>
        FastGrant(l.ceiling, l.sched.tokens, minBytes, desired) == (true, Min(l.ceiling / 10, desired)))
    decreases |steps|
  {
    if steps != [] {
      var n := |steps| - 1;
      FullUntilUsed(states[..n + 1], steps[..n], minBytes, desired);
      FullStep(states[n], steps[n]);
    }
  }

  lemma FullStep(l: Limiter, step: Step)
    requires FullAndIdle(l) && 0 < l.ceiling <= U64_MAX && LeavesBucket(step) && Enabled(l, step)
    ensures FullAndIdle(Next(l, step)) && Next(l, step).ceiling == l.ceiling
  {
    if step.Tick? {
      IdleTickFills(l, step.drained);
    }
  }

  /** While every ceiling is below ten bytes a second nothing is ever added to what the bucket
      holds and has granted: a refill adds nothing, and a refund empties the bucket. */
  lemma {:induction false} TinyCeilingNeverRefills(states: seq<Limiter>, steps: seq<Step>)
    requires Metered(states, steps) && Valid(states[0].sched)
    requires forall i :: 0 <= i < |steps| ==> states[i].ceiling < 10
    ensures Valid(states[|steps|].sched)
    ensures states[|steps|].sched.tokens + Granted(states[|steps|]) <= states[0].sched.tokens + Granted(states[0])
    decreases |steps|
  {
    hide Next, Valid, Granted, CappedWhenIdle, Enabled;
    if steps != [] {
      var n := |steps| - 1;
      TinyCeilingNeverRefills(states[..n + 1], steps[..n]);
      StepRate(states[n], steps[n]);
      StepHistory(states[n], steps[n], Default);
    }
  }

  /** Handing bytes back to an enabled limiter adds exactly those bytes, if they fit. */
  lemma RefundAdds(l: Limiter, bytes: nat)
    requires l.ceiling != 0 && BurstCapacity(l.ceiling) <= U64_MAX
    ensures l.sched.tokens + bytes <= l.ceiling / 10 ==>
      AfterRefund(l, bytes).sched == l.sched.(tokens := l.sched.tokens + bytes)
    ensures bytes > 0 && l.sched.tokens + bytes > l.ceiling / 10 ==>
      AfterRefund(l, bytes).sched == l.sched.(tokens := l.ceiling / 10)
  {
  }

  /** Acquiring and handing the whole grant back leaves the bucket as it was exactly when it was
      within its capacity or nothing was granted. */
  lemma RefundUndoesAcquireIff(l: Limiter, minBytes: nat, desired: nat)
    requires l.ceiling != 0 && l.sched.tokens <= U64_MAX
    ensures var taken := AfterAcquire(l, minBytes, desired);
      AfterRefund(taken, taken.fast - l.fast).sched == l.sched <==>
        l.sched.tokens <= l.ceiling / 10 || taken.fast == l.fast
  {
  }

  /** Handing bytes back lowers the bucket exactly when it held more than its capacity. */
  lemma RefundTakesTokensIff(l: Limiter, bytes: nat)
    requires l.sched.tokens <= U64_MAX
    ensures AfterRefund(l, bytes).sched.tokens < l.sched.tokens <==>
      bytes > 0 && l.ceiling != 0 && l.sched.tokens > BurstCapacity(l.ceiling)
  {
  }

  /** Whether a tick has filled the bucket since bytes were last handed back. */
  predicate Charged(steps: seq<Step>) {
    if steps == [] then false
    else
      var last := steps[|steps| - 1];
      last.Tick? || (!(last.Refund? && last.bytes > 0) && Charged(steps[..|steps| - 1]))
  }

  lemma ServeBudget(s: Sched, cap: nat)
    requires Valid(s)
    ensures var t := Serve(s, cap);
      s.log <= t.log && Bytes(t.log[|s.log|..]) <= s.tokens && t.tokens <= s.tokens
  {
    hide Serve, Valid, Bytes, History, Backlog, Credited, Blocked;
    ServeTheorem(s, cap);
    var t := Serve(s, cap);
    BytesConcat(s.log, t.log[|s.log|..]);
    assert t.log == s.log + t.log[|s.log|..];
  }

  /** A step grants no more than the tokens it finds and the refill it brings. */
  lemma StepBudget(l: Limiter, step: Step)
    requires Valid(l.sched) && Enabled(l, step) && l.ceiling != 0
    ensures var l', cap := Next(l, step), BurstCapacity(l.ceiling);
      var budget := l.sched.tokens + if step.Tick? then cap else 0;
      && l.sched.log <= l'.sched.log && Bytes(l'.sched.log[|l.sched.log|..]) <= budget
      && l'.sched.tokens <= if step.Refund? && step.bytes > 0 then cap else budget
  {
    hide Serve, Valid, Bytes;
    assert l.sched.log[|l.sched.log|..] == [];
    NoBytes();
    match step
    case Acquire(_, _) =>
    case Refund(_) =>
    case SetCeiling(_) =>
    case Tick(_) =>
      RefilledValid(l.sched, l.ceiling);
      ServeBudget(Refilled(l.sched, l.ceiling), BurstCapacity(l.ceiling));
    case Receive(r) =>
      EnqueuedTheorem(l.sched, r);
      ServeBudget(Enqueued(l.sched, r), BurstCapacity(l.ceiling));
  }

  ghost predicate AllWithin(log: seq<Request>, bytes: nat) {
    forall i :: 0 <= i < |log| ==> log[i].bytes <= bytes
  }

  lemma WithinBudget(log: seq<Request>, budget: nat)
    requires Bytes(log) <= budget
    ensures AllWithin(log, budget)
  {
    forall i | 0 <= i < |log| ensures log[i].bytes <= budget {
      MemberBytes(log, log[i]);
    }
  }

  lemma MemberBytes(log: seq<Request>, r: Request)
    requires r in log
    ensures r.bytes <= Bytes(log)
  {
    var i :| 0 <= i < |log| && log[i] == r;
    BytesConcat(log[..i], log[i..]);
    assert log == log[..i] + log[i..];
    HeadWithin(log[i..]);
  }

  lemma ChargedStep(steps: seq<Step>, n: nat)
    requires n < |steps|
    ensures Charged(steps[..n + 1]) <==>
      steps[n].Tick? || (!(steps[n].Refund? && steps[n].bytes > 0) && Charged(steps[..n]))
  {
    assert steps[..n + 1][..n] == steps[..n];
  }

  lemma WithinConcat(a: seq<Request>, b: seq<Request>, c: seq<Request>, bytes: nat)
    requires a <= b <= c && AllWithin(b[|a|..], bytes) && AllWithin(c[|b|..], bytes)
    ensures a <= c && AllWithin(c[|a|..], bytes)
  {
    assert c[|a|..] == b[|a|..] + c[|b|..];
  }

  /** What refunds cost the waiters. At one ceiling, when bytes are handed back between any two
      ticks, tokens never accumulate beyond one refill over the capacity, so no request of more
      than twice the capacity is ever granted. */
  lemma {:induction false} RefundsStarve(states: seq<Limiter>, steps: seq<Step>, n: nat)
    requires Steady(states, steps) && Valid(states[0].sched) && n <= |steps|
    requires states[0].sched.tokens <= BurstCapacity(states[0].ceiling)
    requires forall i :: 0 <= i < |steps| && steps[i].Tick? ==> !Charged(steps[..i])
    ensures var l, l', cap := states[0].sched, states[n].sched, BurstCapacity(states[0].ceiling);
      && Valid(l') && l'.tokens <= cap + (if Charged(steps[..n]) then cap else 0)
      && l.log <= l'.log && AllWithin(l'.log[|l.log|..], 2 * cap)
  {
    hide Next, Valid, Enabled, BurstCapacity, Charged, AllWithin;
    var a, cap := states[0].sched.log, BurstCapacity(states[0].ceiling);
    if n == 0 {
      assert a[|a|..] == [];
      NoBytes();
      WithinBudget([], 2 * cap);
    } else {
      RefundsStarve(states, steps, n - 1);
      SteadyIsMetered(states, steps, n - 1);
      ChargedStep(steps, n - 1);
      var l, step := states[n - 1], steps[n - 1];
      assert states[n] == Next(l, step);
      StepBudget(l, step);
      StepHistory(l, step, Default);
      WithinBudget(states[n].sched.log[|l.sched.log|..], 2 * cap);
      WithinConcat(a, l.sched.log, states[n].sched.log, 2 * cap);
    }
  }

  // ---- Credit ----

  function Passes(steps: seq<Step>): nat {
    if steps == [] then 0
    else Passes(steps[..|steps| - 1]) + if steps[|steps| - 1].Tick? || steps[|steps| - 1].Receive? then 1 else 0
  }

  /** Bytes the scheduler has granted to class `k`. */
  function GrantedTo(l: Limiter, k: FairnessKey): nat { Bytes(Of(k, l.sched.log)) }

  function Deficit(l: Limiter, k: FairnessKey): nat { if k in l.sched.classes then l.sched.classes[k].deficit else 0 }

  lemma ServeCredit(s: Sched, cap: nat, k: FairnessKey)
    requires Valid(s) && k in Serve(s, cap).classes
    ensures var t := Serve(s, cap);
      && k in s.classes
      && t.classes[k].deficit + Bytes(Of(k, t.log)) ==
         SaturatingAdd(s.classes[k].deficit, LEASE_QUANTUM) + Bytes(Of(k, s.log))
  {
    hide Serve, Valid, Bytes, Of, Backlog, Blocked;
    ServeTheorem(s, cap);
    var t := Serve(s, cap);
    BytesConcat(Of(k, t.log), Queue(t, k));
    BytesConcat(Of(k, s.log), Queue(s, k));
    assert History(t, k) == History(s, k);
  }

  /** Class `k` waits during a step: already before it, or because it arrives with it. */
  predicate WaitsAt(l: Limiter, step: Step, k: FairnessKey) {
    k in l.sched.classes || (step.Receive? && step.request.key == k)
  }

  lemma StepCredit(l: Limiter, step: Step, k: FairnessKey)
    requires Valid(l.sched) && Enabled(l, step) && l.ceiling != 0
    requires WaitsAt(l, step, k) && k in Next(l, step).sched.classes
    ensures var l' := Next(l, step);
      Deficit(l', k) + GrantedTo(l', k) ==
        GrantedTo(l, k) +
        if step.Tick? || step.Receive? then SaturatingAdd(Deficit(l, k), LEASE_QUANTUM) else Deficit(l, k)
  {
    hide Serve, Valid, Bytes, Of;
    match step
    case Acquire(_, _) =>
    case Refund(_) =>
    case SetCeiling(_) =>
    case Tick(_) =>
      RefilledValid(l.sched, l.ceiling);
      ServeCredit(Refilled(l.sched, l.ceiling), BurstCapacity(l.ceiling), k);
    case Receive(r) =>
      EnqueuedTheorem(l.sched, r);
      ServeCredit(Enqueued(l.sched, r), BurstCapacity(l.ceiling), k);
  }

  lemma ServeGrants(s: Sched, cap: nat, k: FairnessKey)
    requires Valid(s) && k in s.classes
    ensures Bytes(Of(k, Serve(s, cap).log)) <= Bytes(Of(k, s.log)) + SaturatingAdd(s.classes[k].deficit, LEASE_QUANTUM)
  {
    hide Pass, Of, Bytes, Ready, Valid, SaturatingAdd;
    ValidIsReady(s);
    OrderCovers(s);
    PassGrants(s.(order := []), s.order, cap, k);
  }

  lemma StepGrants(l: Limiter, step: Step, k: FairnessKey)
    requires Valid(l.sched) && Enabled(l, step) && l.ceiling != 0 && WaitsAt(l, step, k)
    ensures GrantedTo(Next(l, step), k) <=
      GrantedTo(l, k) + if step.Tick? || step.Receive? then SaturatingAdd(Deficit(l, k), LEASE_QUANTUM) else 0
  {
    hide Serve, Valid, Bytes, Of, SaturatingAdd;
    match step
    case Acquire(_, _) =>
    case Refund(_) =>
    case SetCeiling(_) =>
    case Tick(_) =>
      RefilledValid(l.sched, l.ceiling);
      ServeGrants(Refilled(l.sched, l.ceiling), BurstCapacity(l.ceiling), k);
    case Receive(r) =>
      EnqueuedTheorem(l.sched, r);
      ServeGrants(Enqueued(l.sched, r), BurstCapacity(l.ceiling), k);
  }

  /** The credit of a class after a step, as far as it waits. */
  lemma StepCreditBound(l: Limiter, step: Step, k: FairnessKey)
    requires Valid(l.sched) && Enabled(l, step) && l.ceiling != 0 && WaitsAt(l, step, k)
    ensures var l', quantum := Next(l, step), if step.Tick? || step.Receive? then LEASE_QUANTUM else 0;
      && GrantedTo(l, k) <= GrantedTo(l', k)
      && Deficit(l', k) + GrantedTo(l', k) <= GrantedTo(l, k) + Deficit(l, k) + quantum
      && (k in l'.sched.classes && Deficit(l, k) + quantum <= U64_MAX ==>
        Deficit(l', k) + GrantedTo(l', k) == GrantedTo(l, k) + Deficit(l, k) + quantum)
  {
    hide Next, Valid, Enabled, GrantedTo, WaitsAt;
    if k in Next(l, step).sched.classes {
      StepCredit(l, step, k);
    } else {
      StepGrants(l, step, k);
    }
    GrantsOnlyGrow(l, step, k);
  }

  /** Class `k` has been granted no more than its deficit at `l` and a quantum, one mebibyte, for
      each pass up to `l'`; exactly that, but for its deficit now, if it has `waited` throughout. */
  ghost predicate CreditHolds(l: Limiter, l': Limiter, k: FairnessKey, passes: nat, waited: bool) {
    var credit, granted := Deficit(l, k) + 1024 * 1024 * passes, GrantedTo(l', k) - GrantedTo(l, k);
    && 0 <= granted && Deficit(l', k) + granted <= credit
    && (waited && credit <= U64_MAX ==> Deficit(l', k) + granted == credit)
  }

  lemma PassesStep(steps: seq<Step>, n: nat)
    requires n < |steps|
    ensures Passes(steps[..n + 1]) == Passes(steps[..n]) + if steps[n].Tick? || steps[n].Receive? then 1 else 0
  {
    assert steps[..n + 1][..n] == steps[..n];
  }

  lemma NoPasses(l: Limiter, k: FairnessKey)
    ensures CreditHolds(l, l, k, 0, true)
  {
  }

  lemma CreditStep(start: Limiter, l: Limiter, step: Step, k: FairnessKey, passes: nat, waited: bool)
    requires Valid(l.sched) && Enabled(l, step) && l.ceiling != 0 && WaitsAt(l, step, k)
    requires CreditHolds(start, l, k, passes, waited)
    ensures CreditHolds(start, Next(l, step), k, passes + (if step.Tick? || step.Receive? then 1 else 0),
              waited && k in Next(l, step).sched.classes)
  {
    hide Next, Valid, Enabled, GrantedTo, WaitsAt, Deficit;
    StepCreditBound(l, step, k);
  }

  /** Whether class `k` waits after each of the first `n` steps. */
  ghost predicate WaitsAfter(states: seq<Limiter>, k: FairnessKey, n: nat)
    requires n < |states|
  {
    forall i :: 0 < i <= n ==> k in states[i].sched.classes
  }

  /** While a class waits at a limiter that is not disabled, whatever its ceilings, its deficit
      plus the bytes granted to it grows by one quantum in every pass and by nothing else, until
      the deficit saturates; a class that arrives starts from nothing. So over any stretch at each
      of whose steps it waits, the steps that start and empty it included, it is granted at most
      its starting deficit plus a quantum per pass. */
  lemma {:induction false} CreditOverRun(states: seq<Limiter>, steps: seq<Step>, k: FairnessKey, n: nat)
    requires Metered(states, steps) && Valid(states[0].sched) && n <= |steps|
    requires forall i :: 0 <= i < |steps| ==> WaitsAt(states[i], steps[i], k)
    ensures Valid(states[n].sched)
    ensures CreditHolds(states[0], states[n], k, Passes(steps[..n]), WaitsAfter(states, k, n))
  {
    hide Next, Valid, Enabled, WaitsAt, CreditHolds, Passes;
    if n == 0 {
      NoPasses(states[0], k);
      assert steps[..0] == [];
      assert Passes([]) == 0 by {
        PassesNone();
      }
    } else {
      CreditOverRun(states, steps, k, n - 1);
      var l, step := states[n - 1], steps[n - 1];
      assert states[n] == Next(l, step);
      StepHistory(l, step, k);
      PassesStep(steps, n - 1);
      CreditStep(states[0], l, step, k, Passes(steps[..n - 1]), WaitsAfter(states, k, n - 1));
    }
  }

  lemma PassesNone()
    ensures Passes([]) == 0
  {
  }

  lemma GrantsOnlyGrow(l: Limiter, step: Step, k: FairnessKey)
    requires Valid(l.sched) && Enabled(l, step)
    ensures GrantedTo(l, k) <= GrantedTo(Next(l, step), k)
  {
    hide Next, Of, Bytes, Valid;
    var l' := Next(l, step);
    StepHistory(l, step, k);
    OfGrows(k, l.sched.log, l'.sched.log);
    var a, b := Of(k, l.sched.log), Of(k, l'.sched.log);
    BytesConcat(a, b[|a|..]);
    assert b == a + b[|a|..];
  }

  // ---- Draining a backlog ----

  /** The scheduler after `n` refill ticks in a row. */
  function AfterTicks(s: Sched, ceiling: nat, n: nat): Sched {
    if n == 0 then s
    else Serve(Refilled(AfterTicks(s, ceiling, n - 1), ceiling), BurstCapacity(ceiling))
  }

  /** `AfterTicks` is a run of the limiter. */
  lemma {:induction false} TicksAreSteps(l: Limiter, n: nat) returns (states: seq<Limiter>, steps: seq<Step>)
    requires l.ceiling != 0
    ensures Steady(states, steps) && |steps| == n && states[0] == l && (forall i :: 0 <= i < n ==> steps[i] == Tick([]))
    ensures states[n] == l.(sched := AfterTicks(l.sched, l.ceiling, n))
  {
    hide Serve, Refilled, BurstCapacity;
    if n == 0 {
      states, steps := [l], [];
    } else {
      var before, ticks := TicksAreSteps(l, n - 1);
      var last := Next(before[n - 1], Tick([]));
      states, steps := before + [last], ticks + [Tick([])];
      forall i | 0 <= i < n ensures Enabled(states[i], steps[i]) && states[i + 1] == Next(states[i], steps[i]) {
        assert i < n - 1 ==> states[i] == before[i] && states[i + 1] == before[i + 1] && steps[i] == ticks[i];
      }
    }
  }

  function Times(n: nat, x: nat): (p: nat)
    ensures p == n * x
  {
    if n == 0 then 0 else
      assert n * x == (n - 1) * x + x;
      Times(n - 1, x) + x
  }

  function Short(bytes: nat, supplied: nat): nat { if supplied < bytes then bytes - supplied else 0 }

  /** Tokens fall short of the backlog by no more than the refills still missing, and every
      waiting class's deficit falls short of its queue by no more than the quanta still missing. */
  ghost predicate Supplied(s: Sched, t: Sched, tokens: nat, quanta: nat) {
    t.classes != map[] ==>
      && Backlog(t) <= t.tokens + Short(Backlog(s), tokens)
      && Backlog(t) <= Backlog(s)
      && forall k :: k in t.classes ==>
        && k in s.classes
        && Bytes(t.classes[k].queue) <= t.classes[k].deficit + Short(Bytes(s.classes[k].queue), quanta)
        && Bytes(t.classes[k].queue) <= Bytes(s.classes[k].queue)
  }

  lemma QueueWithinBacklog(s: Sched, k: FairnessKey)
    requires k in s.classes
    ensures Bytes(s.classes[k].queue) <= Backlog(s)
  {
    BacklogSplit(s, k);
  }

  lemma BytesShrink(s: Sched, cap: nat)
    requires Valid(s)
    ensures var t := Serve(s, cap);
      && Bytes(s.log) <= Bytes(t.log)
      && forall k :: k in t.classes ==> k in s.classes && Bytes(t.classes[k].queue) <= Bytes(s.classes[k].queue)
  {
    hide Serve, Valid, Bytes, Of, Backlog, Blocked;
    ServeTheorem(s, cap);
    var t := Serve(s, cap);
    BytesConcat(s.log, t.log[|s.log|..]);
    assert t.log == s.log + t.log[|s.log|..];
    forall k | k in t.classes ensures Bytes(t.classes[k].queue) <= Bytes(s.classes[k].queue) {
      assert History(t, k) == History(s, k);
      OfGrows(k, s.log, t.log);
      SuffixBytes(Of(k, s.log), s.classes[k].queue, Of(k, t.log), t.classes[k].queue);
    }
  }

  lemma SuffixBytes(a: seq<Request>, q: seq<Request>, b: seq<Request>, r: seq<Request>)
    requires a + q == b + r && a <= b
    ensures Bytes(r) <= Bytes(q)
  {
    var more := b[|a|..];
    assert b == a + more;
    assert q == (a + q)[|a|..] == (b + r)[|a|..] == more + r;
    BytesConcat(more, r);
  }

  lemma TickSupplies(s: Sched, t: Sched, ceiling: nat, tokens: nat, quanta: nat)
    requires Valid(t) && Supplied(s, t, tokens, quanta) && Backlog(s) <= U64_MAX
    ensures var cap := BurstCapacity(ceiling);
      Supplied(s, Serve(Refilled(t, ceiling), cap), tokens + cap, quanta + LEASE_QUANTUM)
  {
    hide Serve, Valid, Bytes, Backlog, Blocked, History;
    var cap, u := BurstCapacity(ceiling), Refilled(t, ceiling);
    var v := Serve(u, cap);
    RefilledValid(t, ceiling);
    ServeTheorem(u, cap);
    BytesShrink(u, cap);
    SameBacklog(u, t);
    if v.classes != map[] {
      var j :| j in v.classes;
      assert j in t.classes;
      assert u.tokens == SaturatingAdd(t.tokens, cap);
      forall k | k in v.classes
        ensures k in s.classes
        ensures var left, queued := Bytes(v.classes[k].queue), Bytes(s.classes[k].queue);
          left <= v.classes[k].deficit + Short(queued, quanta + LEASE_QUANTUM) && left <= queued
      {
        QueueWithinBacklog(t, k);
        assert Credited(u.classes[k], v.classes[k]);
      }
    }
  }

  lemma {:induction false} TicksSupply(s: Sched, ceiling: nat, n: nat)
    requires Valid(s) && Backlog(s) <= U64_MAX
    ensures var t := AfterTicks(s, ceiling, n);
      Valid(t) && Supplied(s, t, Times(n, BurstCapacity(ceiling)), Times(n, LEASE_QUANTUM))
  {
    hide Serve, Valid, Supplied, Backlog, Refilled, BurstCapacity;
    if n == 0 {
      SuppliedAtStart(s);
    } else {
      TicksSupply(s, ceiling, n - 1);
      var t, cap := AfterTicks(s, ceiling, n - 1), BurstCapacity(ceiling);
      TickSupplies(s, t, ceiling, Times(n - 1, cap), Times(n - 1, LEASE_QUANTUM));
      RefilledValid(t, ceiling);
      ServeTheorem(Refilled(t, ceiling), cap);
    }
  }

  lemma SuppliedAtStart(s: Sched)
    ensures Supplied(s, s, 0, 0)
  {
  }

  lemma HeadWithin(q: seq<Request>)
    requires q != []
    ensures q[0].bytes <= Bytes(q)
  {
  }

  ghost predicate AllPositive(s: Sched) { forall k :: k in s.classes ==> Positive(s.classes[k].queue) }

  /** Ticks leave every class with a suffix of its queue, and grant only positive requests. */
  lemma {:induction false} TicksGrantPositive(s: Sched, ceiling: nat, n: nat)
    requires Valid(s)
    ensures var t := AfterTicks(s, ceiling, n);
      && Valid(t) && s.log <= t.log && Positive(t.log[|s.log|..])
      && forall k :: History(t, k) == History(s, k)
  {
    hide Serve, Valid, History, Backlog, Bytes, Credited, Blocked;
    if n > 0 {
      TicksGrantPositive(s, ceiling, n - 1);
      var t := AfterTicks(s, ceiling, n - 1);
      var u := Refilled(t, ceiling);
      var v := Serve(u, BurstCapacity(ceiling));
      RefilledValid(t, ceiling);
      ServeTheorem(u, BurstCapacity(ceiling));
      assert v.log[|s.log|..] == t.log[|s.log|..] + v.log[|t.log|..];
      forall k ensures History(v, k) == History(s, k) {
        SameHistory(u, t, k);
      }
    }
  }

  /** A zero-byte request is never granted, so its class waits for ever. */
  lemma ZeroByteRequestStays(s: Sched, ceiling: nat, n: nat, k: FairnessKey, r: Request)
    requires Valid(s) && r in Queue(s, k) && r.bytes == 0
    ensures r in Queue(AfterTicks(s, ceiling, n), k)
  {
    hide AfterTicks, Valid, Of;
    TicksGrantPositive(s, ceiling, n);
    var t := AfterTicks(s, ceiling, n);
    var more := t.log[|s.log|..];
    assert t.log == s.log + more;
    OfConcat(k, s.log, more);
    assert History(t, k) == History(s, k);
    assert Of(k, s.log) + Of(k, more) + Queue(t, k) == Of(k, s.log) + Queue(s, k);
    assert Queue(s, k) == Of(k, more) + Queue(t, k) by {
      assert (Of(k, s.log) + Queue(s, k))[|Of(k, s.log)|..] == Queue(s, k);
      assert (Of(k, s.log) + Of(k, more) + Queue(t, k))[|Of(k, s.log)|..] == Of(k, more) + Queue(t, k);
    }
    if r in Of(k, more) {
      OfMember(k, more, r);
    }
  }

  /** Whoever still waits after a tick is held up by its deficit, the tokens or a zero. */
  lemma TickLeavesBlocked(s: Sched, ceiling: nat, n: nat, k: FairnessKey)
    requires Valid(s) && n > 0 && k in AfterTicks(s, ceiling, n).classes
    ensures var t := AfterTicks(s, ceiling, n);
      t.classes[k].queue != [] && Blocked(t.classes[k].queue[0], t.classes[k].deficit, t.tokens)
  {
    hide Serve, Valid, Backlog, History, Blocked, Bytes, Refilled, BurstCapacity;
    TicksGrantPositive(s, ceiling, n - 1);
    var t := AfterTicks(s, ceiling, n - 1);
    RefilledValid(t, ceiling);
    ServeTheorem(Refilled(t, ceiling), BurstCapacity(ceiling));
  }

  lemma CoveredHeadIsZero(s: Sched, ceiling: nat, n: nat, k: FairnessKey)
    requires Valid(s) && Backlog(s) <= U64_MAX && n > 0 && k in AfterTicks(s, ceiling, n).classes
    requires Backlog(AfterTicks(s, ceiling, n)) <= AfterTicks(s, ceiling, n).tokens
    requires forall j :: j in s.classes ==> Bytes(s.classes[j].queue) <= Times(n, LEASE_QUANTUM)
    ensures var q := AfterTicks(s, ceiling, n).classes[k].queue; q != [] && q[0].bytes == 0
  {
    hide AfterTicks, Valid, Backlog, Bytes, BurstCapacity, Times;
    var t := AfterTicks(s, ceiling, n);
    TickLeavesBlocked(s, ceiling, n, k);
    TicksSupply(s, ceiling, n);
    QueueWithinBacklog(t, k);
    HeadWithin(t.classes[k].queue);
  }

  lemma NoTicks(s: Sched, ceiling: nat)
    ensures AfterTicks(s, ceiling, 0) == s
  {
  }

  lemma NothingWaitsForNothing(s: Sched, k: FairnessKey)
    requires Valid(s) && k in s.classes && Bytes(s.classes[k].queue) == 0
    ensures s.classes[k].queue != [] && s.classes[k].queue[0].bytes == 0
  {
  }

  /** What waits after some ticks waited before them. */
  lemma WaitersCameFromQueue(s: Sched, ceiling: nat, n: nat, k: FairnessKey)
    requires Valid(s)
    ensures var q, r := Queue(s, k), Queue(AfterTicks(s, ceiling, n), k); |r| <= |q| && r == q[|q| - |r|..]
  {
    hide AfterTicks, Valid, Of;
    TicksGrantPositive(s, ceiling, n);
    var t := AfterTicks(s, ceiling, n);
    assert History(t, k) == History(s, k);
    OfGrows(k, s.log, t.log);
    var a, b, q, r := Of(k, s.log), Of(k, t.log), Queue(s, k), Queue(t, k);
    assert q == (a + q)[|a|..] == (b + r)[|a|..] == b[|a|..] + r;
  }

  lemma CoveredDrainsIff(s: Sched, ceiling: nat, n: nat)
    requires Valid(s) && Backlog(s) <= U64_MAX
    requires var t := AfterTicks(s, ceiling, n); t.classes != map[] ==> Backlog(t) <= t.tokens
    requires forall k :: k in s.classes ==> Bytes(s.classes[k].queue) <= n * LEASE_QUANTUM
    ensures AfterTicks(s, ceiling, n).classes == map[] <==> AllPositive(s)
  {
    hide AfterTicks, Valid, Bytes, Backlog, BurstCapacity;
    var t := AfterTicks(s, ceiling, n);
    if !AllPositive(s) {
      var k :| k in s.classes && !Positive(s.classes[k].queue);
      var i :| 0 <= i < |s.classes[k].queue| && s.classes[k].queue[i].bytes <= 0;
      ZeroByteRequestStays(s, ceiling, n, k, s.classes[k].queue[i]);
    }
    forall k | k in t.classes ensures !AllPositive(s) {
      if n == 0 {
        assert t == s by {
          NoTicks(s, ceiling);
        }
        NothingWaitsForNothing(s, k);
      } else {
        CoveredHeadIsZero(s, ceiling, n, k);
      }
      WaitersCameFromQueue(s, ceiling, n, k);
      var q, r := Queue(s, k), Queue(t, k);
      assert q[|q| - |r|] == r[0];
    }
    if t.classes != map[] {
      var k :| k in t.classes;
    }
  }

  /** A finite backlog drains: once the refills cover all the bytes waiting, and the quanta those
      of the largest class, nobody waits; exactly when no request is for zero bytes. */
  lemma BacklogDrainsIff(s: Sched, ceiling: nat, n: nat)
    requires Valid(s) && Backlog(s) <= U64_MAX
    requires Backlog(s) <= n * BurstCapacity(ceiling)
    requires forall k :: k in s.classes ==> Bytes(s.classes[k].queue) <= n * LEASE_QUANTUM
    ensures AfterTicks(s, ceiling, n).classes == map[] <==> AllPositive(s)
  {
    hide AfterTicks, Valid, Bytes, Backlog, BurstCapacity, AllPositive;
    TicksSupply(s, ceiling, n);
    CoveredDrainsIff(s, ceiling, n);
  }

  lemma {:induction false} TicksKeepBalance(s: Sched, ceiling: nat, n: nat)
    requires Valid(s) && Backlog(s) <= U64_MAX
    ensures var t := AfterTicks(s, ceiling, n);
      && Valid(t) && Backlog(t) + Bytes(t.log) == Backlog(s) + Bytes(s.log) && Backlog(t) <= Backlog(s)
      && (Backlog(s) <= s.tokens && t.classes != map[] ==> Backlog(t) <= t.tokens)
      && (ceiling < 10 ==> t.tokens + Bytes(t.log) <= s.tokens + Bytes(s.log))
  {
    hide Serve, Valid, Bytes, Backlog, Blocked, History, Credited;
    if n > 0 {
      TicksKeepBalance(s, ceiling, n - 1);
      var t := AfterTicks(s, ceiling, n - 1);
      TickKeepsBalance(t, ceiling);
    }
  }

  lemma TickKeepsBalance(t: Sched, ceiling: nat)
    requires Valid(t) && Backlog(t) <= U64_MAX
    ensures var v := Serve(Refilled(t, ceiling), BurstCapacity(ceiling));
      && Valid(v) && Backlog(v) + Bytes(v.log) == Backlog(t) + Bytes(t.log) && Backlog(v) <= Backlog(t)
      && (v.classes != map[] ==> t.classes != map[])
      && (Backlog(t) <= t.tokens && v.classes != map[] ==> Backlog(v) <= v.tokens)
      && (ceiling < 10 ==> v.tokens + Bytes(v.log) <= t.tokens + Bytes(t.log))
  {
    hide Serve, Valid, Bytes, Backlog, Blocked, History, Credited;
    var cap, u := BurstCapacity(ceiling), Refilled(t, ceiling);
    var v := Serve(u, cap);
    RefilledValid(t, ceiling);
    ServeTheorem(u, cap);
    BytesShrink(u, cap);
    SameBacklog(u, t);
    if v.classes != map[] {
      var j :| j in v.classes;
      assert j in t.classes;
    }
  }

  lemma NobodyWaits(s: Sched)
    requires s.classes == map[]
    ensures Backlog(s) == 0 && AllPositive(s)
  {
    assert s.classes.Keys == {};
  }

  /** Ticks empty the queues in the end exactly when no request is for zero bytes and either the
      ceiling is one that refills, ten bytes a second or more, or the bucket already holds
      everything that is waited for. */
  lemma DrainsEventuallyIff(s: Sched, ceiling: nat)
    requires Valid(s) && Backlog(s) <= U64_MAX && ceiling != 0
    ensures (exists n: nat :: AfterTicks(s, ceiling, n).classes == map[]) <==>
      AllPositive(s) && (ceiling >= 10 || Backlog(s) <= s.tokens)
  {
    hide AfterTicks, Valid, Bytes, Backlog, AllPositive;
    if n: nat :| AfterTicks(s, ceiling, n).classes == map[] {
      TicksKeepBalance(s, ceiling, n);
      NobodyWaits(AfterTicks(s, ceiling, n));
      DrainedWasPositive(s, ceiling, n);
    }
    if AllPositive(s) && (ceiling >= 10 || Backlog(s) <= s.tokens) {
      var n := Backlog(s);
      forall k | k in s.classes ensures Bytes(s.classes[k].queue) <= n * LEASE_QUANTUM {
        QueueWithinBacklog(s, k);
      }
      if ceiling >= 10 {
        assert n <= n * BurstCapacity(ceiling) by {
          Grows(n, BurstCapacity(ceiling));
        }
        BacklogDrainsIff(s, ceiling, n);
      } else {
        TicksKeepBalance(s, ceiling, n);
        CoveredDrainsIff(s, ceiling, n);
      }
    }
  }

  lemma Grows(n: nat, x: nat)
    requires x >= 1
    ensures n <= n * x
  {
  }

  lemma DrainedWasPositive(s: Sched, ceiling: nat, n: nat)
    requires Valid(s) && AfterTicks(s, ceiling, n).classes == map[]
    ensures AllPositive(s)
  {
    hide AfterTicks, Valid;
    forall k, i | k in s.classes && 0 <= i < |s.classes[k].queue| ensures s.classes[k].queue[i].bytes > 0 {
      if s.classes[k].queue[i].bytes == 0 {
        ZeroByteRequestStays(s, ceiling, n, k, s.classes[k].queue[i]);
      }
    }
  }

  // ---- Short runs ----

  /** A scheduler with one waiter. */
  function Lone(tokens: nat, deficit: nat, r: Request): Sched {
    Sched(tokens, map[r.key := ClassState(deficit, [r])], [r.key], [])
  }

  /** A pass over a lone waiter that must wait only raises its deficit. */
  lemma LoneWaits(tokens: nat, deficit: nat, r: Request, cap: nat)
    requires Blocked(r, SaturatingAdd(deficit, LEASE_QUANTUM), tokens)
    ensures Serve(Lone(tokens, deficit, r), cap) == Lone(tokens, SaturatingAdd(deficit, LEASE_QUANTUM), r)
  {
    var s := Lone(tokens, deficit, r).(order := []);
    var raised := SaturatingAdd(deficit, LEASE_QUANTUM);
    assert Served([r], raised, tokens) == 0 && [r][..0] == [] && [r][0..] == [r];
    NoBytes();
    assert s.classes[r.key := ClassState(raised, [r])] == map[r.key := ClassState(raised, [r])];
    assert Visit(s, r.key, cap) == Lone(tokens, raised, r);
    assert [r.key][1..] == [];
    assert Pass(s, [r.key], cap) == Pass(Visit(s, r.key, cap), [r.key][1..], cap);
  }

  /** A first request that must wait. */
  lemma FirstWaits(ceiling: nat, r: Request)
    requires ceiling != 0 && Blocked(r, LEASE_QUANTUM, BurstCapacity(ceiling))
    ensures Next(Initial(ceiling), Receive(r)) ==
      Initial(ceiling).(sched := Lone(BurstCapacity(ceiling), LEASE_QUANTUM, r), received := [r])
  {
    hide Serve, Blocked;
    var none: Classes := map[];
    assert [] + [r] == [r] && none[r.key := ClassState(0, [r])] == map[r.key := ClassState(0, [r])];
    assert Enqueued(Initial(ceiling).sched, r) == Lone(BurstCapacity(ceiling), 0, r);
    LoneWaits(BurstCapacity(ceiling), 0, r, BurstCapacity(ceiling));
  }

  lemma LoneIsValid(tokens: nat, deficit: nat, r: Request)
    ensures Valid(Lone(tokens, deficit, r)) && Queue(Lone(tokens, deficit, r), r.key) == [r]
    ensures Backlog(Lone(tokens, deficit, r)) == r.bytes
  {
    var s := Lone(tokens, deficit, r);
    assert s.classes.Keys == {r.key} && multiset([r.key]) == multiset({r.key});
    assert Bytes([r]) == r.bytes;
    BacklogSplit(s, r.key);
    assert s.classes - {r.key} == map[];
    NobodyWaits(s.(classes := map[]));
  }

  /** A request for zero bytes, sent to a new limiter, waits for ever. */
  lemma ZeroByteRequestWaits(n: nat)
    ensures var r := Request(0, Default, 0);
      r in Queue(AfterTicks(Next(Initial(10), Receive(r)).sched, 10, n), Default)
  {
    hide AfterTicks, Serve, Valid;
    var r := Request(0, Default, 0);
    FirstWaits(10, r);
    LoneIsValid(1, LEASE_QUANTUM, r);
    ZeroByteRequestStays(Lone(1, LEASE_QUANTUM, r), 10, n, Default, r);
  }

  /** So does one for a single byte, sent to a new limiter of nine bytes a second. */
  lemma TinyCeilingStarves(n: nat)
    ensures AfterTicks(Next(Initial(9), Receive(Request(0, Default, 1))).sched, 9, n).classes != map[]
  {
    hide AfterTicks, Serve, Valid;
    var r := Request(0, Default, 1);
    FirstWaits(9, r);
    LoneIsValid(0, LEASE_QUANTUM, r);
    DrainsEventuallyIff(Lone(0, LEASE_QUANTUM, r), 9);
  }

  /** A request of one byte, sent after the limiter is disabled, passes one of five bytes that
      was sent before it and still waits. */
  lemma DisablingBreaksOrder(k: FairnessKey) returns (states: seq<Limiter>, steps: seq<Step>)
    ensures steps == [Receive(Request(0, k, 5)), SetCeiling(0), Receive(Request(1, k, 1))]
    ensures IsRun(states, steps) && states[0] == Initial(10) && !InOrder(states[3], k)
  {
    hide Serve, Valid, InOrder;
    var r, l := Request(0, k, 5), Initial(10);
    steps := [Receive(r), SetCeiling(0), Receive(Request(1, k, 1))];
    var l1 := Next(l, steps[0]);
    var l2 := Next(l1, steps[1]);
    states := [l, l1, l2, Next(l2, steps[2])];
    FirstWaits(10, r);
    assert Overtakes(states[2], steps[2], k);
    ArrivalOrderIff(states, steps, 3, k);
  }

  /** While a request of five bytes waits, handing one byte back takes away the byte that the
      last tick had added for it. */
  lemma RefundUndoesRefill(k: FairnessKey) returns (states: seq<Limiter>, steps: seq<Step>)
    ensures steps == [Receive(Request(0, k, 5)), Tick([]), Refund(1)]
    ensures IsRun(states, steps) && states[0] == Initial(10)
    ensures states[1].sched.tokens == 1 && states[2].sched.tokens == 2 && states[3].sched.tokens == 1
  {
    hide Serve;
    var r, l := Request(0, k, 5), Initial(10);
    steps := [Receive(r), Tick([]), Refund(1)];
    var l1 := Next(l, steps[0]);
    var l2 := Next(l1, steps[1]);
    states := [l, l1, l2, Next(l2, steps[2])];
    FirstWaits(10, r);
    assert k in l1.sched.classes && l1.sched.classes[k].queue != [];
    assert Refilled(l1.sched, 10) == Lone(2, LEASE_QUANTUM, r);
    LoneWaits(2, LEASE_QUANTUM, r, 1);
  }
}
