/** The bandwidth limiter: a token bucket shared by a fast path and the scheduler. */
module Limiter {
  import opened Basics
  import opened Scheduler

  /** `ceiling`, the scheduler and the fail-open counter are the limiter's own state; the rest
      records what has happened: bytes granted on the fast path, bytes handed back, and the
      requests received by the scheduler. */
  datatype Limiter = Limiter(
    ceiling: nat, sched: Sched, failopen: nat, fast: nat, refunded: nat, received: seq<Request>)

  /** A tenth of a second of the ceiling: both the bucket's capacity and its refill. */
  function BurstCapacity(ceiling: nat): nat { ceiling / 10 }

  datatype Step =
    | Acquire(minBytes: nat, desired: nat)
    | Refund(bytes: nat)
    | Tick(drained: seq<FairnessKey>)
    | Receive(request: Request)
    | SetCeiling(bps: nat)

  // ---- The steps ----

  /** The fast path: `None` when fewer than `minBytes` tokens are left. */
  function FastGrant(ceiling: nat, tokens: nat, minBytes: nat, desired: nat): (g: (bool, nat)) {
    if ceiling == 0 then (true, desired)
    else if tokens < minBytes then (false, 0)
    else (true, Min(tokens, desired))
  }

  function AfterAcquire(l: Limiter, minBytes: nat, desired: nat): Limiter {
    var (_, g) := FastGrant(l.ceiling, l.sched.tokens, minBytes, desired);
    var left := if l.ceiling == 0 then l.sched.tokens else l.sched.tokens - g;
    l.(sched := l.sched.(tokens := left), fast := l.fast + g)
  }

  function AfterRefund(l: Limiter, bytes: nat): Limiter {
    if bytes == 0 || l.ceiling == 0 then l
    else
      l.(sched := l.sched.(tokens := Min(SaturatingAdd(l.sched.tokens, bytes), BurstCapacity(l.ceiling))),
         refunded := l.refunded + bytes)
  }

  predicate Pending(s: Sched) { exists k :: k in s.classes && s.classes[k].queue != [] }

  /** The bucket after a refill; it may exceed the capacity while somebody waits. */
  function Refilled(s: Sched, ceiling: nat): Sched {
    var cap := BurstCapacity(ceiling);
    var full := SaturatingAdd(s.tokens, cap);
    s.(tokens := if Pending(s) then full else Min(full, cap))
  }

  function Enqueued(s: Sched, r: Request): Sched {
    var c := if r.key in s.classes then s.classes[r.key] else ClassState(0, []);
    s.(classes := s.classes[r.key := c.(queue := c.queue + [r])],
       order := if c.queue == [] then s.order + [r.key] else s.order)
  }

  /** Every waiter, class by class in the order `keys`. */
  function Waiting(classes: Classes, keys: seq<FairnessKey>): seq<Request>
    requires forall i :: 0 <= i < |keys| ==> keys[i] in classes
  {
    if keys == [] then [] else classes[keys[0]].queue + Waiting(classes, keys[1..])
  }

  /** Whether a step can be taken: a disabled tick empties every class, in some order. */
  ghost predicate Enabled(l: Limiter, step: Step) {
    step.Tick? && l.ceiling == 0 ==>
      && Lists(step.drained, l.sched.classes)
      && forall i :: 0 <= i < |step.drained| ==> step.drained[i] in l.sched.classes
  }

  ghost function Next(l: Limiter, step: Step): Limiter
    requires Enabled(l, step)
  {
    match step
    case Acquire(minBytes, desired) => AfterAcquire(l, minBytes, desired)
    case Refund(bytes) => AfterRefund(l, bytes)
    case Tick(keys) =>
      if l.ceiling == 0 then
        var all := Waiting(l.sched.classes, keys);
        l.(sched := Sched(l.sched.tokens, map[], [], l.sched.log + all), failopen := l.failopen + |all|)
      else l.(sched := Serve(Refilled(l.sched, l.ceiling), BurstCapacity(l.ceiling)))
    case Receive(r) =>
      var got := l.(received := l.received + [r]);
      if l.ceiling == 0 then got.(sched := l.sched.(log := l.sched.log + [r]))
      else got.(sched := Serve(Enqueued(l.sched, r), BurstCapacity(l.ceiling)))
    case SetCeiling(bps) => l.(ceiling := bps)
  }

  function Initial(ceiling: nat): Limiter {
    Limiter(ceiling, Sched(BurstCapacity(ceiling), map[], [], []), 0, 0, 0, [])
  }

  // ---- The class ----

  class BandwidthLimiter {
    var ceiling: nat
    var tokens: nat
    var classes: Classes
    var order: seq<FairnessKey>
    var failopen: nat
    ghost var log: seq<Request>
    ghost var fast: nat
    ghost var refunded: nat
    ghost var received: seq<Request>

    ghost function Scheduling(): Sched
      reads this
    {
      Sched(tokens, classes, order, log)
    }

    ghost function View(): Limiter
      reads this
    {
      Limiter(ceiling, Scheduling(), failopen, fast, refunded, received)
    }

    constructor (ceiling: nat)
      ensures View() == Initial(ceiling)
    {
      this.ceiling, tokens, failopen := ceiling, BurstCapacity(ceiling), 0;
      classes, order, log := map[], [], [];
      fast, refunded, received := 0, 0, [];
    }

    method SetCeilingBps(bps: nat)
      modifies this`ceiling
      ensures View() == Next(old(View()), SetCeiling(bps))
    {
      ceiling := bps;
    }

    /** `try_acquire`. */
    method TryAcquire(minBytes: nat, desired: nat) returns (r: Option<nat>)
      modifies this`tokens, this`fast
      ensures View() == Next(old(View()), Acquire(minBytes, desired))
      ensures r.None? <==> ceiling != 0 && old(tokens) < minBytes
      ensures r.Some? ==> fast == old(fast) + r.value && r.value <= desired
      ensures r.Some? && minBytes <= desired ==> r.value >= minBytes
      ensures r.Some? && r.value < desired ==> tokens == 0
      ensures ceiling == 0 ==> r == Some(desired) && tokens == old(tokens)
    {
      if ceiling == 0 {
        fast := fast + desired;
        return Some(desired);
      }
      if tokens < minBytes {
        return None;
      }
      var granted := Min(tokens, desired);
      tokens := tokens - granted;
      fast := fast + granted;
      return Some(granted);
    }

    /** `refund`. */
    method GiveBack(bytes: nat)
      modifies this`tokens, this`refunded
      ensures View() == Next(old(View()), Refund(bytes))
    {
      if bytes == 0 || ceiling == 0 {
        return;
      }
      tokens := Min(SaturatingAdd(tokens, bytes), BurstCapacity(ceiling));
      refunded := refunded + bytes;
    }

    /** Grants the head waiters of class `k` as far as its deficit and the tokens go. */
    method ServeHead(k: FairnessKey)
      requires k in classes
      modifies this`classes, this`tokens, this`log
      ensures var q, deficit := old(classes[k].queue), old(classes[k].deficit);
        var n := Served(q, deficit, old(tokens));
        && Bytes(q[..n]) <= deficit && Bytes(q[..n]) <= old(tokens)
        && tokens == old(tokens) - Bytes(q[..n])
        && log == old(log) + q[..n]
        && classes == old(classes)[k := ClassState(deficit - Bytes(q[..n]), q[n..])]
    {
      hide Served, Bytes, Blocked;
      ghost var q, deficit := classes[k].queue, classes[k].deficit;
      ghost var n := Served(q, deficit, tokens);
      ServedEffect(q, deficit, tokens);
      ghost var m := 0;
      assert classes == classes[k := ClassState(deficit, q)] && q[..0] == [] && q[0..] == q;
      NoBytes();
      while classes[k].queue != []
        invariant m <= |q| && Bytes(q[..m]) <= deficit && Bytes(q[..m]) <= old(tokens)
        invariant tokens == old(tokens) - Bytes(q[..m]) && log == old(log) + q[..m]
        invariant classes == old(classes)[k := ClassState(deficit - Bytes(q[..m]), q[m..])]
        invariant n == m + Served(q[m..], deficit - Bytes(q[..m]), tokens)
        decreases |q| - m
      {
        var head := classes[k].queue[0];
        var needed := head.bytes;
        BlockedOutcome(head, classes[k].deficit, tokens);
        ServedStep(q[m..], classes[k].deficit, tokens);
        if classes[k].deficit < needed {
          break;
        }
        var got := if tokens < needed then 0 else needed;
        if got == 0 {
          break;
        }
        PrefixBytes(q, m);
        tokens := tokens - got;
        classes := classes[k := ClassState(classes[k].deficit - needed, classes[k].queue[1..])];
        log := log + [head];
        m := m + 1;
      }
      ServedStep(classes[k].queue, classes[k].deficit, tokens);
    }

    /** Visits class `k`, taken off the rotation, and says whether it goes back behind `kept`. */
    method VisitClass(k: FairnessKey, ghost kept: seq<FairnessKey>) returns (waiting: bool)
      modifies this`classes, this`tokens, this`log
      ensures Sched(tokens, classes, if waiting then kept + [k] else kept, log) ==
        Visit(Sched(old(tokens), old(classes), kept, old(log)), k, BurstCapacity(ceiling))
    {
      hide Served, Bytes;
      if k !in classes || classes[k].queue == [] {
        classes := classes - {k};
        return false;
      }
      ghost var before := classes;
      classes := classes[k := classes[k].(deficit := SaturatingAdd(classes[k].deficit, LEASE_QUANTUM))];
      ServeHead(k);
      waiting := classes[k].queue != [];
      if !waiting {
        classes := classes - {k};
        assert classes == before - {k};
      } else {
        assert classes == before[k := classes[k]];
      }
      var cap := BurstCapacity(ceiling);
      if classes == map[] && tokens > cap {
        tokens := cap;
      }
    }

    /** `serve_waiters`: walks the rotation once. */
    method ServeWaiters()
      modifies this`classes, this`order, this`tokens, this`log
      ensures Scheduling() == Serve(old(Scheduling()), BurstCapacity(ceiling))
    {
      hide Visit, Pass;
      ghost var todo, kept, goal := order, [], Serve(Scheduling(), BurstCapacity(ceiling));
      var n := |order|;
      var i := 0;
      assert todo[0..] + [] == todo && todo[0..] == todo;
      while i < n
        invariant i <= n == |todo| && order == todo[i..] + kept
        invariant goal == Pass(Sched(tokens, classes, kept, log), todo[i..], BurstCapacity(ceiling))
      {
        var k := order[0];
        PassOne(Sched(tokens, classes, kept, log), todo[i..], BurstCapacity(ceiling));
        FrontOfRotation(order, todo, i, kept);
        order := order[1..];
        i := i + 1;
        var waiting := VisitClass(k, kept);
        if waiting {
          order := order + [k];
          kept := kept + [k];
        }
      }
      PassNone(Sched(tokens, classes, kept, log), BurstCapacity(ceiling));
      assert todo[i..] == [] && order == kept;
    }

    /** The refill tick. */
    method OnTick() returns (ghost drained: seq<FairnessKey>)
      modifies this
      ensures Enabled(old(View()), Tick(drained)) && View() == Next(old(View()), Tick(drained))
    {
      drained := [];
      if ceiling == 0 {
        drained := DrainAll();
        return;
      }
      var cap := BurstCapacity(ceiling);
      var pending := exists k :: k in classes && classes[k].queue != [];
      tokens := if pending then SaturatingAdd(tokens, cap) else Min(SaturatingAdd(tokens, cap), cap);
      ServeWaiters();
    }

    /** A blocked request arrives. */
    method OnReceive(r: Request)
      modifies this
      ensures View() == Next(old(View()), Receive(r))
    {
      received := received + [r];
      if ceiling == 0 {
        log := log + [r];
        return;
      }
      var c := if r.key in classes then classes[r.key] else ClassState(0, []);
      if c.queue == [] {
        order := order + [r.key];
      }
      classes := classes[r.key := c.(queue := c.queue + [r])];
      ServeWaiters();
    }

    /** `drain_all`: grants every waiter without tokens. */
    method DrainAll() returns (ghost drained: seq<FairnessKey>)
      requires ceiling == 0
      modifies this`classes, this`order, this`failopen, this`log
      ensures Enabled(old(View()), Tick(drained)) && View() == Next(old(View()), Tick(drained))
    {
      hide Waiting;
      drained := [];
      WaitingNone(classes);
      ghost var all := classes;
      var rest := classes.Keys;
      var count := 0;
      while rest != {}
        invariant rest <= all.Keys
        invariant multiset(drained) + multiset(rest) == multiset(all.Keys)
        invariant forall i :: 0 <= i < |drained| ==> drained[i] in all
        invariant log == old(log) + Waiting(all, drained) && count == |Waiting(all, drained)|
        modifies this`log
        decreases |rest|
      {
        var k :| k in rest;
        WaitingSnoc(all, drained, k);
        DrainedSnoc(drained, rest, k);
        log := log + classes[k].queue;
        count := count + |classes[k].queue|;
        drained := drained + [k];
        rest := rest - {k};
      }
      assert multiset(rest) == multiset{};
      failopen := failopen + count;
      classes := map[];
      order := [];
    }
  }

  /** Taking the front of the rotation, and putting it behind the classes kept so far. */
  lemma FrontOfRotation(order: seq<FairnessKey>, todo: seq<FairnessKey>, i: nat, kept: seq<FairnessKey>)
    requires i < |todo| && order == todo[i..] + kept
    ensures order[0] == todo[i..][0] && todo[i..][1..] == todo[i + 1..]
    ensures order[1..] == todo[i + 1..] + kept
    ensures order[1..] + [order[0]] == todo[i + 1..] + (kept + [order[0]])
  {
    assert todo[i..] == [todo[i]] + todo[i + 1..];
  }

  lemma DrainedSnoc(drained: seq<FairnessKey>, rest: set<FairnessKey>, k: FairnessKey)
    requires k in rest
    ensures multiset(drained + [k]) + multiset(rest - {k}) == multiset(drained) + multiset(rest)
  {
    assert multiset(rest) == multiset(rest - {k}) + multiset{k};
  }

  /** Taking no tokens reads as having found none: a request for zero bytes is held up as well. */
  lemma BlockedOutcome(r: Request, deficit: nat, tokens: nat)
    ensures Blocked(r, deficit, tokens) <==> deficit < r.bytes || (if tokens < r.bytes then 0 else r.bytes) == 0
  {
  }

  lemma ServedStep(q: seq<Request>, deficit: nat, tokens: nat)
    ensures q == [] || Blocked(q[0], deficit, tokens) ==> Served(q, deficit, tokens) == 0
    ensures q != [] && !Blocked(q[0], deficit, tokens) ==>
      && q[0].bytes <= deficit && q[0].bytes <= tokens
      && Served(q, deficit, tokens) == 1 + Served(q[1..], deficit - q[0].bytes, tokens - q[0].bytes)
  {
  }

  lemma PrefixBytes(q: seq<Request>, m: nat)
    requires m < |q|
    ensures q[..m + 1] == q[..m] + [q[m]] && q[m..][0] == q[m] && q[m..][1..] == q[m + 1..]
    ensures Bytes(q[..m + 1]) == Bytes(q[..m]) + q[m].bytes
  {
    BytesConcat(q[..m], [q[m]]);
    assert q[..m + 1] == q[..m] + [q[m]];
    assert [q[m]][1..] == [];
  }

  lemma PassOne(s: Sched, todo: seq<FairnessKey>, cap: nat)
    requires todo != []
    ensures Pass(s, todo, cap) == Pass(Visit(s, todo[0], cap), todo[1..], cap)
  {
  }

  lemma PassNone(s: Sched, cap: nat)
    ensures Pass(s, [], cap) == s
  {
  }

  lemma WaitingNone(classes: Classes)
    ensures Waiting(classes, []) == []
  {
  }

  lemma {:induction false} WaitingSnoc(classes: Classes, keys: seq<FairnessKey>, k: FairnessKey)
    requires (forall i :: 0 <= i < |keys| ==> keys[i] in classes) && k in classes
    ensures Waiting(classes, keys + [k]) == Waiting(classes, keys) + classes[k].queue
  {
    if keys == [] {
      assert keys + [k] == [k];
    } else {
      assert (keys + [k])[1..] == keys[1..] + [k];
      WaitingSnoc(classes, keys[1..], k);
    }
  }
}
