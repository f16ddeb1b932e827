/** Whose turn it is: the rotation, and the grants of a pass, go by how long each class waits. */
module Rotation {
  import opened Scheduler
  import opened Limiter
  import opened LimiterRuns

  // ---- Subsequences of a rotation ----

  lemma {:induction false} RemainingAt(todo: seq<FairnessKey>, classes: Classes, b: nat) returns (q: nat)
    requires b < |Remaining(todo, classes)|
    ensures q < |todo| && todo[q] == Remaining(todo, classes)[b]
    decreases |todo|
  {
    var head := if todo[0] in classes then 1 else 0;
    if b < head {
      q := 0;
    } else {
      var y := RemainingAt(todo[1..], classes, b - head);
      q := y + 1;
    }
  }

  lemma {:induction false} RemainingOrder(todo: seq<FairnessKey>, classes: Classes, a: nat, b: nat)
    returns (p: nat, q: nat)
    requires a < b < |Remaining(todo, classes)|
    ensures p < q < |todo| && todo[p] == Remaining(todo, classes)[a] && todo[q] == Remaining(todo, classes)[b]
    decreases |todo|
  {
    var head := if todo[0] in classes then 1 else 0;
    if a < head {
      p := 0;
      var y := RemainingAt(todo[1..], classes, b - head);
      q := y + 1;
    } else {
      var x, y := RemainingOrder(todo[1..], classes, a - head, b - head);
      p, q := x + 1, y + 1;
    }
  }

  // ---- Since when a class waits ----

  /** The step at which the current wait of class `k` began: `n` if it did not wait before that. */
  function Since(states: seq<Limiter>, n: nat, k: FairnessKey): (i: nat)
    requires n < |states|
    ensures i <= n
  {
    if n == 0 || k !in states[n - 1].sched.classes then n else Since(states, n - 1, k)
  }

  ghost predicate ByWait(states: seq<Limiter>, n: nat)
    requires n < |states|
  {
    var order := states[n].sched.order;
    forall a, b :: 0 <= a < b < |order| ==> Since(states, n, order[a]) < Since(states, n, order[b])
  }

  /** The rotation as a pass finds it. */
  function Lined(l: Limiter, step: Step): seq<FairnessKey> {
    if step.Receive? && step.request.key !in l.sched.classes then l.sched.order + [step.request.key]
    else l.sched.order
  }

  /** When the wait of a class in that rotation began; a new arrival begins with the step itself. */
  function Began(states: seq<Limiter>, n: nat, k: FairnessKey): nat
    requires n < |states|
  {
    if k in states[n].sched.classes then Since(states, n, k) else n + 1
  }

  lemma StepRotation(l: Limiter, step: Step)
    requires Valid(l.sched) && Enabled(l, step) && l.ceiling != 0
    ensures var l' := Next(l, step);
      && Valid(l'.sched)
      && l'.sched.order ==
        if step.Tick? || step.Receive? then Remaining(Lined(l, step), l'.sched.classes) else l.sched.order
  {
    hide Serve, Bytes, History, Backlog, Credited, Blocked, Positive;
    StepHistory(l, step, Default);
    match step
    case Acquire(_, _) =>
    case Refund(_) =>
    case SetCeiling(_) =>
    case Tick(_) =>
      RefilledValid(l.sched, l.ceiling);
      ServeTheorem(Refilled(l.sched, l.ceiling), BurstCapacity(l.ceiling));
    case Receive(r) =>
      EnqueuedTheorem(l.sched, r);
      ServeTheorem(Enqueued(l.sched, r), BurstCapacity(l.ceiling));
      assert Enqueued(l.sched, r).order == Lined(l, step);
  }

  /** The rotation a pass finds goes by the beginning of each wait. */
  lemma LinedByWait(states: seq<Limiter>, steps: seq<Step>, n: nat, a: nat, b: nat)
    requires IsRun(states, steps) && n < |steps| && Valid(states[n].sched) && ByWait(states, n)
    requires a < b < |Lined(states[n], steps[n])|
    ensures var order := Lined(states[n], steps[n]); Began(states, n, order[a]) < Began(states, n, order[b])
  {
    hide Next, Valid, Enabled;
    OrderCovers(states[n].sched);
    var order := states[n].sched.order;
    assert order[a] in order;
    if b < |order| {
      assert order[b] in order;
    }
  }

  /** Over every run that starts with nobody waiting and is never disabled, the rotation lists the
      waiting classes in the order in which each began to wait. */
  lemma {:induction false} RotationGoesByWait(states: seq<Limiter>, steps: seq<Step>, n: nat)
    requires Metered(states, steps) && n <= |steps|
    requires Valid(states[0].sched) && states[0].sched.order == []
    ensures Valid(states[n].sched) && ByWait(states, n)
  {
    hide Next, Valid, Enabled, Since, ByWait;
    if n == 0 {
      EmptyByWait(states);
    } else {
      RotationGoesByWait(states, steps, n - 1);
      StepRotation(states[n - 1], steps[n - 1]);
      var order := states[n].sched.order;
      forall a, b | 0 <= a < b < |order| ensures Since(states, n, order[a]) < Since(states, n, order[b]) {
        PairByWait(states, steps, n, a, b);
      }
      ByWaitIntro(states, n);
    }
  }

  lemma EmptyByWait(states: seq<Limiter>)
    requires states != [] && states[0].sched.order == []
    ensures ByWait(states, 0)
  {
  }

  lemma ByWaitIntro(states: seq<Limiter>, n: nat)
    requires n < |states|
    requires var order := states[n].sched.order;
      forall a, b :: 0 <= a < b < |order| ==> Since(states, n, order[a]) < Since(states, n, order[b])
    ensures ByWait(states, n)
  {
  }

  lemma PairByWait(states: seq<Limiter>, steps: seq<Step>, n: nat, a: nat, b: nat)
    requires Metered(states, steps) && 0 < n <= |steps| && Valid(states[n - 1].sched) && ByWait(states, n - 1)
    requires a < b < |states[n].sched.order|
    ensures var order := states[n].sched.order; Since(states, n, order[a]) < Since(states, n, order[b])
  {
    hide Next, Valid, Enabled, ByWait, Remaining;
    var l, step, order := states[n - 1], steps[n - 1], states[n].sched.order;
    assert states[n] == Next(l, step);
    StepRotation(l, step);
    var lined := Lined(l, step);
    var p, q := a, b;
    if step.Tick? || step.Receive? {
      p, q := RemainingOrder(lined, states[n].sched.classes, a, b);
    }
    LinedByWait(states, steps, n - 1, p, q);
    assert order[a] == lined[p] && order[b] == lined[q];
  }

  // ---- The grants of a pass ----

  lemma {:induction false} OfKeys(k: FairnessKey, grants: seq<Request>)
    ensures AllOf(k, Of(k, grants))
  {
    if grants != [] {
      OfKeys(k, grants[..|grants| - 1]);
    }
  }

  lemma {:induction false} GroupedKey(todo: seq<FairnessKey>, grants: seq<Request>, b: nat) returns (q: nat)
    requires b < |Grouped(todo, grants)|
    ensures q < |todo| && todo[q] == Grouped(todo, grants)[b].key
    decreases |todo|
  {
    hide Of;
    var first := Of(todo[0], grants);
    OfKeys(todo[0], grants);
    if b < |first| {
      assert Grouped(todo, grants)[b] == first[b];
      q := 0;
    } else {
      var y := GroupedKey(todo[1..], grants, b - |first|);
      q := y + 1;
    }
  }

  lemma {:induction false} GroupedOrder(todo: seq<FairnessKey>, grants: seq<Request>, a: nat, b: nat)
    returns (p: nat, q: nat)
    requires a < b < |Grouped(todo, grants)|
    requires Grouped(todo, grants)[a].key != Grouped(todo, grants)[b].key
    ensures p < q < |todo| && todo[p] == Grouped(todo, grants)[a].key && todo[q] == Grouped(todo, grants)[b].key
    decreases |todo|
  {
    hide Of;
    var first, all := Of(todo[0], grants), Grouped(todo, grants);
    OfKeys(todo[0], grants);
    if a < |first| {
      assert all[a] == first[a];
      q := GroupedKey(todo, grants, b);
      p := 0;
    } else {
      var x, y := GroupedOrder(todo[1..], grants, a - |first|, b - |first|);
      p, q := x + 1, y + 1;
    }
  }

  lemma ServeFollowsRotation(s: Sched, cap: nat)
    requires Valid(s)
    ensures var t := Serve(s, cap);
      s.log <= t.log && t.log[|s.log|..] == Grouped(s.order, t.log[|s.log|..])
  {
    hide Pass, Ready, Valid, Grouped;
    ValidIsReady(s);
    PassFollowsRotation(s.(order := []), s.order, cap);
  }

  lemma StepFollowsRotation(l: Limiter, step: Step)
    requires Valid(l.sched) && Enabled(l, step) && l.ceiling != 0 && (step.Tick? || step.Receive?)
    ensures var l' := Next(l, step);
      && l.sched.log <= l'.sched.log
      && l'.sched.log[|l.sched.log|..] == Grouped(Lined(l, step), l'.sched.log[|l.sched.log|..])
  {
    hide Serve, Grouped, History;
    match step
    case Tick(_) =>
      RefilledValid(l.sched, l.ceiling);
      ServeFollowsRotation(Refilled(l.sched, l.ceiling), BurstCapacity(l.ceiling));
    case Receive(r) =>
      EnqueuedTheorem(l.sched, r);
      ServeFollowsRotation(Enqueued(l.sched, r), BurstCapacity(l.ceiling));
      assert Enqueued(l.sched, r).order == Lined(l, step);
  }

  /** Of two classes granted in one pass, the one that has waited longer is granted first. */
  lemma LongestWaitIsServedFirst(states: seq<Limiter>, steps: seq<Step>, n: nat, a: nat, b: nat)
    requires Metered(states, steps) && n < |steps| && (steps[n].Tick? || steps[n].Receive?)
    requires Valid(states[0].sched) && states[0].sched.order == []
    requires |states[n].sched.log| <= a < b < |states[n + 1].sched.log|
    ensures var log := states[n + 1].sched.log;
      log[a].key == log[b].key || Began(states, n, log[a].key) < Began(states, n, log[b].key)
  {
    hide Next, Valid, Enabled, ByWait, Grouped, Began, Lined;
    RotationGoesByWait(states, steps, n);
    assert states[n + 1] == Next(states[n], steps[n]);
    StepFollowsRotation(states[n], steps[n]);
    var k, log := |states[n].sched.log|, states[n + 1].sched.log;
    var grants := log[k..];
    assert grants[a - k] == log[a] && grants[b - k] == log[b];
    if log[a].key != log[b].key {
      var p, q := GroupedOrder(Lined(states[n], steps[n]), grants, a - k, b - k);
      LinedByWait(states, steps, n, p, q);
    }
  }
}
