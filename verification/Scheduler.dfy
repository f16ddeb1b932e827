/** The deficit round-robin scheduler: one pass over the waiting classes. */
module Scheduler {
  import opened Basics
  import opened Sums

  datatype FairnessKey = Caller(name: string) | Bucket(name: string) | Default

  datatype Request = Request(id: nat, key: FairnessKey, bytes: nat)

  datatype ClassState = ClassState(deficit: nat, queue: seq<Request>)

  type Classes = map<FairnessKey, ClassState>

  /** The token bucket, the waiting classes, the rotation, and in `log` every request the
      scheduler has granted, in the order of the grants. */
  datatype Sched = Sched(tokens: nat, classes: Classes, order: seq<FairnessKey>, log: seq<Request>)

  const LEASE_QUANTUM: nat := 1048576
  const U64_MAX: nat := 0xFFFF_FFFF_FFFF_FFFF

  function SaturatingAdd(a: nat, b: nat): nat { if a + b > U64_MAX then U64_MAX else a + b }

  // ---- Requests ----

  function Bytes(q: seq<Request>): nat {
    if q == [] then 0 else q[0].bytes + Bytes(q[1..])
  }

  lemma {:induction false} BytesConcat(a: seq<Request>, b: seq<Request>)
    ensures Bytes(a + b) == Bytes(a) + Bytes(b)
  {
    if a == [] {
      assert a + b == b;
    } else {
      assert (a + b)[1..] == a[1..] + b;
      BytesConcat(a[1..], b);
    }
  }

  /** The requests of one class. */
  function Of(k: FairnessKey, log: seq<Request>): seq<Request> {
    if log == [] then []
    else Of(k, log[..|log| - 1]) + if log[|log| - 1].key == k then [log[|log| - 1]] else []
  }

  predicate AllOf(k: FairnessKey, q: seq<Request>) { forall i :: 0 <= i < |q| ==> q[i].key == k }

  lemma {:induction false} OfConcat(k: FairnessKey, a: seq<Request>, b: seq<Request>)
    ensures Of(k, a + b) == Of(k, a) + Of(k, b)
    decreases |b|
  {
    if b == [] {
      assert a + b == a;
    } else {
      var n := |b| - 1;
      assert (a + b)[..|a| + n] == a + b[..n];
      OfConcat(k, a, b[..n]);
    }
  }

  lemma {:induction false} OfClass(k: FairnessKey, j: FairnessKey, q: seq<Request>)
    requires AllOf(j, q)
    ensures Of(k, q) == if k == j then q else []
  {
    if q != [] {
      OfClass(k, j, q[..|q| - 1]);
      assert q == q[..|q| - 1] + [q[|q| - 1]];
    }
  }

  lemma OfAppend(k: FairnessKey, j: FairnessKey, log: seq<Request>, q: seq<Request>)
    requires AllOf(j, q)
    ensures Of(k, log + q) == Of(k, log) + if k == j then q else []
  {
    OfConcat(k, log, q);
    OfClass(k, j, q);
  }

  // ---- Serving one class ----

  /** Whether a waiter at the head of its class must go on waiting. A request for zero bytes
      is never granted: the amount taken doubles as the sign of success. */
  predicate Blocked(r: Request, deficit: nat, tokens: nat) {
    r.bytes > deficit || r.bytes > tokens || r.bytes == 0
  }

  /** How many waiters are granted from the front of `q`. */
  function Served(q: seq<Request>, deficit: nat, tokens: nat): (n: nat)
    ensures n <= |q|
  {
    if q == [] || Blocked(q[0], deficit, tokens) then 0
    else 1 + Served(q[1..], deficit - q[0].bytes, tokens - q[0].bytes)
  }

  predicate Positive(q: seq<Request>) { forall i :: 0 <= i < |q| ==> q[i].bytes > 0 }

  /** The waiters granted are the longest prefix of the queue that is free of zero-byte requests
      and within both the deficit and the tokens. */
  lemma {:induction false} ServedIsLongestPrefix(q: seq<Request>, deficit: nat, tokens: nat, m: nat)
    requires m <= |q|
    ensures m <= Served(q, deficit, tokens) <==> Positive(q[..m]) && Bytes(q[..m]) <= Min(deficit, tokens)
    decreases |q|
  {
    if m > 0 {
      assert q[..m][1..] == q[1..][..m - 1];
      assert q[..m] == [q[0]] + q[1..][..m - 1];
      if !Blocked(q[0], deficit, tokens) {
        ServedIsLongestPrefix(q[1..], deficit - q[0].bytes, tokens - q[0].bytes, m - 1);
      }
    }
  }

  lemma ServedEffect(q: seq<Request>, deficit: nat, tokens: nat)
    ensures var n := Served(q, deficit, tokens);
      && Positive(q[..n]) && Bytes(q[..n]) <= deficit && Bytes(q[..n]) <= tokens
      && Bytes(q) == Bytes(q[..n]) + Bytes(q[n..])
      && (n < |q| ==> Blocked(q[n], deficit - Bytes(q[..n]), tokens - Bytes(q[..n])))
  {
    hide Served;
    var n := Served(q, deficit, tokens);
    ServedIsLongestPrefix(q, deficit, tokens, n);
    BytesConcat(q[..n], q[n..]);
    assert q == q[..n] + q[n..];
    if n < |q| {
      ServedIsLongestPrefix(q, deficit, tokens, n + 1);
      assert q[..n + 1] == q[..n] + [q[n]];
      BytesConcat(q[..n], [q[n]]);
      assert Bytes([q[n]]) == q[n].bytes;
    }
  }

  // ---- One pass ----

  /** The bucket is capped again once nobody waits. */
  function Clamp(s: Sched, cap: nat): Sched {
    if s.classes == map[] then s.(tokens := Min(s.tokens, cap)) else s
  }

  /** Visits one class, taken from the front of the rotation. `s.order` holds the classes that
      have been put back behind it. */
  function Visit(s: Sched, k: FairnessKey, cap: nat): Sched {
    if k !in s.classes || s.classes[k].queue == [] then s.(classes := s.classes - {k})
    else
      var q, deficit := s.classes[k].queue, SaturatingAdd(s.classes[k].deficit, LEASE_QUANTUM);
      var n := Served(q, deficit, s.tokens);
      ServedEffect(q, deficit, s.tokens);
      var t := s.(tokens := s.tokens - Bytes(q[..n]), log := s.log + q[..n]);
      Clamp(
        if n == |q| then t.(classes := s.classes - {k})
        else t.(classes := s.classes[k := ClassState(deficit - Bytes(q[..n]), q[n..])], order := s.order + [k]),
        cap)
  }

  function Pass(s: Sched, todo: seq<FairnessKey>, cap: nat): Sched
    decreases |todo|
  {
    if todo == [] then s else Pass(Visit(s, todo[0], cap), todo[1..], cap)
  }

  /** `serve_waiters`. */
  function Serve(s: Sched, cap: nat): Sched { Pass(s.(order := []), s.order, cap) }

  // ---- Structure ----

  /** `ks` names every class in the map, once. */
  ghost predicate Lists(ks: seq<FairnessKey>, classes: Classes) { multiset(ks) == multiset(classes.Keys) }

  lemma ListsOnce(ks: seq<FairnessKey>, classes: Classes)
    requires Lists(ks, classes)
    ensures forall k :: k in ks <==> k in classes
    ensures forall i, j :: 0 <= i < j < |ks| ==> ks[i] != ks[j]
  {
    assert forall k :: k in ks <==> k in multiset(ks);
    forall i, j | 0 <= i < j < |ks| ensures ks[i] != ks[j] {
      assert ks == ks[..i] + [ks[i]] + ks[i + 1..j] + [ks[j]] + ks[j + 1..];
      assert multiset(ks)[ks[i]] <= 1;
    }
  }

  ghost predicate ClassesOk(classes: Classes) {
    forall k :: k in classes ==> classes[k].queue != [] && AllOf(k, classes[k].queue)
  }

  /** The rotation lists exactly the classes in the map, once each, and each has a waiter. */
  ghost predicate Valid(s: Sched) { Lists(s.order, s.classes) && ClassesOk(s.classes) }

  /** `Valid`, in the middle of a pass. */
  ghost predicate Ready(s: Sched, todo: seq<FairnessKey>) {
    Lists(todo + s.order, s.classes) && ClassesOk(s.classes)
  }

  function Queue(s: Sched, k: FairnessKey): seq<Request> { if k in s.classes then s.classes[k].queue else [] }

  /** Everything class `k` has been granted or waits for, oldest first. */
  function History(s: Sched, k: FairnessKey): seq<Request> { Of(k, s.log) + Queue(s, k) }

  ghost function QueueBytes(classes: Classes): map<FairnessKey, nat> { map k | k in classes :: Bytes(classes[k].queue) }

  ghost function Backlog(s: Sched): nat { Sum(QueueBytes(s.classes)) }

  // ---- What one visit does ----

  lemma VisitShape(s: Sched, k: FairnessKey, cap: nat)
    requires k in s.classes && s.classes[k].queue != []
    ensures var q, deficit := s.classes[k].queue, SaturatingAdd(s.classes[k].deficit, LEASE_QUANTUM);
      var t, n := Visit(s, k, cap), Served(q, deficit, s.tokens);
      var paid := Bytes(q[..n]);
      && paid <= deficit && paid <= s.tokens
      && t.log == s.log + q[..n]
      && (if n == |q| then t.classes == s.classes - {k} && t.order == s.order
          else t.classes == s.classes[k := ClassState(deficit - paid, q[n..])] && t.order == s.order + [k])
      && t.tokens == if t.classes == map[] then Min(s.tokens - paid, cap) else s.tokens - paid
  {
    hide Served, Bytes;
    ServedEffect(s.classes[k].queue, SaturatingAdd(s.classes[k].deficit, LEASE_QUANTUM), s.tokens);
  }

  lemma VisitSelf(s: Sched, k: FairnessKey, cap: nat)
    requires k in s.classes && s.classes[k].queue != []
    ensures var t, deficit := Visit(s, k, cap), SaturatingAdd(s.classes[k].deficit, LEASE_QUANTUM);
      && s.log <= t.log && t.tokens <= s.tokens
      && t.tokens + Bytes(t.log) <= s.tokens + Bytes(s.log)
      && (t.classes != map[] ==> t.tokens + Bytes(t.log) == s.tokens + Bytes(s.log))
      && (t.classes == map[] ==> t.tokens == Min(s.tokens + Bytes(s.log) - Bytes(t.log), cap))
      && t.classes - {k} == s.classes - {k}
      && t.order == (if k in t.classes then s.order + [k] else s.order)
      && Positive(t.log[|s.log|..]) && Bytes(t.log[|s.log|..]) <= deficit
      && s.classes[k].queue == t.log[|s.log|..] + Queue(t, k)
      && (k in t.classes ==>
        && t.classes[k].deficit + Bytes(t.log[|s.log|..]) == deficit
        && t.classes[k].queue != []
        && Blocked(t.classes[k].queue[0], t.classes[k].deficit, t.tokens))
  {
    hide Served, Visit, Bytes, Blocked, Positive, SaturatingAdd;
    var q, deficit := s.classes[k].queue, SaturatingAdd(s.classes[k].deficit, LEASE_QUANTUM);
    var t, n := Visit(s, k, cap), Served(q, deficit, s.tokens);
    VisitShape(s, k, cap);
    ServedEffect(q, deficit, s.tokens);
    BytesConcat(s.log, q[..n]);
    assert q == q[..n] + q[n..];
    assert t.log[|s.log|..] == q[..n];
    if n == |q| {
      assert q[..n] + [] == q;
    } else {
      assert k in t.classes;
    }
  }

  lemma KeysOfRest(k: FairnessKey, rest: seq<FairnessKey>, keys: set<FairnessKey>)
    requires multiset([k] + rest) == multiset(keys)
    ensures k in keys && multiset(rest) == multiset(keys - {k})
  {
    assert multiset([k] + rest) == multiset{k} + multiset(rest);
    assert k in multiset([k] + rest);
    assert multiset(keys) - multiset{k} == multiset(keys - {k});
  }

  lemma KeysWithLast(k: FairnessKey, rest: seq<FairnessKey>, keys: set<FairnessKey>)
    requires k in keys && multiset(rest) == multiset(keys - {k})
    ensures multiset(rest + [k]) == multiset(keys)
  {
    assert multiset(rest + [k]) == multiset(rest) + multiset{k};
  }

  /** Taking a class off the front, and putting it back behind if it still waits. */
  lemma RotateLists(k: FairnessKey, rest: seq<FairnessKey>, before: Classes, after: Classes)
    requires Lists([k] + rest, before) && after - {k} == before - {k}
    ensures Lists(if k in after then rest + [k] else rest, after)
  {
    var keys := after.Keys;
    assert keys - {k} == (after - {k}).Keys == (before - {k}).Keys == before.Keys - {k};
    KeysOfRest(k, rest, before.Keys);
    if k in after {
      KeysWithLast(k, rest, keys);
    } else {
      assert keys == keys - {k};
    }
  }

  lemma VisitLists(s: Sched, todo: seq<FairnessKey>, cap: nat)
    requires todo != [] && Ready(s, todo)
    ensures var t := Visit(s, todo[0], cap); Lists(todo[1..] + t.order, t.classes)
  {
    hide Visit, Bytes, Blocked, Lists, ClassesOk;
    var k := todo[0];
    var t := Visit(s, k, cap);
    ReadyHead(s, todo);
    VisitSelf(s, k, cap);
    var rest := todo[1..] + s.order;
    assert todo + s.order == [k] + rest;
    RotateLists(k, rest, s.classes, t.classes);
    assert todo[1..] + (s.order + [k]) == rest + [k];
  }

  lemma OtherClass(before: Classes, after: Classes, k: FairnessKey, j: FairnessKey)
    requires after - {k} == before - {k} && j != k
    ensures j in after <==> j in before
    ensures j in after ==> after[j] == before[j]
  {
    assert j in before <==> j in before - {k};
    assert j in after <==> j in after - {k};
    assert j in after ==> after[j] == (after - {k})[j] == (before - {k})[j];
  }

  lemma VisitReady(s: Sched, todo: seq<FairnessKey>, cap: nat)
    requires todo != [] && Ready(s, todo)
    ensures Ready(Visit(s, todo[0], cap), todo[1..])
  {
    hide Visit, Bytes, Blocked, Lists;
    var k := todo[0];
    var t := Visit(s, k, cap);
    ReadyHead(s, todo);
    VisitLists(s, todo, cap);
    VisitSelf(s, k, cap);
    var q := s.classes[k].queue;
    assert Queue(t, k) == q[|q| - |Queue(t, k)|..];
    forall j | j in t.classes ensures t.classes[j].queue != [] && AllOf(j, t.classes[j].queue) {
      if j != k {
        OtherClass(s.classes, t.classes, k, j);
      }
    }
  }

  lemma VisitHistory(s: Sched, todo: seq<FairnessKey>, cap: nat, j: FairnessKey)
    requires todo != [] && Ready(s, todo)
    ensures History(Visit(s, todo[0], cap), j) == History(s, j)
  {
    hide Visit, Of, Bytes, Blocked, Positive, Lists, SaturatingAdd;
    var k := todo[0];
    var t := Visit(s, k, cap);
    ReadyHead(s, todo);
    VisitSelf(s, k, cap);
    var part := t.log[|s.log|..];
    assert t.log == s.log + part;
    assert part == s.classes[k].queue[..|part|];
    OfAppend(j, k, s.log, part);
    if j == k {
      assert Of(k, s.log) + part + Queue(t, k) == Of(k, s.log) + (part + Queue(t, k));
    } else {
      OtherClass(s.classes, t.classes, k, j);
      assert Of(j, s.log) + [] == Of(j, s.log);
    }
  }

  lemma BacklogSplit(s: Sched, k: FairnessKey)
    ensures Backlog(s) == Bytes(Queue(s, k)) + Sum(QueueBytes(s.classes - {k}))
  {
    hide Sum, Bytes;
    var m := QueueBytes(s.classes);
    assert m - {k} == QueueBytes(s.classes - {k});
    if k in m {
      SumRemove(m, k);
    } else {
      assert m - {k} == m;
      NoBytes();
    }
  }

  lemma NoBytes()
    ensures Bytes([]) == 0
  {
  }

  lemma VisitBacklog(s: Sched, k: FairnessKey, cap: nat)
    requires k in s.classes && s.classes[k].queue != []
    ensures var t := Visit(s, k, cap); Backlog(t) + Bytes(t.log) == Backlog(s) + Bytes(s.log)
  {
    hide Visit, Sum, Bytes;
    var t := Visit(s, k, cap);
    VisitSelf(s, k, cap);
    BacklogSplit(s, k);
    BacklogSplit(t, k);
    var part := t.log[|s.log|..];
    assert t.log == s.log + part;
    BytesConcat(s.log, part);
    BytesConcat(part, Queue(t, k));
  }

  // ---- What one pass does ----

  /** A pass touches only the classes it visits, and adds none. */
  lemma {:induction false} PassFrame(s: Sched, todo: seq<FairnessKey>, cap: nat)
    ensures var t := Pass(s, todo, cap);
      && t.classes.Keys <= s.classes.Keys
      && forall j :: j in s.classes && j !in todo ==> j in t.classes && t.classes[j] == s.classes[j]
    decreases |todo|
  {
    if todo != [] {
      var u := Visit(s, todo[0], cap);
      assert u.classes - {todo[0]} == s.classes - {todo[0]} && u.classes.Keys <= s.classes.Keys by {
        VisitFrame(s, todo[0], cap);
      }
      forall j | j in s.classes && j !in todo ensures j in u.classes && u.classes[j] == s.classes[j] {
        assert j in s.classes - {todo[0]};
        assert u.classes[j] == (u.classes - {todo[0]})[j] == (s.classes - {todo[0]})[j];
      }
      PassFrame(u, todo[1..], cap);
    }
  }

  lemma VisitFrame(s: Sched, k: FairnessKey, cap: nat)
    ensures var t := Visit(s, k, cap); t.classes - {k} == s.classes - {k} && t.classes.Keys <= s.classes.Keys
  {
    hide Served;
  }

  /** After a pass the rotation is the old one without the classes that have been emptied. */
  function Remaining(todo: seq<FairnessKey>, classes: Classes): seq<FairnessKey> {
    if todo == [] then []
    else (if todo[0] in classes then [todo[0]] else []) + Remaining(todo[1..], classes)
  }

  lemma {:induction false} PassReady(s: Sched, todo: seq<FairnessKey>, cap: nat)
    requires Ready(s, todo)
    ensures Ready(Pass(s, todo, cap), [])
    decreases |todo|
  {
    hide Visit, Ready;
    if todo != [] {
      VisitReady(s, todo, cap);
      PassReady(Visit(s, todo[0], cap), todo[1..], cap);
    }
  }

  lemma {:induction false} PassOrder(s: Sched, todo: seq<FairnessKey>, cap: nat)
    requires Ready(s, todo)
    ensures var t := Pass(s, todo, cap); t.order == s.order + Remaining(todo, t.classes)
    decreases |todo|
  {
    hide Visit, Ready, Bytes, Blocked, Remaining;
    if todo == [] {
      assert Remaining(todo, s.classes) == [] by {
        NothingRemains(s.classes);
      }
      assert s.order + [] == s.order;
    } else {
      var k, u := todo[0], Visit(s, todo[0], cap);
      ReadyHead(s, todo);
      VisitReady(s, todo, cap);
      assert u.order == if k in u.classes then s.order + [k] else s.order by {
        VisitSelf(s, k, cap);
      }
      PassOrder(u, todo[1..], cap);
      PassFrame(u, todo[1..], cap);
      RemainingStep(s.order, todo, Pass(u, todo[1..], cap).classes);
    }
  }

  lemma NothingRemains(classes: Classes)
    ensures Remaining([], classes) == []
  {
  }

  lemma RemainingStep(order: seq<FairnessKey>, todo: seq<FairnessKey>, classes: Classes)
    requires todo != []
    ensures order + Remaining(todo, classes) ==
      (if todo[0] in classes then order + [todo[0]] else order) + Remaining(todo[1..], classes)
  {
    var rest := Remaining(todo[1..], classes);
    assert order + ([todo[0]] + rest) == (order + [todo[0]]) + rest;
    assert [] + rest == rest;
  }

  lemma ReadyHead(s: Sched, todo: seq<FairnessKey>)
    requires todo != [] && Ready(s, todo)
    ensures todo[0] in s.classes && s.classes[todo[0]].queue != []
    ensures todo[0] !in todo[1..]
  {
    var k, rest := todo[0], todo[1..] + s.order;
    assert todo + s.order == [k] + rest;
    assert multiset([k] + rest) == multiset{k} + multiset(rest);
    assert k in multiset(todo + s.order) && k !in multiset(rest);
    assert k in s.classes;
    assert todo[1..] <= rest;
  }

  /** Nothing is lost, repeated or reordered within a class. */
  lemma {:induction false} PassHistory(s: Sched, todo: seq<FairnessKey>, cap: nat, j: FairnessKey)
    requires Ready(s, todo)
    ensures History(Pass(s, todo, cap), j) == History(s, j)
    decreases |todo|
  {
    hide Visit, Ready, History;
    if todo != [] {
      VisitReady(s, todo, cap);
      VisitHistory(s, todo, cap, j);
      PassHistory(Visit(s, todo[0], cap), todo[1..], cap, j);
    }
  }

  /** Tokens pay for grants, byte for byte, until the clamp; the backlog shrinks by the same. */
  lemma {:induction false} PassTokens(s: Sched, todo: seq<FairnessKey>, cap: nat)
    requires Ready(s, todo)
    ensures var t := Pass(s, todo, cap);
      && s.log <= t.log && t.tokens <= s.tokens
      && t.tokens + Bytes(t.log) <= s.tokens + Bytes(s.log)
      && (t.classes != map[] ==> t.tokens + Bytes(t.log) == s.tokens + Bytes(s.log))
      && (t.classes == map[] && todo != [] ==> t.tokens == Min(s.tokens + Bytes(s.log) - Bytes(t.log), cap))
      && Backlog(t) + Bytes(t.log) == Backlog(s) + Bytes(s.log)
      && Positive(t.log[|s.log|..])
    decreases |todo|
  {
    hide Visit, Ready, Backlog, Bytes;
    if todo != [] {
      var k := todo[0];
      var u := Visit(s, k, cap);
      ReadyHead(s, todo);
      VisitReady(s, todo, cap);
      VisitSelf(s, k, cap);
      VisitBacklog(s, k, cap);
      PassTokens(u, todo[1..], cap);
      PassFrame(u, todo[1..], cap);
      var t := Pass(s, todo, cap);
      assert t.log[|s.log|..] == u.log[|s.log|..] + t.log[|u.log|..];
      if t.classes != map[] {
        var j :| j in t.classes;
        assert j in u.classes;
      }
      if todo[1..] == [] {
        assert t == u;
      } else {
        ReadyHead(u, todo[1..]);
      }
    }
  }

  /** The credit a class has left, plus what it was granted, is what it started with plus one quantum. */
  predicate Credited(before: ClassState, after: ClassState) {
    after.deficit + Bytes(before.queue) == SaturatingAdd(before.deficit, LEASE_QUANTUM) + Bytes(after.queue)
  }

  /** Every waiting class is visited exactly once, and what still waits at its head exceeds
      its deficit or the tokens left. */
  lemma {:induction false} PassCredit(s: Sched, todo: seq<FairnessKey>, cap: nat, j: FairnessKey)
    requires Ready(s, todo) && j in todo && j in Pass(s, todo, cap).classes
    ensures var t := Pass(s, todo, cap);
      && j in s.classes && Credited(s.classes[j], t.classes[j])
      && t.classes[j].queue != [] && Blocked(t.classes[j].queue[0], t.classes[j].deficit, t.tokens)
    decreases |todo|
  {
    hide Visit, Bytes, ClassesOk;
    var k, u := todo[0], Visit(s, todo[0], cap);
    VisitReady(s, todo, cap);
    ReadyHead(s, todo);
    VisitSelf(s, k, cap);
    PassFrame(u, todo[1..], cap);
    PassTokens(u, todo[1..], cap);
    if j == k {
      BytesConcat(u.log[|s.log|..], Queue(u, k));
    } else {
      PassCredit(u, todo[1..], cap, j);
      OtherClass(s.classes, u.classes, k, j);
    }
  }

  lemma SameQueueSameLog(s: Sched, t: Sched, j: FairnessKey)
    requires History(t, j) == History(s, j) && Queue(t, j) == Queue(s, j)
    ensures Of(j, t.log) == Of(j, s.log)
  {
    hide Of;
    var a, b, q := Of(j, t.log), Of(j, s.log), Queue(s, j);
    assert (a + q)[..|a|] == a && (b + q)[..|b|] == b;
  }

  lemma VisitSkips(s: Sched, todo: seq<FairnessKey>, cap: nat, j: FairnessKey)
    requires todo != [] && Ready(s, todo) && j != todo[0]
    ensures var t := Visit(s, todo[0], cap);
      && Of(j, t.log) == Of(j, s.log)
      && (j in s.classes <==> j in t.classes) && (j in s.classes ==> t.classes[j] == s.classes[j])
  {
    hide Visit, Ready, History, Of;
    var k, t := todo[0], Visit(s, todo[0], cap);
    VisitHistory(s, todo, cap, j);
    VisitFrame(s, k, cap);
    OtherClass(s.classes, t.classes, k, j);
    SameQueueSameLog(s, t, j);
  }

  lemma {:induction false} PassSkips(s: Sched, todo: seq<FairnessKey>, cap: nat, j: FairnessKey)
    requires Ready(s, todo) && j !in todo
    ensures Of(j, Pass(s, todo, cap).log) == Of(j, s.log)
    decreases |todo|
  {
    hide Visit, Ready, Of;
    if todo != [] {
      VisitReady(s, todo, cap);
      VisitSkips(s, todo, cap, j);
      PassSkips(Visit(s, todo[0], cap), todo[1..], cap, j);
    }
  }

  lemma VisitGrants(s: Sched, todo: seq<FairnessKey>, cap: nat)
    requires todo != [] && Ready(s, todo)
    ensures todo[0] in s.classes
    ensures var k := todo[0];
      Bytes(Of(k, Visit(s, k, cap).log)) <= Bytes(Of(k, s.log)) + SaturatingAdd(s.classes[k].deficit, LEASE_QUANTUM)
  {
    hide Visit, Of, Bytes, Blocked, Positive, Lists, SaturatingAdd;
    var k := todo[0];
    var t := Visit(s, k, cap);
    ReadyHead(s, todo);
    VisitSelf(s, k, cap);
    var part := t.log[|s.log|..];
    assert t.log == s.log + part;
    assert part == s.classes[k].queue[..|part|];
    OfAppend(k, k, s.log, part);
    BytesConcat(Of(k, s.log), part);
  }

  /** In one pass a class is granted at most its deficit and one quantum, whether or not it is
      emptied. */
  lemma {:induction false} PassGrants(s: Sched, todo: seq<FairnessKey>, cap: nat, j: FairnessKey)
    requires Ready(s, todo) && j in todo
    ensures j in s.classes
    ensures Bytes(Of(j, Pass(s, todo, cap).log)) <=
      Bytes(Of(j, s.log)) + SaturatingAdd(s.classes[j].deficit, LEASE_QUANTUM)
    decreases |todo|
  {
    hide Visit, Ready, Of, Bytes, SaturatingAdd;
    var k, u := todo[0], Visit(s, todo[0], cap);
    VisitReady(s, todo, cap);
    if j == k {
      ReadyHead(s, todo);
      VisitGrants(s, todo, cap);
      PassSkips(u, todo[1..], cap, j);
    } else {
      VisitSkips(s, todo, cap, j);
      PassGrants(u, todo[1..], cap, j);
    }
  }

  /** The grants of a pass, class by class in the order of the rotation. */
  function Grouped(todo: seq<FairnessKey>, grants: seq<Request>): seq<Request> {
    if todo == [] then [] else Of(todo[0], grants) + Grouped(todo[1..], grants)
  }

  lemma {:induction false} GroupedSkips(todo: seq<FairnessKey>, k: FairnessKey, part: seq<Request>, rest: seq<Request>)
    requires AllOf(k, part) && k !in todo
    ensures Grouped(todo, part + rest) == Grouped(todo, rest)
    decreases |todo|
  {
    hide Of;
    if todo != [] {
      assert todo[0] in todo;
      OfConcat(todo[0], part, rest);
      OfClass(todo[0], k, part);
      assert [] + Of(todo[0], rest) == Of(todo[0], rest);
      GroupedSkips(todo[1..], k, part, rest);
    }
  }

  lemma {:induction false} OfOthers(k: FairnessKey, grants: seq<Request>)
    requires forall i :: 0 <= i < |grants| ==> grants[i].key != k
    ensures Of(k, grants) == []
  {
    if grants != [] {
      OfOthers(k, grants[..|grants| - 1]);
    }
  }

  /** A pass serves the classes one after the other, in the order of the rotation. */
  lemma {:induction false} PassFollowsRotation(s: Sched, todo: seq<FairnessKey>, cap: nat)
    requires Ready(s, todo)
    ensures var t := Pass(s, todo, cap);
      && s.log <= t.log
      && t.log[|s.log|..] == Grouped(todo, t.log[|s.log|..])
      && forall i :: |s.log| <= i < |t.log| ==> t.log[i].key in todo
    decreases |todo|
  {
    hide Visit, Of, Bytes, Blocked;
    if todo != [] {
      var k, u := todo[0], Visit(s, todo[0], cap);
      ReadyHead(s, todo);
      VisitReady(s, todo, cap);
      VisitSelf(s, k, cap);
      PassFollowsRotation(u, todo[1..], cap);
      var t := Pass(s, todo, cap);
      var part, rest := u.log[|s.log|..], t.log[|u.log|..];
      assert t.log[|s.log|..] == part + rest;
      assert part == s.classes[k].queue[..|part|];
      OfConcat(k, part, rest);
      OfClass(k, k, part);
      OfOthers(k, rest);
      assert part + [] == part;
      GroupedSkips(todo[1..], k, part, rest);
    }
  }
}
