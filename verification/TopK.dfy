/** The bounded per-class byte tracker: a Space-Saving table. */
module TopK {
  import opened Sums

  type Label = string

  datatype Table = Table(cap: nat, classes: map<Label, nat>, residual: nat)

  datatype Event = Event(who: Label, bytes: nat)

  predicate IsMin(classes: map<Label, nat>, k: Label) {
    k in classes && forall l :: l in classes ==> classes[k] <= classes[l]
  }

  /** What one `record` does. A tie for the minimum may be broken either way. */
  ghost predicate Records(t: Table, e: Event, t': Table) {
    && t'.cap == t.cap
    && if e.who in t.classes then
         t'.classes == t.classes[e.who := t.classes[e.who] + e.bytes] && t'.residual == t.residual
       else if |t.classes| < t.cap then
         t'.classes == t.classes[e.who := e.bytes] && t'.residual == t.residual
       else
         exists k :: Evicts(t, k, e, t')
  }

  ghost predicate Evicts(t: Table, k: Label, e: Event, t': Table) {
    && IsMin(t.classes, k)
    && t'.classes == (t.classes - {k})[e.who := t.classes[k] + e.bytes]
    && t'.residual == t.residual + t.classes[k]
  }

  function Empty(cap: nat): Table { Table(cap, map[], 0) }

  /** `states` is a run of the tracker over `events`, from an empty table. */
  ghost predicate IsRun(events: seq<Event>, states: seq<Table>) {
    && |states| == |events| + 1
    && states[0].cap >= 1 && states[0] == Empty(states[0].cap)
    && forall i :: 0 <= i < |events| ==> Records(states[i], events[i], states[i + 1])
  }

  // ---- What really happened ----

  function TrueBytes(events: seq<Event>, l: Label): nat {
    if events == [] then 0
    else TrueBytes(events[..|events| - 1], l) + if events[|events| - 1].who == l then events[|events| - 1].bytes else 0
  }

  function TotalBytes(events: seq<Event>): nat {
    if events == [] then 0 else TotalBytes(events[..|events| - 1]) + events[|events| - 1].bytes
  }

  // ---- The invariant ----

  ghost predicate SpaceSaving(t: Table, events: seq<Event>) {
    && t.cap >= 1 && |t.classes| <= t.cap
    && Sum(t.classes) == TotalBytes(events)
    && Bounds(t.classes, events)
    && (|t.classes| < t.cap ==> t.residual == 0 && Exact(t.classes, events))
  }

  /** Every count is between the truth and the truth plus the smallest count, and no untracked
      label has more than the smallest count. */
  ghost predicate Bounds(m: map<Label, nat>, events: seq<Event>) {
    && (forall l :: l in m ==> TrueBytes(events, l) <= m[l])
    && (forall l, k :: l in m && k in m ==> m[l] <= TrueBytes(events, l) + m[k])
    && (forall l, k :: l !in m && k in m ==> TrueBytes(events, l) <= m[k])
  }

  ghost predicate Exact(m: map<Label, nat>, events: seq<Event>) {
    forall l :: TrueBytes(events, l) == if l in m then m[l] else 0
  }

  lemma TruthSnoc(events: seq<Event>, e: Event, l: Label)
    ensures TrueBytes(events + [e], l) == TrueBytes(events, l) + if e.who == l then e.bytes else 0
    ensures TotalBytes(events + [e]) == TotalBytes(events) + e.bytes
  {
    assert (events + [e])[..|events|] == events;
  }

  /** `after` credits `e` to its label and to no other. */
  ghost predicate Credits(events: seq<Event>, e: Event, after: seq<Event>) {
    forall l :: TrueBytes(after, l) == TrueBytes(events, l) + if e.who == l then e.bytes else 0
  }

  lemma AppendCredits(events: seq<Event>, e: Event)
    ensures Credits(events, e, events + [e])
  {
    hide TrueBytes;
    forall l ensures TrueBytes(events + [e], l) == TrueBytes(events, l) + if e.who == l then e.bytes else 0 {
      TruthSnoc(events, e, l);
    }
  }

  lemma KnownLabel(m: map<Label, nat>, events: seq<Event>, e: Event, after: seq<Event>)
    requires e.who in m && Bounds(m, events) && Credits(events, e, after)
    ensures Bounds(m[e.who := m[e.who] + e.bytes], after)
    ensures Exact(m, events) ==> Exact(m[e.who := m[e.who] + e.bytes], after)
  {
    hide TrueBytes;
  }

  lemma KnownSum(m: map<Label, nat>, k: Label, more: nat)
    requires k in m
    ensures Sum(m[k := m[k] + more]) == Sum(m) + more && |m[k := m[k] + more]| == |m|
  {
    hide Sum;
    SumRemove(m, k);
    SumUpdate(m, k, m[k] + more);
    assert m[k := m[k] + more].Keys == m.Keys;
  }

  lemma NewLabel(m: map<Label, nat>, events: seq<Event>, e: Event, after: seq<Event>)
    requires e.who !in m && Exact(m, events) && Credits(events, e, after)
    ensures Exact(m[e.who := e.bytes], after)
  {
    hide TrueBytes;
  }

  lemma ExactIsBounded(m: map<Label, nat>, events: seq<Event>)
    requires Exact(m, events)
    ensures Bounds(m, events)
  {
    hide TrueBytes;
  }

  lemma NewSum(m: map<Label, nat>, k: Label, bytes: nat)
    requires k !in m
    ensures Sum(m[k := bytes]) == Sum(m) + bytes && |m[k := bytes]| == |m| + 1
  {
    hide Sum;
    SumUpdate(m, k, bytes);
    assert m - {k} == m;
    assert m[k := bytes].Keys == m.Keys + {k};
  }

  lemma Replacement(m: map<Label, nat>, k: Label, events: seq<Event>, e: Event, after: seq<Event>)
    requires e.who !in m && IsMin(m, k) && Bounds(m, events) && Credits(events, e, after)
    ensures Bounds((m - {k})[e.who := m[k] + e.bytes], after)
  {
    hide TrueBytes;
    var n := (m - {k})[e.who := m[k] + e.bytes];
    assert forall l :: l in n ==> n[l] >= m[k];
  }

  lemma ReplacementSum(m: map<Label, nat>, k: Label, j: Label, more: nat)
    requires k in m && j !in m
    ensures var n := (m - {k})[j := m[k] + more]; Sum(n) == Sum(m) + more && |n| == |m|
  {
    hide Sum;
    SumRemove(m, k);
    NewSum(m - {k}, j, m[k] + more);
    assert (m - {k}).Keys == m.Keys - {k};
  }

  lemma RecordKeepsInvariant(t: Table, events: seq<Event>, e: Event, t': Table)
    requires SpaceSaving(t, events) && Records(t, e, t')
    ensures SpaceSaving(t', events + [e])
  {
    hide Sum, TrueBytes, TotalBytes, Bounds, Exact, Credits, IsMin;
    var m, after := t.classes, events + [e];
    AppendCredits(events, e);
    TruthSnoc(events, e, e.who);
    if e.who in m {
      KnownLabel(m, events, e, after);
      KnownSum(m, e.who, e.bytes);
    } else if |m| < t.cap {
      NewLabel(m, events, e, after);
      ExactIsBounded(t'.classes, after);
      NewSum(m, e.who, e.bytes);
    } else {
      var k :| Evicts(t, k, e, t');
      MinIsTracked(m, k);
      Replacement(m, k, events, e, after);
      ReplacementSum(m, k, e.who, e.bytes);
    }
  }

  lemma MinIsTracked(m: map<Label, nat>, k: Label)
    requires IsMin(m, k)
    ensures k in m
  {
  }

  lemma {:induction false} RunKeepsInvariant(events: seq<Event>, states: seq<Table>)
    requires IsRun(events, states)
    ensures SpaceSaving(states[|events|], events)
    decreases |events|
  {
    if events != [] {
      var n := |events| - 1;
      RunKeepsInvariant(events[..n], states[..n + 1]);
      RecordKeepsInvariant(states[n], events[..n], events[n], states[n + 1]);
      assert events == events[..n] + [events[n]];
    }
  }

  // ---- What the tracker promises over every run ----

  /** At most `cap` labels; counts that sum to every byte recorded; a tracked count is never
      below the truth and exceeds it by at most the smallest count; an untracked label never
      has more bytes than the smallest count. */
  lemma SpaceSavingGuarantee(events: seq<Event>, states: seq<Table>)
    requires IsRun(events, states)
    ensures var t := states[|events|];
      && |t.classes| <= t.cap
      && Sum(t.classes) == TotalBytes(events)
      && (forall l, k :: l in t.classes && k in t.classes ==>
        TrueBytes(events, l) <= t.classes[l] <= TrueBytes(events, l) + t.classes[k])
      && (forall l, k :: l !in t.classes && k in t.classes ==> TrueBytes(events, l) <= t.classes[k])
  {
    RunKeepsInvariant(events, states);
  }

  /** Any label with more than its 1/cap share of the bytes is tracked. */
  lemma HeavyHittersAreTracked(events: seq<Event>, states: seq<Table>, l: Label)
    requires IsRun(events, states)
    requires TrueBytes(events, l) * states[|events|].cap > TotalBytes(events)
    ensures l in states[|events|].classes
  {
    hide Sum, TrueBytes, TotalBytes;
    RunKeepsInvariant(events, states);
    var t := states[|events|];
    var share := TrueBytes(events, l);
    if l !in t.classes {
      assert |t.classes| == t.cap;
      SumAtLeast(t.classes, share);
    }
  }

  // ---- The residual counter ----

  /** What the snapshot adds up to: the counts of the table and the residual. */
  ghost function Reported(t: Table): nat { Sum(t.classes) + t.residual }

  function Labels(events: seq<Event>): set<Label> { set i | 0 <= i < |events| :: events[i].who }

  ghost predicate AllPositive(events: seq<Event>) { forall i :: 0 <= i < |events| ==> events[i].bytes > 0 }

  lemma LabelsSnoc(events: seq<Event>)
    requires events != []
    ensures Labels(events) == Labels(events[..|events| - 1]) + {events[|events| - 1].who}
    ensures |Labels(events[..|events| - 1])| <= |Labels(events)|
  {
    var n := |events| - 1;
    forall l | l in Labels(events[..n]) ensures l in Labels(events) {
      var i :| 0 <= i < n && events[..n][i].who == l;
      assert events[i].who == l;
    }
    forall l | l in Labels(events) ensures l in Labels(events[..n]) + {events[n].who} {
      var i :| 0 <= i < |events| && events[i].who == l;
      assert i < n ==> events[..n][i].who == l;
    }
    assert events[n].who in Labels(events);
    var s, u := Labels(events[..n]), {events[n].who} - Labels(events[..n]);
    assert Labels(events) == s + u;
  }

  /** Nothing is evicted exactly as long as the distinct labels fit the table; until then the
      table holds every label, with a positive count. */
  lemma {:induction false} ResidualIffOverflow(events: seq<Event>, states: seq<Table>)
    requires IsRun(events, states) && AllPositive(events)
    ensures var t := states[|events|];
      && (t.residual == 0 <==> |Labels(events)| <= t.cap)
      && (t.residual == 0 ==> t.classes.Keys == Labels(events))
      && forall l :: l in t.classes ==> t.classes[l] > 0
    decreases |events|
  {
    hide TrueBytes, TotalBytes, Sum;
    RunKeepsInvariant(events, states);
    if events != [] {
      var n := |events| - 1;
      assert IsRun(events[..n], states[..n + 1]);
      ResidualIffOverflow(events[..n], states[..n + 1]);
      LabelsSnoc(events);
      EvictionAddsToResidual(states[n], events[n], states[n + 1]);
      assert events[n].bytes > 0;
    }
  }

  lemma EvictionAddsToResidual(t: Table, e: Event, t': Table)
    requires Records(t, e, t') && e.bytes > 0 && forall l :: l in t.classes ==> t.classes[l] > 0
    ensures t'.cap == t.cap
    ensures forall l :: l in t'.classes ==> t'.classes[l] > 0
    ensures e.who in t.classes || |t.classes| < t.cap ==>
      t'.residual == t.residual && t'.classes.Keys == t.classes.Keys + {e.who}
    ensures e.who !in t.classes && |t.classes| >= t.cap ==> t'.residual > t.residual
  {
  }

  /** The smallest count of a table. */
  ghost function Smallest(m: map<Label, nat>): nat
    requires m != map[]
  {
    MinExists(m);
    var k :| IsMin(m, k);
    m[k]
  }

  lemma {:induction false} MinExists(m: map<Label, nat>)
    requires m != map[]
    ensures exists k :: IsMin(m, k)
    decreases |m|
  {
    var j :| j in m;
    var rest := m - {j};
    if rest == map[] {
      assert forall l :: l in m && l != j ==> l in rest;
      assert IsMin(m, j);
    } else {
      assert rest.Keys == m.Keys - {j};
      MinExists(rest);
      var k :| IsMin(rest, k);
      assert forall l :: l in m && l != j ==> l in rest;
      if m[j] <= m[k] {
        assert IsMin(m, j);
      } else {
        assert IsMin(m, k);
      }
    }
  }

  /** A label that is not tracked while the table is full. */
  predicate Overflows(t: Table, e: Event) { e.who !in t.classes && |t.classes| >= t.cap }

  /** The smallest counts of the table, one for each event that found it full. */
  ghost function Displaced(events: seq<Event>, states: seq<Table>): nat
    requires |states| == |events| + 1
    decreases |events|
  {
    if events == [] then 0
    else
      var n := |events| - 1;
      Displaced(events[..n], states[..n + 1]) +
      if Overflows(states[n], events[n]) && states[n].classes != map[] then Smallest(states[n].classes) else 0
  }

  lemma SmallestIs(m: map<Label, nat>, k: Label)
    requires IsMin(m, k)
    ensures m != map[] && m[k] == Smallest(m)
  {
  }

  /** The residual is what the evicted labels were counted for when they were evicted. */
  lemma {:induction false} ResidualIsDisplaced(events: seq<Event>, states: seq<Table>)
    requires IsRun(events, states)
    ensures states[|events|].residual == Displaced(events, states)
    decreases |events|
  {
    hide Smallest, IsMin;
    if events != [] {
      var n := |events| - 1;
      assert IsRun(events[..n], states[..n + 1]);
      ResidualIsDisplaced(events[..n], states[..n + 1]);
      if Overflows(states[n], events[n]) {
        var k :| Evicts(states[n], k, events[n], states[n + 1]);
        SmallestIs(states[n].classes, k);
      }
    }
  }

  /** The table alone already accounts for every byte, so a snapshot that also shows the
      residual counts every byte once exactly when the distinct labels fit the table. */
  lemma SnapshotCountsEveryByteOnceIff(events: seq<Event>, states: seq<Table>)
    requires IsRun(events, states) && AllPositive(events)
    ensures Reported(states[|events|]) == TotalBytes(events) <==> |Labels(events)| <= states[|events|].cap
  {
    RunKeepsInvariant(events, states);
    ResidualIffOverflow(events, states);
  }

  lemma SumOne(l: Label, n: nat)
    ensures Sum(map[l := n]) == n
  {
    SumRemove(map[l := n], l);
    assert map[l := n] - {l} == map[];
  }

  lemma TotalOfTwo(a: Event, b: Event)
    ensures TotalBytes([a, b]) == a.bytes + b.bytes
  {
    TruthSnoc([], a, a.who);
    TruthSnoc([a], b, b.who);
    assert [] + [a] == [a] && [a] + [b] == [a, b];
  }

  /** One byte for each of two labels in a table of one: two bytes recorded, three reported. */
  lemma EvictionIsCountedTwice()
    ensures exists events, states :: IsRun(events, states) && TotalBytes(events) == 2 && Reported(states[|events|]) == 3
  {
    hide Sum, TotalBytes;
    var a, b := Event("a", 1), Event("b", 1);
    var t0, t1, t2 := Empty(1), Table(1, map["a" := 1], 0), Table(1, map["b" := 2], 1);
    assert Records(t0, a, t1);
    assert Records(t1, b, t2) by {
      assert Evicts(t1, "a", b, t2);
    }
    assert IsRun([a, b], [t0, t1, t2]);
    TotalOfTwo(a, b);
    SumOne("b", 2);
    assert Reported([t0, t1, t2][|[a, b]|]) == 3;
  }

  // ---- The class ----

  class TopKTracker {
    const cap: nat
    var classes: map<Label, nat>
    var residual: nat

    ghost function View(): Table
      reads this
    {
      Table(cap, classes, residual)
    }

    constructor (cap: nat)
      ensures View() == Empty(if cap == 0 then 1 else cap)
    {
      this.cap := if cap == 0 then 1 else cap;
      classes, residual := map[], 0;
    }

    /** The entry with the smallest count. */
    method MinEntry() returns (k: Label)
      requires classes != map[]
      ensures IsMin(classes, k)
    {
      k :| k in classes;
      var rest := classes.Keys - {k};
      while rest != {}
        invariant rest <= classes.Keys && k in classes
        invariant forall l :: l in classes && l !in rest ==> classes[k] <= classes[l]
        decreases |rest|
      {
        var l :| l in rest;
        if classes[l] < classes[k] {
          k := l;
        }
        rest := rest - {l};
      }
    }

    /** `record`. */
    method Record(e: Event)
      requires cap >= 1
      modifies this
      ensures Records(old(View()), e, View())
    {
      if e.who in classes {
        classes := classes[e.who := classes[e.who] + e.bytes];
      } else if |classes| < cap {
        classes := classes[e.who := e.bytes];
      } else {
        var k := MinEntry();
        var count := classes[k];
        residual := residual + count;
        classes := classes - {k};
        classes := classes[e.who := count + e.bytes];
        assert Evicts(old(View()), k, e, View());
      }
    }
  }
}
