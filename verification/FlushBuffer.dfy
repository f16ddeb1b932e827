/** The cache-hit update buffer: recorders and flushers sharing a buffer and a journal. */
module FlushBuffer {
  import opened Basics

  datatype Kind = TtlRefresh(seconds: nat) | AccessUpdate(increment: nat)

  datatype Update = Update(cacheKey: string, rangeStart: nat, rangeEnd: nat, kind: Kind, timestamp: nat)

  /** What the one running flush is doing. */
  datatype Phase =
    | Idle                              // no flush is running
    | Started                           // the flag is taken, the buffer is not
    | Holding(entries: seq<Update>)     // the entries are taken out of the buffer

  /** `inProgress` is the flag; `errors` counts the updates reported as lost, over all flushes. */
  datatype State = State(
    buffer: seq<Update>, inProgress: bool, phase: Phase, journal: seq<Update>,
    recorded: nat, flushed: nat, errors: nat, history: seq<Update>)

  const INITIAL := State([], false, Idle, [], 0, 0, 0, [])

  /** The atomic steps, in the order a flush takes them. `good` says which entries serialise. */
  datatype Step =
    | Record(update: Update)
    | Skip                                          // another flush is running
    | Begin                                         // the flag is set
    | Take                                          // the buffer is emptied into the flush
    | PutBack                                       // no journal directory: the entries go back
    | Append(good: seq<bool>)                       // the journal is extended
    | FailOpen(good: seq<bool>)                     // the journal cannot be opened
    | FailWrite(good: seq<bool>, written: nat)      // only some lines reach the journal

  /** The entries that serialise, in order. */
  function Kept(entries: seq<Update>, good: seq<bool>): (r: seq<Update>)
    requires |good| == |entries|
    ensures |r| <= |entries|
  {
    if entries == [] then []
    else (if good[0] then [entries[0]] else []) + Kept(entries[1..], good[1..])
  }

  predicate Enabled(s: State, step: Step) {
    match step
    case Record(_) => true
    case Skip => s.inProgress
    case Begin => !s.inProgress
    case Take => s.phase.Started?
    case PutBack => s.phase.Holding?
    case Append(good) => s.phase.Holding? && |good| == |s.phase.entries|
    case FailOpen(good) => s.phase.Holding? && |good| == |s.phase.entries|
    case FailWrite(good, written) =>
      s.phase.Holding? && |good| == |s.phase.entries| && written <= |Kept(s.phase.entries, good)|
  }

  function Finished(s: State): State { s.(inProgress := false, phase := Idle) }

  function Next(s: State, step: Step): State
    requires Enabled(s, step)
  {
    match step
    case Record(u) => s.(buffer := s.buffer + [u], recorded := s.recorded + 1, history := s.history + [u])
    case Skip => s
    case Begin => s.(inProgress := true, phase := Started)
    case Take => if s.buffer == [] then Finished(s) else s.(buffer := [], phase := Holding(s.buffer))
    case PutBack => Finished(s.(buffer := s.buffer + s.phase.entries))
    case Append(good) =>
      var kept := Kept(s.phase.entries, good);
      var lost := |s.phase.entries| - |kept|;
      Finished(s.(journal := s.journal + kept, flushed := s.flushed + |kept|, errors := s.errors + lost))
    case FailOpen(_) => Finished(s.(errors := s.errors + |s.phase.entries|))
    case FailWrite(good, written) =>
      var part := Kept(s.phase.entries, good)[..written];
      Finished(s.(journal := s.journal + part, errors := s.errors + |s.phase.entries|))
  }

  ghost predicate IsRun(states: seq<State>, steps: seq<Step>) {
    && |states| == |steps| + 1 && states[0] == INITIAL
    && forall i :: 0 <= i < |steps| ==> Enabled(states[i], steps[i]) && states[i + 1] == Next(states[i], steps[i])
  }

  // ---- Conservation ----

  function Held(s: State): seq<Update> { if s.phase.Holding? then s.phase.entries else [] }

  /** Every update recorded is buffered, held by the running flush, flushed, or counted as an
      error; and no update is in two places. */
  ghost predicate Conserved(s: State) {
    && (s.inProgress <==> !s.phase.Idle?)
    && (s.phase.Holding? ==> s.phase.entries != [])
    && s.recorded == |s.history|
    && s.recorded == |s.buffer| + |Held(s)| + s.flushed + s.errors
    && s.flushed <= |s.journal| <= s.flushed + s.errors
    && multiset(s.journal) + multiset(s.buffer) + multiset(Held(s)) <= multiset(s.history)
  }

  lemma {:induction false} KeptSubset(entries: seq<Update>, good: seq<bool>)
    requires |good| == |entries|
    ensures multiset(Kept(entries, good)) <= multiset(entries)
  {
    if entries != [] {
      KeptSubset(entries[1..], good[1..]);
      assert entries == [entries[0]] + entries[1..];
    }
  }

  lemma PrefixSubset(s: seq<Update>, n: nat)
    requires n <= |s|
    ensures multiset(s[..n]) <= multiset(s)
  {
    assert s == s[..n] + s[n..];
  }

  lemma StepConserves(s: State, step: Step)
    requires Conserved(s) && Enabled(s, step)
    ensures Conserved(Next(s, step))
  {
    hide Kept;
    match step
    case Append(good) => KeptSubset(s.phase.entries, good);
    case FailWrite(good, written) =>
      KeptSubset(s.phase.entries, good);
      PrefixSubset(Kept(s.phase.entries, good), written);
    case _ =>
  }

  /** For every interleaving of recorders and flushers, with every kind of failure. */
  lemma {:induction false} EveryUpdateIsAccountedFor(states: seq<State>, steps: seq<Step>, n: nat)
    requires IsRun(states, steps) && n <= |steps|
    ensures Conserved(states[n])
  {
    hide Next, Enabled;
    if n > 0 {
      EveryUpdateIsAccountedFor(states, steps, n - 1);
      StepConserves(states[n - 1], steps[n - 1]);
    }
  }

  /** No update is written twice: the journal holds each at most as often as it was recorded. */
  lemma NoUpdateIsJournaledTwice(states: seq<State>, steps: seq<Step>, n: nat, u: Update)
    requires IsRun(states, steps) && n <= |steps|
    ensures multiset(states[n].journal)[u] <= multiset(states[n].history)[u]
  {
    EveryUpdateIsAccountedFor(states, steps, n);
  }

  lemma FullSubset(a: multiset<Update>, b: multiset<Update>)
    requires a <= b
    ensures a == b <==> |a| == |b|
  {
    assert b == a + (b - a);
  }

  lemma {:induction false} JournalCounts(states: seq<State>, steps: seq<Step>, n: nat)
    requires IsRun(states, steps) && n <= |steps|
    requires forall i :: 0 <= i < n ==> !steps[i].FailWrite?
    ensures |states[n].journal| == states[n].flushed
  {
    hide Kept;
    if n > 0 {
      JournalCounts(states, steps, n - 1);
    }
  }

  /** A step that drops updates: the journal cannot be opened, an entry does not serialise, or a
      write stops before the last entry. */
  predicate Loses(s: State, step: Step) {
    match step
    case FailOpen(_) => true
    case Append(good) => false in good
    case FailWrite(_, written) => written < |Held(s)|
    case _ => false
  }

  lemma {:induction false} KeptLength(entries: seq<Update>, good: seq<bool>)
    requires |good| == |entries|
    ensures |Kept(entries, good)| == |entries| <==> false !in good
  {
    if entries != [] {
      KeptLength(entries[1..], good[1..]);
      assert good == [good[0]] + good[1..];
    }
  }

  /** How many updates recorded are nowhere any more. */
  function Missing(s: State): int { |s.history| - |s.journal| - |s.buffer| - |Held(s)| }

  lemma StepMissing(s: State, step: Step)
    requires Conserved(s) && Enabled(s, step)
    ensures Missing(s) <= Missing(Next(s, step))
    ensures Missing(s) < Missing(Next(s, step)) <==> Loses(s, step)
  {
    hide Kept;
    if step.Append? {
      KeptLength(s.phase.entries, step.good);
    }
  }

  lemma {:induction false} MissingIff(states: seq<State>, steps: seq<Step>, n: nat)
    requires IsRun(states, steps) && n <= |steps|
    ensures Missing(states[n]) >= 0
    ensures Missing(states[n]) == 0 <==> forall i :: 0 <= i < n ==> !Loses(states[i], steps[i])
  {
    hide Next, Enabled, Loses, Missing, Conserved;
    if n == 0 {
      assert Missing(INITIAL) == 0 by {
        NothingMissing();
      }
    } else {
      MissingIff(states, steps, n - 1);
      EveryUpdateIsAccountedFor(states, steps, n - 1);
      StepMissing(states[n - 1], steps[n - 1]);
    }
  }

  lemma NothingMissing()
    ensures Missing(INITIAL) == 0
  {
  }

  /** Over every run, with every kind of failure: what was recorded is exactly what is written,
      held or buffered if and only if no flush met a journal it could not open, an entry that
      does not serialise, or a write that stopped short. */
  lemma NothingIsLostIff(states: seq<State>, steps: seq<Step>, n: nat)
    requires IsRun(states, steps) && n <= |steps|
    ensures var s := states[n];
      multiset(s.journal) + multiset(s.buffer) + multiset(Held(s)) == multiset(s.history) <==>
        forall i :: 0 <= i < n ==> !Loses(states[i], steps[i])
  {
    hide Next, Enabled, Loses;
    MissingIff(states, steps, n);
    EveryUpdateIsAccountedFor(states, steps, n);
    var s := states[n];
    FullSubset(multiset(s.journal) + multiset(s.buffer) + multiset(Held(s)), multiset(s.history));
  }

  /** What the error counter means. While no write fails half way the journal holds as many
      entries as were flushed, and the counter is zero exactly while nothing is lost. */
  lemma JournalIsExact(states: seq<State>, steps: seq<Step>, n: nat)
    requires IsRun(states, steps) && n <= |steps|
    requires forall i :: 0 <= i < n ==> !steps[i].FailWrite?
    ensures var s := states[n];
      && |s.journal| == s.flushed
      && (multiset(s.journal) + multiset(s.buffer) + multiset(Held(s)) == multiset(s.history) <==> s.errors == 0)
  {
    hide Next, Enabled;
    JournalCounts(states, steps, n);
    EveryUpdateIsAccountedFor(states, steps, n);
    var s := states[n];
    FullSubset(multiset(s.journal) + multiset(s.buffer) + multiset(Held(s)), multiset(s.history));
  }

  /** A journal that cannot be opened costs the entries taken for it. */
  lemma FailedOpenLoses(u: Update) returns (states: seq<State>, steps: seq<Step>)
    ensures steps == [Record(u), Begin, Take, FailOpen([true])] && IsRun(states, steps)
    ensures var s := states[4]; s.history == [u] && s.errors == 1 && s.journal + Held(s) + s.buffer == []
  {
    steps := [Record(u), Begin, Take, FailOpen([true])];
    var s1 := Next(INITIAL, steps[0]);
    var s2 := Next(s1, steps[1]);
    var s3 := Next(s2, steps[2]);
    states := [INITIAL, s1, s2, s3, Next(s3, steps[3])];
  }

  // ---- Order ----

  /** `a` is `b` with some elements left out. */
  ghost predicate Subsequence(a: seq<Update>, b: seq<Update>)
    decreases |b|
  {
    if a == [] then true
    else if b == [] then false
    else (a[|a| - 1] == b[|b| - 1] && Subsequence(a[..|a| - 1], b[..|b| - 1])) || Subsequence(a, b[..|b| - 1])
  }

  lemma {:induction false} SubsequenceRefl(a: seq<Update>)
    ensures Subsequence(a, a)
  {
    if a != [] {
      SubsequenceRefl(a[..|a| - 1]);
    }
  }

  lemma {:induction false} SubsequenceTrans(a: seq<Update>, b: seq<Update>, c: seq<Update>)
    requires Subsequence(a, b) && Subsequence(b, c)
    ensures Subsequence(a, c)
    decreases |c|
  {
    if a != [] && b != [] {
      var a', b', c' := a[..|a| - 1], b[..|b| - 1], c[..|c| - 1];
      if Subsequence(b, c') {
        SubsequenceTrans(a, b, c');
      } else if a[|a| - 1] == b[|b| - 1] && Subsequence(a', b') {
        SubsequenceTrans(a', b', c');
      } else {
        SubsequenceTrans(a, b', c');
      }
    }
  }

  lemma {:induction false} SubsequenceConcat(a: seq<Update>, b: seq<Update>, c: seq<Update>, d: seq<Update>)
    requires Subsequence(a, b) && Subsequence(c, d)
    ensures Subsequence(a + c, b + d)
    decreases |d|
  {
    if d == [] {
      assert a + c == a && b + d == b;
    } else {
      var d' := d[..|d| - 1];
      assert (b + d)[..|b + d| - 1] == b + d';
      if Subsequence(c, d') {
        SubsequenceConcat(a, b, c, d');
      } else {
        SubsequenceConcat(a, b, c[..|c| - 1], d');
        assert (a + c)[..|a + c| - 1] == a + c[..|c| - 1];
      }
    }
  }

  lemma {:induction false} SubsequenceOne(u: Update, good: bool)
    ensures Subsequence(if good then [u] else [], [u])
  {
    SubsequenceRefl([u]);
  }

  lemma {:induction false} KeptInOrder(entries: seq<Update>, good: seq<bool>)
    requires |good| == |entries|
    ensures Subsequence(Kept(entries, good), entries)
    decreases |entries|
  {
    hide Subsequence;
    if entries == [] {
      SubsequenceRefl([]);
    } else {
      KeptInOrder(entries[1..], good[1..]);
      SubsequenceOne(entries[0], good[0]);
      var head := if good[0] then [entries[0]] else [];
      SubsequenceConcat(head, [entries[0]], Kept(entries[1..], good[1..]), entries[1..]);
      assert entries == [entries[0]] + entries[1..];
    }
  }

  lemma PrefixInOrder(s: seq<Update>, n: nat)
    requires n <= |s|
    ensures Subsequence(s[..n], s)
  {
    hide Subsequence;
    SubsequenceRefl(s[..n]);
    NothingIsSubsequence(s[n..]);
    SubsequenceConcat(s[..n], s[..n], [], s[n..]);
    assert s[..n] + [] == s[..n] && s[..n] + s[n..] == s;
  }

  lemma NothingIsSubsequence(b: seq<Update>)
    ensures Subsequence([], b)
  {
  }

  /** Everything still to be written, behind what is written, in the order of recording. */
  ghost predicate InOrder(s: State) { Subsequence(s.journal + Held(s) + s.buffer, s.history) }

  /** Entries put back behind updates that were recorded in the meantime. */
  predicate Reorders(s: State, step: Step) { step.PutBack? && s.buffer != [] }

  lemma StepOrder(s: State, step: Step)
    requires Conserved(s) && InOrder(s) && Enabled(s, step) && !Reorders(s, step)
    ensures InOrder(Next(s, step))
  {
    hide Subsequence, Kept, Conserved;
    var all := s.journal + Held(s) + s.buffer;
    match step
    case Record(u) =>
      SubsequenceRefl([u]);
      SubsequenceConcat(all, s.history, [u], [u]);
      assert all + [u] == s.journal + Held(s) + (s.buffer + [u]);
    case Skip =>
    case Begin =>
      HoldsOnlyInFlush(s);
    case Take =>
      assert s.journal + [] + s.buffer == s.journal + s.buffer + [];
    case PutBack =>
      assert all == s.journal + [] + ([] + Held(s));
    case Append(good) =>
      KeptInOrder(s.phase.entries, good);
      Thinned(s, Kept(s.phase.entries, good));
    case FailOpen(_) =>
      NothingIsSubsequence(s.phase.entries);
      Thinned(s, []);
      assert s.journal + [] == s.journal;
    case FailWrite(good, written) =>
      var kept := Kept(s.phase.entries, good);
      KeptInOrder(s.phase.entries, good);
      PrefixInOrder(kept, written);
      SubsequenceTrans(kept[..written], kept, s.phase.entries);
      Thinned(s, kept[..written]);
  }

  lemma HoldsOnlyInFlush(s: State)
    requires Conserved(s) && !s.inProgress
    ensures Held(s) == []
  {
  }

  lemma Thinned(s: State, kept: seq<Update>)
    requires s.phase.Holding? && InOrder(s) && Subsequence(kept, s.phase.entries)
    ensures Subsequence(s.journal + kept + [] + s.buffer, s.history)
  {
    hide Subsequence;
    SubsequenceRefl(s.journal);
    SubsequenceRefl(s.buffer);
    SubsequenceConcat(s.journal, s.journal, kept, s.phase.entries);
    SubsequenceConcat(s.journal + kept, s.journal + s.phase.entries, s.buffer, s.buffer);
    SubsequenceTrans(s.journal + kept + s.buffer, s.journal + s.phase.entries + s.buffer, s.history);
    assert s.journal + kept + [] + s.buffer == s.journal + kept + s.buffer;
  }

  lemma {:induction false} RunInOrder(states: seq<State>, steps: seq<Step>, n: nat)
    requires IsRun(states, steps) && n <= |steps|
    requires forall i :: 0 <= i < n ==> !Reorders(states[i], steps[i])
    ensures InOrder(states[n])
  {
    hide Next, Enabled, Reorders, InOrder, Conserved;
    if n == 0 {
      InitialInOrder();
    } else {
      RunInOrder(states, steps, n - 1);
      EveryUpdateIsAccountedFor(states, steps, n - 1);
      StepOrder(states[n - 1], steps[n - 1]);
    }
  }

  lemma InitialInOrder()
    ensures InOrder(INITIAL)
  {
  }

  /** The journal keeps recording order over every run in which no flush, on losing the journal
      directory, puts entries back behind newer updates. */
  lemma JournalKeepsRecordingOrder(states: seq<State>, steps: seq<Step>, n: nat)
    requires IsRun(states, steps) && n <= |steps|
    requires forall i :: 0 <= i < n ==> !Reorders(states[i], steps[i])
    ensures Subsequence(states[n].journal, states[n].history)
  {
    hide Subsequence;
    RunInOrder(states, steps, n);
    var s := states[n];
    var rest := Held(s) + s.buffer;
    SubsequenceRefl(s.journal);
    NothingIsSubsequence(rest);
    SubsequenceConcat(s.journal, s.journal, [], rest);
    assert s.journal + [] == s.journal && s.journal + rest == s.journal + Held(s) + s.buffer;
    SubsequenceTrans(s.journal, s.journal + rest, s.history);
  }

  // ---- When putting entries back breaks the order ----

  predicate Distinct(s: seq<Update>) { forall i, j :: 0 <= i < j < |s| ==> s[i] != s[j] }

  lemma {:induction false} SubsequenceMember(a: seq<Update>, b: seq<Update>, i: nat) returns (p: nat)
    requires Subsequence(a, b) && i < |a|
    ensures p < |b| && b[p] == a[i]
    decreases |b|
  {
    var n := |b| - 1;
    if Subsequence(a, b[..n]) {
      p := SubsequenceMember(a, b[..n], i);
    } else if i == |a| - 1 {
      p := n;
    } else {
      p := SubsequenceMember(a[..|a| - 1], b[..n], i);
    }
  }

  lemma {:induction false} SubsequenceOrder(a: seq<Update>, b: seq<Update>, i: nat, j: nat) returns (p: nat, q: nat)
    requires Subsequence(a, b) && i < j < |a|
    ensures p < q < |b| && b[p] == a[i] && b[q] == a[j]
    decreases |b|
  {
    var n := |b| - 1;
    if Subsequence(a, b[..n]) {
      p, q := SubsequenceOrder(a, b[..n], i, j);
    } else if j == |a| - 1 {
      p := SubsequenceMember(a[..j], b[..n], i);
      q := n;
    } else {
      p, q := SubsequenceOrder(a[..|a| - 1], b[..n], i, j);
    }
  }

  /** Two blocks of updates cannot both precede each other. */
  lemma NoSwap(done: seq<Update>, x: seq<Update>, y: seq<Update>, h: seq<Update>)
    requires Distinct(h) && x != [] && y != [] && Subsequence(done + x + y, h)
    ensures !Subsequence(done + [] + (y + x), h)
  {
    hide Subsequence;
    var before, after, k := done + x + y, done + [] + (y + x), |done|;
    assert before[k] == x[0] && before[k + |x|] == y[0] && after[k] == y[0] && after[k + |y|] == x[0];
    var p, q := SubsequenceOrder(before, h, k, k + |x|);
    if Subsequence(after, h) {
      var p', q' := SubsequenceOrder(after, h, k, k + |y|);
    }
  }

  /** Putting entries back keeps what is to be written in recording order exactly when nothing was
      recorded since they were taken. */
  lemma PutBackKeepsOrderIff(s: State)
    requires Conserved(s) && InOrder(s) && s.phase.Holding? && Distinct(s.history)
    ensures InOrder(Next(s, PutBack)) <==> s.buffer == []
  {
    hide Subsequence, Conserved;
    HeldIsNotEmpty(s);
    if s.buffer == [] {
      StepOrder(s, PutBack);
    } else {
      NoSwap(s.journal, Held(s), s.buffer, s.history);
    }
  }

  lemma HeldIsNotEmpty(s: State)
    requires Conserved(s) && s.phase.Holding?
    ensures Held(s) != []
  {
  }

  /** Two updates of `block` that were recorded the other way round. */
  ghost predicate SwappedAt(block: seq<Update>, h: seq<Update>, i: int, j: int, p: int, q: int) {
    0 <= i < j < |block| && 0 <= p < q < |h| && block[i] == h[q] && block[j] == h[p]
  }

  ghost predicate Swapped(block: seq<Update>, h: seq<Update>) {
    exists i, j, p, q :: SwappedAt(block, h, i, j, p, q)
  }

  /** Such a pair in one place, where the two move on together. */
  ghost predicate Inverted(s: State) {
    Swapped(s.journal, s.history) || Swapped(Held(s), s.history) || Swapped(s.buffer, s.history)
  }

  lemma SwappedWithin(a: seq<Update>, block: seq<Update>, b: seq<Update>, h: seq<Update>, later: seq<Update>)
    requires Swapped(block, h)
    ensures Swapped(a + block + b, h + later)
  {
    var i, j, p, q :| SwappedAt(block, h, i, j, p, q);
    assert SwappedAt(a + block + b, h + later, |a| + i, |a| + j, p, q);
  }

  lemma SwappedIsNotInOrder(block: seq<Update>, h: seq<Update>)
    requires Distinct(h) && Swapped(block, h)
    ensures !Subsequence(block, h)
  {
    hide Subsequence;
    var i, j, p, q :| SwappedAt(block, h, i, j, p, q);
    if Subsequence(block, h) {
      var p', q' := SubsequenceOrder(block, h, i, j);
    }
  }

  lemma InvertedIsNotInOrder(s: State)
    requires Distinct(s.history) && Inverted(s)
    ensures !InOrder(s)
  {
    hide Subsequence, Swapped;
    var h := s.history;
    assert h + [] == h;
    if Swapped(s.journal, h) {
      SwappedWithin([], s.journal, Held(s) + s.buffer, h, []);
      assert [] + s.journal + (Held(s) + s.buffer) == s.journal + Held(s) + s.buffer;
    } else if Swapped(Held(s), h) {
      SwappedWithin(s.journal, Held(s), s.buffer, h, []);
    } else {
      SwappedWithin(s.journal + Held(s), s.buffer, [], h, []);
      assert s.journal + Held(s) + s.buffer + [] == s.journal + Held(s) + s.buffer;
    }
    SwappedIsNotInOrder(s.journal + Held(s) + s.buffer, h);
  }

  lemma {:induction false} KeptAll(entries: seq<Update>, good: seq<bool>)
    requires |good| == |entries| == |Kept(entries, good)|
    ensures Kept(entries, good) == entries
  {
    if entries != [] {
      KeptAll(entries[1..], good[1..]);
    }
  }

  /** A flush takes the whole buffer and moves it as one block, so a swapped pair stays swapped
      until one of the two is lost. */
  lemma StepStaysInverted(s: State, step: Step)
    requires Conserved(s) && Inverted(s) && Enabled(s, step) && !Loses(s, step)
    ensures Inverted(Next(s, step))
  {
    hide Swapped, Conserved, Kept;
    var h, t := s.history, Next(s, step);
    var later := t.history[|h|..];
    assert t.history == h + later;
    match step
    case Record(u) =>
      StaysSwapped(s.journal, [], h, later);
      StaysSwapped(Held(s), [], h, later);
      StaysSwapped(s.buffer, [u], h, later);
    case Skip =>
    case Begin => HoldsOnlyInFlush(s);
    case Take =>
    case PutBack =>
      MovesSwapped(s.buffer, Held(s), h);
      StaysSwapped(s.buffer, Held(s), h, []);
      assert h + [] == h;
    case Append(good) =>
      KeptLength(s.phase.entries, good);
      KeptAll(s.phase.entries, good);
      MovesSwapped(s.journal, Held(s), h);
      StaysSwapped(s.journal, Held(s), h, []);
      assert h + [] == h;
    case FailWrite(good, written) =>
      KeptAll(s.phase.entries, good);
      assert Kept(s.phase.entries, good)[..written] == Held(s);
      MovesSwapped(s.journal, Held(s), h);
      StaysSwapped(s.journal, Held(s), h, []);
      assert h + [] == h;
  }

  lemma StaysSwapped(block: seq<Update>, more: seq<Update>, h: seq<Update>, later: seq<Update>)
    ensures Swapped(block, h) ==> Swapped(block + more, h + later) && Swapped(block, h + later)
  {
    hide Swapped;
    if Swapped(block, h) {
      SwappedWithin([], block, more, h, later);
      SwappedWithin([], block, [], h, later);
      assert [] + block + more == block + more && [] + block + [] == block;
    }
  }

  lemma MovesSwapped(before: seq<Update>, block: seq<Update>, h: seq<Update>)
    ensures Swapped(block, h) ==> Swapped(before + block, h)
  {
    hide Swapped;
    if Swapped(block, h) {
      SwappedWithin(before, block, [], h, []);
      assert before + block + [] == before + block && h + [] == h;
    }
  }

  lemma ReorderingInverts(s: State)
    requires Conserved(s) && InOrder(s) && s.phase.Holding? && s.buffer != []
    ensures Inverted(Next(s, PutBack))
  {
    hide Subsequence;
    var all, k := s.journal + Held(s) + s.buffer, |s.journal|;
    var m := k + |Held(s)|;
    assert all[k] == Held(s)[0] && all[m] == s.buffer[0];
    var p, q := SubsequenceOrder(all, s.history, k, m);
    var block := s.buffer + Held(s);
    assert SwappedAt(block, s.history, 0, |s.buffer|, p, q);
  }

  lemma StepGrows(s: State, step: Step)
    requires Enabled(s, step)
    ensures s.history <= Next(s, step).history
  {
    hide Kept;
  }

  /** Over every run that has lost nothing and recorded no update twice, what is written and
      waits to be is in recording order exactly when no flush has put entries back behind newer
      updates. */
  lemma {:induction false} RecordingOrderIff(states: seq<State>, steps: seq<Step>, n: nat)
    requires IsRun(states, steps) && n <= |steps|
    requires Distinct(states[n].history) && forall i :: 0 <= i < n ==> !Loses(states[i], steps[i])
    ensures InOrder(states[n]) <==> forall i :: 0 <= i < n ==> !Reorders(states[i], steps[i])
    ensures InOrder(states[n]) || Inverted(states[n])
  {
    hide Next, Enabled, Reorders, InOrder, Inverted, Conserved, Loses;
    if n == 0 {
      InitialInOrder();
    } else {
      var s, step := states[n - 1], steps[n - 1];
      assert Enabled(s, step) && states[n] == Next(s, step);
      StepGrows(s, step);
      assert Distinct(s.history) by {
        assert forall i :: 0 <= i < |s.history| ==> s.history[i] == states[n].history[i];
      }
      RecordingOrderIff(states, steps, n - 1);
      EveryUpdateIsAccountedFor(states, steps, n - 1);
      if Inverted(s) {
        InvertedIsNotInOrder(s);
        StepStaysInverted(s, step);
        InvertedIsNotInOrder(states[n]);
      } else if Reorders(s, step) {
        PutBackHolds(s, step);
        ReorderingInverts(s);
        InvertedIsNotInOrder(states[n]);
      } else {
        StepOrder(s, step);
      }
    }
  }

  lemma PutBackHolds(s: State, step: Step)
    requires Enabled(s, step) && Reorders(s, step)
    ensures step == PutBack && s.phase.Holding? && s.buffer != []
  {
  }

  /** Two updates, one recorded before and one after the buffer is taken, change places. */
  lemma PutBackSwaps(u: Update, v: Update) returns (states: seq<State>, steps: seq<Step>)
    requires u != v
    ensures steps == [Record(u), Begin, Take, Record(v), PutBack] && IsRun(states, steps)
    ensures states[5].history == [u, v] && states[5].buffer == [v, u] && !InOrder(states[5])
  {
    hide InOrder;
    steps := [Record(u), Begin, Take, Record(v), PutBack];
    var s1 := State([u], false, Idle, [], 1, 0, 0, [u]);
    var s2 := State([u], true, Started, [], 1, 0, 0, [u]);
    var s3 := State([], true, Holding([u]), [], 1, 0, 0, [u]);
    var s4 := State([v], true, Holding([u]), [], 2, 0, 0, [u, v]);
    var s5 := State([v, u], false, Idle, [], 2, 0, 0, [u, v]);
    assert [] + [u] == [u] && [] + [v] == [v] && [u] + [v] == [u, v] && [v] + [u] == [v, u];
    assert Next(INITIAL, steps[0]) == s1 && Next(s1, steps[1]) == s2 && Next(s2, steps[2]) == s3;
    assert Next(s3, steps[3]) == s4 && Next(s4, steps[4]) == s5;
    states := [INITIAL, s1, s2, s3, s4, s5];
    PairIsNotInOrder(s5);
  }

  lemma PairIsNotInOrder(s: State)
    requires |s.buffer| == 2 && s.buffer[0] != s.buffer[1] && s.history == [s.buffer[1], s.buffer[0]]
    ensures !InOrder(s)
  {
    hide InOrder;
    assert SwappedAt(s.buffer, s.history, 0, 1, 0, 1);
    InvertedIsNotInOrder(s);
  }

  // ---- The class ----

  /** How the file system treats a flush: which entries serialise, and where it fails. */
  datatype Outcome =
    | NoDirectory
    | CannotOpen
    | WriteFails(lines: nat)
    | Written

  function Serialises(entries: seq<Update>, ok: Update -> bool): (good: seq<bool>)
    ensures |good| == |entries|
  {
    seq(|entries|, i requires 0 <= i < |entries| => ok(entries[i]))
  }

  /** The last step of a flush that holds entries. When nothing serialises the journal is not
      opened at all. */
  function LastStep(entries: seq<Update>, ok: Update -> bool, outcome: Outcome): Step {
    var good := Serialises(entries, ok);
    match outcome
    case NoDirectory => PutBack
    case Written => Append(good)
    case CannotOpen => if Kept(entries, good) == [] then Append(good) else FailOpen(good)
    case WriteFails(lines) =>
      if Kept(entries, good) == [] then Append(good) else FailWrite(good, Min(lines, |Kept(entries, good)|))
  }

  /** What the last step leaves, by outcome. */
  lemma LastStepEffect(s: State, entries: seq<Update>, ok: Update -> bool, outcome: Outcome)
    requires s.phase == Holding(entries)
    ensures Enabled(s, LastStep(entries, ok, outcome))
    ensures var content, t := Kept(entries, Serialises(entries, ok)), Next(s, LastStep(entries, ok, outcome));
      var lost := s.errors + |entries|;
      t == Finished(
        if outcome.NoDirectory? then s.(buffer := s.buffer + entries)
        else if outcome.Written? || content == [] then
          s.(journal := s.journal + content, flushed := s.flushed + |content|, errors := lost - |content|)
        else if outcome.CannotOpen? then s.(errors := lost)
        else s.(journal := s.journal + content[..Min(outcome.lines, |content|)], errors := lost))
  {
    hide Kept, Serialises;
  }

  /** What a flush loses, by what the file system does: nothing without the directory, as the
      entries go back; otherwise something exactly when an entry does not serialise, the journal
      cannot be opened, or the write stops before the last line. */
  lemma OutcomeLosesIff(s: State, entries: seq<Update>, ok: Update -> bool, outcome: Outcome)
    requires s.phase == Holding(entries) && entries != []
    ensures Loses(s, LastStep(entries, ok, outcome)) <==>
      && !outcome.NoDirectory?
      && (|| (exists i :: 0 <= i < |entries| && !ok(entries[i]))
          || outcome.CannotOpen?
          || (outcome.WriteFails? && outcome.lines < |entries|))
  {
    hide Kept;
    var good := Serialises(entries, ok);
    KeptLength(entries, good);
    assert false in good <==> exists i :: 0 <= i < |entries| && !ok(entries[i]) by {
      assert forall i :: 0 <= i < |entries| ==> good[i] == ok(entries[i]);
    }
  }

  /** The lines of the entries that serialise. */
  method Serialise(entries: seq<Update>, ok: Update -> bool) returns (content: seq<Update>)
    ensures content == Kept(entries, Serialises(entries, ok))
  {
    hide Kept;
    ghost var good := Serialises(entries, ok);
    content := [];
    assert entries[..0] == [] && good[..0] == [];
    KeptNothing();
    for i := 0 to |entries|
      invariant content == Kept(entries[..i], good[..i])
    {
      KeptSnoc(entries[..i], good[..i], entries[i], good[i]);
      assert entries[..i + 1] == entries[..i] + [entries[i]] && good[..i + 1] == good[..i] + [good[i]];
      if ok(entries[i]) {
        content := content + [entries[i]];
      }
    }
    assert entries[..|entries|] == entries && good[..|entries|] == good;
  }

  class UpdateBuffer {
    var buffer: seq<Update>
    var inProgress: bool
    var journal: seq<Update>
    var recorded: nat
    var flushed: nat
    ghost var phase: Phase
    ghost var errors: nat
    ghost var history: seq<Update>

    ghost function View(): State
      reads this
    {
      State(buffer, inProgress, phase, journal, recorded, flushed, errors, history)
    }

    constructor ()
      ensures View() == INITIAL
    {
      buffer, inProgress, journal, recorded, flushed := [], false, [], 0, 0;
      phase, errors, history := Idle, 0, [];
    }

    /** `add_to_buffer`. */
    method AddToBuffer(u: Update)
      modifies this
      ensures View() == Next(old(View()), Record(u))
    {
      buffer := buffer + [u];
      recorded := recorded + 1;
      history := history + [u];
    }

    /** The compare-exchange on the flag. */
    method TryBegin() returns (ok: bool)
      modifies this`inProgress, this`phase
      ensures ok <==> !old(inProgress)
      ensures View() == Next(old(View()), if ok then Begin else Skip)
    {
      ok := !inProgress;
      if ok {
        inProgress := true;
        phase := Started;
      }
    }

    /** Takes all entries from the buffer, and gives the flag back if there are none. */
    method TakeAll() returns (entries: seq<Update>)
      requires phase.Started?
      modifies this`buffer, this`inProgress, this`phase
      ensures View() == Next(old(View()), Take)
      ensures entries == old(buffer)
    {
      entries := buffer;
      buffer := [];
      if entries == [] {
        inProgress := false;
        phase := Idle;
      } else {
        phase := Holding(entries);
      }
    }

    /** The rest of `flush`, from the journal directory to the release of the flag. */
    method WriteOut(entries: seq<Update>, ok: Update -> bool, outcome: Outcome) returns (written: nat, failed: nat)
      requires phase == Holding(entries)
      modifies this
      ensures Enabled(old(View()), LastStep(entries, ok, outcome))
      ensures View() == Next(old(View()), LastStep(entries, ok, outcome))
      ensures flushed == old(flushed) + written && errors == old(errors) + failed
    {
      hide Kept, Serialises, LastStep, Next, Enabled;
      LastStepEffect(View(), entries, ok, outcome);
      written, failed := 0, 0;
      if outcome.NoDirectory? {
        buffer := buffer + entries;
        inProgress, phase := false, Idle;
        return;
      }
      var content := Serialise(entries, ok);
      written, failed := |content|, |entries| - |content|;
      assert content == [] ==> journal + content == journal;
      if content != [] {
        match outcome
        case Written =>
          journal := journal + content;
        case CannotOpen =>
          failed := failed + written;
          written := 0;
        case WriteFails(lines) =>
          journal := journal + content[..Min(lines, |content|)];
          failed := failed + written;
          written := 0;
      }
      flushed := flushed + written;
      errors := errors + failed;
      inProgress, phase := false, Idle;
    }
  }

  lemma KeptNothing()
    ensures Kept([], []) == []
  {
  }

  lemma {:induction false} KeptSnoc(entries: seq<Update>, good: seq<bool>, u: Update, ok: bool)
    requires |good| == |entries|
    ensures Kept(entries + [u], good + [ok]) == Kept(entries, good) + if ok then [u] else []
    decreases |entries|
  {
    if entries == [] {
      assert entries + [u] == [u] && good + [ok] == [ok];
    } else {
      assert (entries + [u])[1..] == entries[1..] + [u] && (good + [ok])[1..] == good[1..] + [ok];
      KeptSnoc(entries[1..], good[1..], u, ok);
    }
  }
}
