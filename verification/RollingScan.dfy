/** The rolling validation scan: a cyclic cursor over 256 index slots. */
module RollingScan {
  import opened Basics

  const SLOTS: nat := 256

  type Cursor = c: nat | c < SLOTS

  /** `count` consecutive slots from `cursor`, wrapping around. */
  function Slots(cursor: nat, count: nat): (s: seq<nat>)
    ensures |s| == count
  {
    seq(count, i requires 0 <= i => (cursor + i) % SLOTS)
  }

  lemma RemainderShift(x: nat, i: nat)
    ensures (x % SLOTS + i) % SLOTS == (x + i) % SLOTS
  {
    var q, y := x / SLOTS, x % SLOTS + i;
    assert x + i == SLOTS * q + y;
    assert y == SLOTS * (y / SLOTS) + y % SLOTS;
    assert SLOTS * q + y == SLOTS * (q + y / SLOTS) + y % SLOTS;
    Remainder(q + y / SLOTS, y % SLOTS);
  }

  lemma Remainder(q: nat, r: nat)
    requires r < SLOTS
    ensures (SLOTS * q + r) % SLOTS == r
  {
  }

  lemma SlotsConcat(cursor: nat, a: nat, b: nat)
    ensures Slots(cursor, a) + Slots((cursor + a) % SLOTS, b) == Slots(cursor, a + b)
  {
    var both, all := Slots(cursor, a) + Slots((cursor + a) % SLOTS, b), Slots(cursor, a + b);
    forall i | 0 <= i < a + b ensures both[i] == all[i] {
      if i >= a {
        RemainderShift(cursor + a, i - a);
      }
    }
  }

  /** Up to 256 consecutive slots are all different. */
  lemma SlotsDistinct(cursor: nat, count: nat, i: nat, j: nat)
    requires count <= SLOTS && i < j < count
    ensures Slots(cursor, count)[i] != Slots(cursor, count)[j]
  {
  }

  // ---- One cycle ----

  /** What the file system and the clock say about a batch: whether any of its directories
      exist, and how many more slots the time left is estimated to allow. */
  datatype Batch = Batch(found: bool, more: nat)

  /** How many slots are covered once batch `n` is done: what was estimated at the start and after
      each batch before it, up to one full round. */
  function Reach(estimate: nat, batches: nat -> Batch, n: nat): (r: nat)
    requires estimate <= SLOTS
    ensures estimate <= r <= SLOTS
  {
    if n == 0 then estimate else Min(Reach(estimate, batches, n - 1) + batches(n - 1).more, SLOTS)
  }

  /** A further batch follows when something was found, time for more slots is left, and the round
      is not complete. */
  predicate GoesOn(estimate: nat, batches: nat -> Batch, n: nat)
    requires estimate <= SLOTS
  {
    batches(n).found && batches(n).more > 0 && Reach(estimate, batches, n) < SLOTS
  }

  /** The index set of `select_l1_directories`. */
  method SelectIndices(cursor: Cursor, count: nat) returns (selected: set<nat>, wraps: bool)
    ensures forall j :: j in selected <==> j in Slots(cursor, Min(count, SLOTS))
    ensures |selected| == Min(count, SLOTS)
    ensures wraps <==> cursor + Min(count, SLOTS) > SLOTS
  {
    var n := Min(count, SLOTS);
    wraps := cursor + n > SLOTS;
    selected := {};
    for i := 0 to n
      invariant forall j :: j in selected <==> j in Slots(cursor, n)[..i]
      invariant |selected| == i
    {
      var slot := (cursor + i) % SLOTS;
      assert slot == Slots(cursor, n)[i];
      assert slot !in Slots(cursor, n)[..i] by {
        forall k | 0 <= k < i ensures Slots(cursor, n)[k] != slot {
          SlotsDistinct(cursor, n, k, i);
        }
      }
      assert Slots(cursor, n)[..i + 1] == Slots(cursor, n)[..i] + [slot];
      selected := selected + {slot};
    }
    assert Slots(cursor, n)[..n] == Slots(cursor, n);
  }

  datatype Rolling = Rolling(cursor: Cursor, rotations: nat)

  function AfterCycle(s: Rolling, scanned: nat): Rolling {
    Rolling((s.cursor + scanned) % SLOTS, s.rotations + if s.cursor + scanned > 255 then 1 else 0)
  }

  class RollingScanner {
    var cursor: Cursor
    var rotations: nat

    ghost function View(): Rolling
      reads this
    {
      Rolling(cursor, rotations)
    }

    constructor ()
      ensures View() == Rolling(0, 0)
    {
      cursor, rotations := 0, 0;
    }

    /** The batch loop of `perform_rolling_validation`: the slots covered, in order. */
    method ScanBatches(estimate: nat, batches: nat -> Batch) returns (covered: seq<nat>, ghost last: nat)
      requires 1 <= estimate <= SLOTS
      ensures covered == Slots(cursor, |covered|)
      ensures |covered| == Reach(estimate, batches, last)
      ensures forall i :: 0 <= i < last ==> GoesOn(estimate, batches, i)
      ensures !GoesOn(estimate, batches, last)
    {
      var scanned: nat := 0;
      var remaining := estimate;
      var n: nat := 0;
      covered, last := [], 0;
      while remaining > 0
        invariant covered == Slots(cursor, scanned)
        invariant remaining > 0 ==> scanned + remaining == Reach(estimate, batches, n) && last == n
        invariant remaining == 0 ==> scanned == Reach(estimate, batches, last) && !GoesOn(estimate, batches, last)
        invariant forall i :: 0 <= i < last ==> GoesOn(estimate, batches, i)
        decreases SLOTS - scanned, remaining
      {
        var batchCursor := (cursor + scanned) % SLOTS;
        var batchCount := remaining;
        SlotsConcat(cursor, scanned, batchCount);
        covered := covered + Slots(batchCursor, batchCount);
        scanned := scanned + batchCount;
        if !batches(n).found {
          break;
        }
        remaining := 0;
        if scanned < SLOTS {
          remaining := Min(batches(n).more, SLOTS - scanned);
        }
        n := n + 1;
        if remaining > 0 {
          last := n;
        }
      }
    }

    /** `perform_rolling_validation`, as far as the cursor and the rotation counter go. */
    method PerformCycle(estimate: nat, batches: nat -> Batch) returns (covered: seq<nat>)
      requires 1 <= estimate <= SLOTS
      modifies this
      ensures estimate <= |covered| <= SLOTS
      ensures covered == Slots(old(cursor), |covered|)
      ensures View() == AfterCycle(old(View()), |covered|)
    {
      ghost var last;
      covered, last := ScanBatches(estimate, batches);
      if cursor + |covered| > 255 {
        rotations := rotations + 1;
      }
      cursor := (cursor + |covered|) % SLOTS;
    }
  }

  // ---- Consecutive cycles ----

  predicate Cycles(counts: seq<nat>) { forall i :: 0 <= i < |counts| ==> 1 <= counts[i] <= SLOTS }

  function Total(counts: seq<nat>): nat {
    if counts == [] then 0 else Total(counts[..|counts| - 1]) + counts[|counts| - 1]
  }

  function Run(s: Rolling, counts: seq<nat>): Rolling {
    if counts == [] then s else AfterCycle(Run(s, counts[..|counts| - 1]), counts[|counts| - 1])
  }

  /** Every slot covered, cycle after cycle. */
  function Covered(s: Rolling, counts: seq<nat>): seq<nat> {
    if counts == [] then []
    else
      var before := counts[..|counts| - 1];
      Covered(s, before) + Slots(Run(s, before).cursor, counts[|counts| - 1])
  }

  lemma Advance(x: nat, n: nat)
    requires n <= SLOTS
    ensures (x % SLOTS + n) % SLOTS == (x + n) % SLOTS
    ensures (x + n) / SLOTS == x / SLOTS + if x % SLOTS + n > 255 then 1 else 0
  {
  }

  /** The cursor and the rotation counter are the remainder and the quotient of the slots gone by. */
  lemma {:induction false} CursorAndRotations(s: Rolling, counts: seq<nat>)
    requires Cycles(counts)
    ensures var t := Run(s, counts);
      t.cursor == (s.cursor + Total(counts)) % SLOTS && t.rotations == s.rotations + (s.cursor + Total(counts)) / SLOTS
  {
    if counts != [] {
      var before := counts[..|counts| - 1];
      CursorAndRotations(s, before);
      Advance(s.cursor + Total(before), counts[|counts| - 1]);
    }
  }

  /** Cycles join up: together they cover one unbroken cyclic stretch. */
  lemma {:induction false} CyclesJoinUp(s: Rolling, counts: seq<nat>)
    requires Cycles(counts)
    ensures Covered(s, counts) == Slots(s.cursor, Total(counts))
  {
    if counts != [] {
      var before := counts[..|counts| - 1];
      CyclesJoinUp(s, before);
      CursorAndRotations(s, before);
      SlotsConcat(s.cursor, Total(before), counts[|counts| - 1]);
    }
  }

  function Count(s: seq<nat>, x: nat): nat {
    if s == [] then 0 else Count(s[..|s| - 1], x) + if s[|s| - 1] == x then 1 else 0
  }

  /** Whether the slot after `t` others is `j`, in terms of how far `j` lies ahead of the cursor. */
  lemma NextSlot(cursor: nat, t: nat, j: Cursor)
    ensures var ahead := (j - cursor) % SLOTS;
      (t + 256 - ahead) / SLOTS == (t + 255 - ahead) / SLOTS + if (cursor + t) % SLOTS == j then 1 else 0
  {
    var ahead := (j - cursor) % SLOTS;
    SameRemainder(cursor + ahead, j);
    SameRemainder(cursor + t, cursor + ahead);
    DivisionStep(t + 255 - ahead);
  }

  lemma SameRemainder(a: int, b: int)
    ensures a % SLOTS == b % SLOTS <==> (a - b) % SLOTS == 0
  {
  }

  lemma DivisionStep(x: nat)
    ensures (x + 1) / SLOTS == x / SLOTS + if (x + 1) % SLOTS == 0 then 1 else 0
  {
  }

  lemma {:induction false} SlotCount(cursor: nat, n: nat, j: Cursor)
    ensures Count(Slots(cursor, n), j) == (n + 255 - (j - cursor) % SLOTS) / SLOTS
  {
    if n > 0 {
      assert Slots(cursor, n)[..n - 1] == Slots(cursor, n - 1);
      SlotCount(cursor, n - 1, j);
      NextSlot(cursor, n - 1, j);
    }
  }

  /** Over any run of cycles no slot is neglected or favoured: each has been covered either
      ⌊total / 256⌋ or ⌈total / 256⌉ times. */
  lemma EverySlotCoveredEvenly(s: Rolling, counts: seq<nat>, j: Cursor)
    requires Cycles(counts)
    ensures Total(counts) / SLOTS <= Count(Covered(s, counts), j) <= (Total(counts) + 255) / SLOTS
  {
    CyclesJoinUp(s, counts);
    SlotCount(s.cursor, Total(counts), j);
  }
}
