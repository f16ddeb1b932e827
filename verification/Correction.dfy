/** Proportional correction of the tracked figures from a partial scan. */
module Correction {
  const SHARDS: nat := 256
  const U64: int := 0x1_0000_0000_0000_0000
  const I64_MAX: int := 0x7FFF_FFFF_FFFF_FFFF

  type Word = w: nat | w < U64

  // ---- The code, with its casts ----

  /** `x as i64`, and the result of wrapping 64-bit arithmetic. */
  function Wrap(x: int): (w: int)
    ensures -I64_MAX - 1 <= w <= I64_MAX
  {
    var m := x % U64;
    if m <= I64_MAX then m else m - U64
  }

  /** `proportional_correction`, in a build where overflow wraps. */
  function ProportionalCorrection(scanned: Word, dirs: nat, tracked: Word): (r: nat)
    ensures r <= I64_MAX
  {
    var expected := tracked * dirs / SHARDS;
    var discrepancy := Wrap(Wrap(scanned) - Wrap(expected));
    var corrected := Wrap(Wrap(tracked) + discrepancy);
    if corrected < 0 then 0 else corrected
  }

  // ---- What it means ----

  /** The tracked figure with its share of the scanned shards replaced by what was found there. */
  function Corrected(scanned: nat, dirs: nat, tracked: nat): (r: nat)
    requires dirs <= SHARDS
  {
    ShareWithin(tracked, dirs);
    tracked - tracked * dirs / SHARDS + scanned
  }

  lemma ShareWithin(tracked: nat, dirs: nat)
    requires dirs <= SHARDS
    ensures 0 <= tracked * dirs / SHARDS <= tracked
  {
    ProductBound(tracked, dirs);
  }

  lemma ProductBound(x: nat, dirs: nat)
    requires dirs <= SHARDS
    ensures 0 <= x * dirs <= x * SHARDS
  {
  }

  /** Wrapping adds or takes off whole turns of 2⁶⁴. */
  function Turns(x: int): (k: int)
    ensures Wrap(x) == x + k * U64
  {
    if x % U64 <= I64_MAX then -(x / U64) else -(x / U64) - 1
  }

  lemma WrapUnique(x: int, w: int, k: int)
    requires -I64_MAX - 1 <= w <= I64_MAX && w == x + k * U64
    ensures Wrap(x) == w
  {
    var d := k - Turns(x);
    assert w - Wrap(x) == d * U64;
    assert d == 0;
  }

  lemma WrapAdd(a: int, b: int)
    ensures Wrap(Wrap(a) + Wrap(b)) == Wrap(a + b)
    ensures Wrap(Wrap(a) - Wrap(b)) == Wrap(a - b)
  {
    hide Wrap, Turns;
    var sum, difference := Wrap(a) + Wrap(b), Wrap(a) - Wrap(b);
    WrapUnique(a + b, Wrap(sum), Turns(a) + Turns(b) + Turns(sum));
    WrapUnique(a - b, Wrap(difference), Turns(a) - Turns(b) + Turns(difference));
  }

  /** The code computes the corrected figure exactly when that figure fits a signed 64-bit
      integer; the clamp to zero only ever hides an overflow. */
  lemma CorrectionIsExactIff(scanned: Word, dirs: nat, tracked: Word)
    requires dirs <= SHARDS
    ensures ProportionalCorrection(scanned, dirs, tracked) == Corrected(scanned, dirs, tracked) <==>
      Corrected(scanned, dirs, tracked) <= I64_MAX
  {
    hide Wrap;
    var expected := tracked * dirs / SHARDS;
    ShareWithin(tracked, dirs);
    WrapAdd(scanned, expected);
    WrapTwice(scanned - expected);
    WrapAdd(tracked, scanned - expected);
    WrapOf(Corrected(scanned, dirs, tracked));
  }

  /** What the code computes where that figure does not fit: 2⁶⁴ less if that is neither negative
      nor too large itself, and otherwise nothing. */
  lemma CorrectionOverflows(scanned: Word, dirs: nat, tracked: Word)
    requires dirs <= SHARDS && Corrected(scanned, dirs, tracked) > I64_MAX
    ensures var v := Corrected(scanned, dirs, tracked);
      ProportionalCorrection(scanned, dirs, tracked) == if U64 <= v <= U64 + I64_MAX then v - U64 else 0
  {
    hide Wrap;
    var expected := tracked * dirs / SHARDS;
    ShareWithin(tracked, dirs);
    WrapAdd(scanned, expected);
    WrapTwice(scanned - expected);
    WrapAdd(tracked, scanned - expected);
    WrapBeyond(Corrected(scanned, dirs, tracked));
  }

  lemma WrapBeyond(v: nat)
    requires I64_MAX < v < 2 * U64
    ensures Wrap(v) == if v <= U64 + I64_MAX then v - U64 else v - 2 * U64
  {
  }

  lemma WrapTwice(x: int)
    ensures Wrap(Wrap(x)) == Wrap(x)
  {
  }

  lemma WrapOf(v: nat)
    ensures v <= I64_MAX ==> Wrap(v) == v
    ensures v > I64_MAX ==> Wrap(v) < v && v != 0
  {
  }

  /** Scanning every shard replaces the tracked figure by the scanned one. */
  lemma FullScanReplaces(scanned: nat, tracked: nat)
    ensures Corrected(scanned, SHARDS, tracked) == scanned
  {
    assert tracked * SHARDS / SHARDS == tracked;
  }

  /** More tracked or more found never gives less. */
  lemma CorrectionIsMonotone(scanned: nat, scanned': nat, dirs: nat, tracked: nat, tracked': nat)
    requires dirs <= SHARDS && scanned <= scanned' && tracked <= tracked'
    ensures Corrected(scanned, dirs, tracked) <= Corrected(scanned', dirs, tracked')
  {
    var more := tracked' - tracked;
    ProductBound(more, dirs);
    assert tracked' * dirs == tracked * dirs + more * dirs;
  }

  /** A part of the cache stays within the whole: staged bytes never exceed the total. */
  lemma StagedStaysWithinTotal(staged: Word, total: Word, dirs: nat, trackedStaged: Word, trackedTotal: Word)
    requires dirs <= SHARDS && staged <= total && trackedStaged <= trackedTotal
    requires Corrected(total, dirs, trackedTotal) <= I64_MAX
    ensures ProportionalCorrection(staged, dirs, trackedStaged) <= ProportionalCorrection(total, dirs, trackedTotal)
  {
    hide ProportionalCorrection, Corrected;
    CorrectionIsMonotone(staged, total, dirs, trackedStaged, trackedTotal);
    CorrectionIsExactIff(staged, dirs, trackedStaged);
    CorrectionIsExactIff(total, dirs, trackedTotal);
  }

  // ---- A static cache with equal shards ----

  /** The error left after a cycle over `dirs` shards. Division rounds down, for negative errors too. */
  function ErrorAfter(e: int, dirs: nat): int { e - e * dirs / SHARDS }

  /** When every shard holds `shard` bytes and nothing changes, a cycle takes off the scanned
      share of the error. */
  lemma StaticCacheError(shard: nat, dirs: nat, tracked: nat)
    requires dirs <= SHARDS
    ensures Corrected(shard * dirs, dirs, tracked) - SHARDS * shard == ErrorAfter(tracked - SHARDS * shard, dirs)
  {
    var e := tracked - SHARDS * shard;
    assert tracked * dirs == SHARDS * (shard * dirs) + e * dirs;
    assert (SHARDS * (shard * dirs) + e * dirs) / SHARDS == shard * dirs + e * dirs / SHARDS;
  }

  function Abs(x: int): nat { if x < 0 then -x else x }

  /** An error below what one shard's rounding can remove. */
  predicate Settled(e: int, dirs: nat) { 0 <= e && e * dirs < SHARDS }

  lemma PositiveProduct(e: nat, dirs: nat)
    requires 1 <= dirs <= SHARDS
    ensures e <= e * dirs <= e * SHARDS
  {
  }

  /** An error that has settled stays; any other shrinks, and never changes sign. */
  lemma ErrorShrinks(e: int, dirs: nat)
    requires 1 <= dirs <= SHARDS
    ensures Settled(e, dirs) ==> ErrorAfter(e, dirs) == e
    ensures !Settled(e, dirs) ==> Abs(ErrorAfter(e, dirs)) < Abs(e)
    ensures e >= 0 ==> ErrorAfter(e, dirs) >= 0
    ensures e <= 0 ==> ErrorAfter(e, dirs) <= 0
  {
    PositiveProduct(Abs(e), dirs);
    if e < 0 {
      assert e * dirs == -(Abs(e) * dirs);
    }
  }

  lemma LargerProduct(e: nat, a: nat, b: nat)
    requires a <= b
    ensures e * a <= e * b
  {
  }

  /** A cycle over at least `least` shards makes an error smaller, or finds it settled for
      `least` and leaves it so. */
  lemma CycleShrinks(e: int, dirs: nat, least: nat)
    requires 1 <= least <= dirs <= SHARDS
    ensures Settled(e, least) ==> Settled(ErrorAfter(e, dirs), least)
    ensures !Settled(e, least) ==> Abs(ErrorAfter(e, dirs)) < Abs(e)
  {
    hide ErrorAfter;
    ErrorShrinks(e, dirs);
    if e >= 0 {
      LargerProduct(e, least, dirs);
      var f := ErrorAfter(e, dirs);
      assert f * least <= e * least by {
        LargerProduct(least, f, e);
      }
    }
  }

  /** The tracked figure after a correction cycle over each number of shards in `ds`, while every
      shard holds `shard` bytes. */
  function Cycles(shard: nat, ds: seq<nat>, tracked: nat): (r: nat)
    requires SHARDS * shard <= I64_MAX && tracked <= I64_MAX && forall i :: 0 <= i < |ds| ==> ds[i] <= SHARDS
    ensures r <= I64_MAX
  {
    if ds == [] then tracked
    else
      var n := |ds| - 1;
      ProductBound(shard, ds[n]);
      ProportionalCorrection(shard * ds[n], ds[n], Cycles(shard, ds[..n], tracked))
  }

  // ---- How fast it settles ----

  function Pow(b: nat, n: nat): nat { if n == 0 then 1 else b * Pow(b, n - 1) }

  /** One cycle, for an error in excess and for one in deficit. */
  lemma CycleDecays(e: int, dirs: nat, least: nat)
    requires 1 <= least <= dirs <= SHARDS
    ensures e >= 0 ==> SHARDS * (least * ErrorAfter(e, dirs) - 255) <= (SHARDS - least) * (least * e - 255)
    ensures e <= 0 ==> SHARDS * Abs(ErrorAfter(e, dirs)) <= (SHARDS - least) * Abs(e)
  {
    var f := ErrorAfter(e, dirs);
    var share := e * dirs / SHARDS;
    assert SHARDS * share <= e * dirs <= SHARDS * share + 255;
    ErrorShrinks(e, dirs);
    if e >= 0 {
      LargerProduct(e, least, dirs);
      ExcessDecays(e, f, least);
    } else {
      LargerProduct(-e, least, dirs);
      assert e * dirs == -((-e) * dirs) && SHARDS * -f == SHARDS * -e + SHARDS * share;
      assert (SHARDS - least) * -e == SHARDS * -e - (-e) * least;
    }
  }

  lemma ExcessDecays(e: nat, f: nat, least: nat)
    requires least <= SHARDS && SHARDS * f <= SHARDS * e - e * least + 255
    ensures SHARDS * (least * f - 255) <= (SHARDS - least) * (least * e - 255)
  {
    var x := SHARDS * e - e * least + 255 - SHARDS * f;
    assert least * x >= 0;
    assert least * x == SHARDS * (least * e) - least * (e * least) + 255 * least - SHARDS * (least * f);
    assert (SHARDS - least) * (least * e - 255) ==
      SHARDS * (least * e) - SHARDS * 255 - least * (least * e) + least * 255;
    assert least * (least * e) == least * (e * least);
  }

  lemma Reordered(a: int, b: int, c: int)
    ensures a * (b * c) == (b * a) * c
  {
  }

  lemma ChainedProducts(p: nat, q: nat, a: nat, b: nat, x: int, y: int, z: int)
    requires p * x <= q * y && a * y <= b * z
    ensures (p * a) * x <= (q * b) * z
  {
    ScaledUp(a, p * x, q * y);
    ScaledUp(q, a * y, b * z);
    Reordered(a, p, x);
    Reordered(a, q, y);
    Reordered(q, a, y);
    Reordered(q, b, z);
    assert b * q == q * b && q * a == a * q;
  }

  lemma Chain(p: nat, q: nat, n: nat, x: int, y: int, z: int)
    requires p * x <= q * y && Pow(p, n) * y <= Pow(q, n) * z
    ensures Pow(p, n + 1) * x <= Pow(q, n + 1) * z
  {
    ChainedProducts(p, q, Pow(p, n), Pow(q, n), x, y, z);
  }

  lemma ScaledUp(a: nat, x: int, y: int)
    requires x <= y
    ensures a * x <= a * y
  {
  }

  // ---- The code, cycle after cycle ----

  /** With every figure within a signed 64-bit integer, so is the next one. */
  lemma CycleError(shard: nat, dirs: nat, tracked: nat)
    requires SHARDS * shard <= I64_MAX && tracked <= I64_MAX && dirs <= SHARDS && shard * dirs <= I64_MAX
    ensures ProportionalCorrection(shard * dirs, dirs, tracked) - SHARDS * shard ==
      ErrorAfter(tracked - SHARDS * shard, dirs)
    ensures Abs(ErrorAfter(tracked - SHARDS * shard, dirs)) <= Abs(tracked - SHARDS * shard)
  {
    hide ProportionalCorrection, Corrected, ErrorAfter;
    var e := tracked - SHARDS * shard;
    StaticCacheError(shard, dirs, tracked);
    if dirs == 0 {
      NothingScanned(e);
    } else {
      ErrorShrinks(e, dirs);
    }
    CorrectionIsExactIff(shard * dirs, dirs, tracked);
  }

  lemma NothingScanned(e: int)
    ensures ErrorAfter(e, 0) == e
  {
    assert e * 0 == 0;
  }

  lemma {:induction false} CyclesSettle(shard: nat, ds: seq<nat>, tracked: nat, least: nat)
    requires SHARDS * shard <= I64_MAX && tracked <= I64_MAX && forall i :: 0 <= i < |ds| ==> ds[i] <= SHARDS
    ensures var e, e' := tracked - SHARDS * shard, Cycles(shard, ds, tracked) - SHARDS * shard;
      && Abs(e') <= Abs(e)
      && (1 <= least && (forall i :: 0 <= i < |ds| ==> least <= ds[i]) ==>
        Settled(e', least) || Abs(e') + |ds| <= Abs(e))
    decreases |ds|
  {
    hide ErrorAfter, Settled, ProportionalCorrection;
    if ds != [] {
      var n := |ds| - 1;
      CyclesSettle(shard, ds[..n], tracked, least);
      var before := Cycles(shard, ds[..n], tracked);
      ProductBound(shard, ds[n]);
      CycleError(shard, ds[n], before);
      if 1 <= least && forall i :: 0 <= i < |ds| ==> least <= ds[i] {
        CycleShrinks(before - SHARDS * shard, ds[n], least);
      }
    }
  }

  /** Over a static cache of equal shards no cycle, whatever its size, makes the error larger;
      and cycles over at least `least` shards each bring it within [0, 256 / least), in no more
      of them than the error is large. */
  lemma ErrorSettles(shard: nat, ds: seq<nat>, tracked: nat, least: nat)
    requires SHARDS * shard <= I64_MAX && tracked <= I64_MAX && forall i :: 0 <= i < |ds| ==> ds[i] <= SHARDS
    ensures var e, e' := tracked - SHARDS * shard, Cycles(shard, ds, tracked) - SHARDS * shard;
      && Abs(e') <= Abs(e)
      && (1 <= least && (forall i :: 0 <= i < |ds| ==> least <= ds[i]) && |ds| >= Abs(e) ==> Settled(e', least))
  {
    hide Cycles;
    CyclesSettle(shard, ds, tracked, least);
    assert 0 * least == 0;
  }

  /** An error of `e` has come down to `f` in `n` cycles over at least `m` shards each: to at most
      (1 − m/256)ⁿ·e for a deficit, and to as much but for the rounding for an excess. */
  ghost predicate Decayed(e: int, f: int, n: nat, m: nat)
    requires m <= SHARDS
  {
    var p, q := Pow(SHARDS, n), Pow(SHARDS - m, n);
    && (e >= 0 ==> f >= 0 && p * (m * f - 255) <= q * (m * e - 255))
    && (e <= 0 ==> f <= 0 && p * Abs(f) <= q * Abs(e))
  }

  lemma NotYetDecayed(e: int, m: nat)
    requires m <= SHARDS
    ensures Decayed(e, e, 0, m)
  {
  }

  lemma DecaysFurther(e: int, f: int, dirs: nat, n: nat, m: nat)
    requires 1 <= m <= dirs <= SHARDS && Decayed(e, f, n, m)
    ensures Decayed(e, ErrorAfter(f, dirs), n + 1, m)
  {
    hide ErrorAfter, Pow;
    var g := ErrorAfter(f, dirs);
    ErrorShrinks(f, dirs);
    CycleDecays(f, dirs, m);
    if e >= 0 {
      Chain(SHARDS, SHARDS - m, n, m * g - 255, m * f - 255, m * e - 255);
    }
    if e <= 0 {
      Chain(SHARDS, SHARDS - m, n, Abs(g), Abs(f), Abs(e));
    }
  }

  /** Over a static cache of equal shards the error decays geometrically. */
  lemma {:induction false} ErrorDecays(shard: nat, ds: seq<nat>, tracked: nat, m: nat)
    requires SHARDS * shard <= I64_MAX && tracked <= I64_MAX && 1 <= m <= SHARDS
    requires forall i :: 0 <= i < |ds| ==> m <= ds[i] <= SHARDS
    ensures Decayed(tracked - SHARDS * shard, Cycles(shard, ds, tracked) - SHARDS * shard, |ds|, m)
    decreases |ds|
  {
    hide ErrorAfter, ProportionalCorrection, Decayed;
    var e := tracked - SHARDS * shard;
    if ds == [] {
      NotYetDecayed(e, m);
    } else {
      var n := |ds| - 1;
      ErrorDecays(shard, ds[..n], tracked, m);
      var before := Cycles(shard, ds[..n], tracked);
      ProductBound(shard, ds[n]);
      CycleError(shard, ds[n], before);
      DecaysFurther(e, before - SHARDS * shard, ds[n], n, m);
    }
  }
}
