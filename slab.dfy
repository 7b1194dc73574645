/**
 * The two ray/box slab tests of `helmirt/RTTriangle.h` and the rounding-error
 * bound `gamma` that the robust one uses. All arithmetic is exact real
 * arithmetic; `invD` is the componentwise reciprocal of the ray direction.
 */
module Slab {
  import opened Geometry

  /** `MachineEpsilon`: half of `FLT_EPSILON`, 2^-24, as an exact real. */
  const MachineEpsilon: real := 0.000000059604644775390625

  /** `gamma(n) = n*eps / (1 - n*eps)`: a bound on the relative error of n rounded operations. */
  function Gamma(n: int): (g: real)
    requires n as real * MachineEpsilon != 1.0
    ensures n == 0 ==> g == 0.0
    ensures 0 < n && n as real * MachineEpsilon < 1.0 ==> g > n as real * MachineEpsilon > 0.0
  {
    var a := n as real * MachineEpsilon;
    if 0.0 < a < 1.0 then
      assert a / (1.0 - a) > a by { QuotientAboveNumerator(a, 1.0 - a); }
      a / (1.0 - a)
    else
      a / (1.0 - a)
  }

  /** Dividing a positive number by something in (0, 1) makes it larger. */
  lemma QuotientAboveNumerator(a: real, b: real)
    requires a > 0.0 && 0.0 < b < 1.0
    ensures a / b > a
  {
    var q := a / b;
    assert q * b == a;
    var gap := a * (1.0 - b);
    assert gap > 0.0;
    assert (q - a) * b == gap;
  }

  /** `1 + 2*gamma(3)`: the factor by which the robust test widens each far crossing. */
  function WidenFactor(): (f: real)
    ensures f > 1.0
  {
    assert 3 as real * MachineEpsilon < 1.0;
    1.0 + 2.0 * Gamma(3)
  }

  function Min(a: real, b: real): real { if a < b then a else b }
  function Max(a: real, b: real): real { if a > b then a else b }

  /** Crossing time of the ray with the box's lower plane on axis `i`. */
  function LowCrossing(bb: BoundingBox, orig: Vec3, invD: Vec3, i: nat): real
    requires i < 3
  {
    (bb.min.At(i) - orig.At(i)) * invD.At(i)
  }

  /** Crossing time of the ray with the box's upper plane on axis `i`. */
  function HighCrossing(bb: BoundingBox, orig: Vec3, invD: Vec3, i: nat): real
    requires i < 3
  {
    (bb.max.At(i) - orig.At(i)) * invD.At(i)
  }

  // ---------------------------------------------------------------------------
  // AABBintersect2: value-based swap, widened far crossing, interval [0, 5000]
  // ---------------------------------------------------------------------------

  /** The fixed far-plane bound of the robust test. */
  const FarPlane: real := 5000.0

  /** `tNear` on axis `i` after the swap: the earlier of the two crossings. */
  function TNear(bb: BoundingBox, orig: Vec3, invD: Vec3, i: nat): (t: real)
    requires i < 3
    ensures t <= LowCrossing(bb, orig, invD, i) && t <= HighCrossing(bb, orig, invD, i)
    ensures t == LowCrossing(bb, orig, invD, i) || t == HighCrossing(bb, orig, invD, i)
  {
    Min(LowCrossing(bb, orig, invD, i), HighCrossing(bb, orig, invD, i))
  }

  /** The later of the two crossings on axis `i`, before widening. */
  function TLate(bb: BoundingBox, orig: Vec3, invD: Vec3, i: nat): (t: real)
    requires i < 3
    ensures t >= LowCrossing(bb, orig, invD, i) && t >= HighCrossing(bb, orig, invD, i)
    ensures t == LowCrossing(bb, orig, invD, i) || t == HighCrossing(bb, orig, invD, i)
  {
    Max(LowCrossing(bb, orig, invD, i), HighCrossing(bb, orig, invD, i))
  }

  /** `tFar` on axis `i` after the swap and the widening by `1 + 2*gamma(3)`. */
  function TFar(bb: BoundingBox, orig: Vec3, invD: Vec3, i: nat): (t: real)
    requires i < 3
    ensures TLate(bb, orig, invD, i) >= 0.0 ==> t >= TLate(bb, orig, invD, i)
    ensures TLate(bb, orig, invD, i) < 0.0 ==> t < 0.0
  {
    var late := TLate(bb, orig, invD, i);
    var f := WidenFactor();
    assert late >= 0.0 ==> late * f >= late * 1.0;
    assert late < 0.0 ==> late * f < late * 1.0;
    late * f
  }

  /** `t0` after the first `n` axes: the running maximum, starting from 0. */
  function NearAfter(bb: BoundingBox, orig: Vec3, invD: Vec3, n: nat): real
    requires n <= 3
  {
    if n == 0 then 0.0 else Max(NearAfter(bb, orig, invD, n - 1), TNear(bb, orig, invD, n - 1))
  }

  /** `t1` after the first `n` axes: the running minimum, starting from 5000. */
  function FarAfter(bb: BoundingBox, orig: Vec3, invD: Vec3, n: nat): real
    requires n <= 3
  {
    if n == 0 then FarPlane else Min(FarAfter(bb, orig, invD, n - 1), TFar(bb, orig, invD, n - 1))
  }

  /** `max(0, max_i tNear_i)`. */
  function NearBound(bb: BoundingBox, orig: Vec3, invD: Vec3): real {
    Max(0.0, Max(TNear(bb, orig, invD, 0), Max(TNear(bb, orig, invD, 1), TNear(bb, orig, invD, 2))))
  }

  /** `min(5000, min_i tFar_i)` with each `tFar_i` widened. */
  function FarBound(bb: BoundingBox, orig: Vec3, invD: Vec3): real {
    Min(FarPlane, Min(TFar(bb, orig, invD, 0), Min(TFar(bb, orig, invD, 1), TFar(bb, orig, invD, 2))))
  }

  /** The closed form of `AABBintersect2`: the clamped, widened slab intervals overlap. */
  predicate RobustHit(bb: BoundingBox, orig: Vec3, invD: Vec3) {
    NearBound(bb, orig, invD) <= FarBound(bb, orig, invD)
  }

  /** The running bounds only tighten, and after three axes they are the closed-form bounds. */
  lemma {:induction false} RobustRunningBounds(bb: BoundingBox, orig: Vec3, invD: Vec3, n: nat)
    requires n <= 3
    ensures NearAfter(bb, orig, invD, n) <= NearBound(bb, orig, invD)
    ensures FarAfter(bb, orig, invD, n) >= FarBound(bb, orig, invD)
    ensures n == 3 ==> NearAfter(bb, orig, invD, n) == NearBound(bb, orig, invD)
    ensures n == 3 ==> FarAfter(bb, orig, invD, n) == FarBound(bb, orig, invD)
  {
    var n0, n1, n2 := TNear(bb, orig, invD, 0), TNear(bb, orig, invD, 1), TNear(bb, orig, invD, 2);
    var f0, f1, f2 := TFar(bb, orig, invD, 0), TFar(bb, orig, invD, 1), TFar(bb, orig, invD, 2);
    assert NearAfter(bb, orig, invD, 1) == Max(0.0, n0);
    assert NearAfter(bb, orig, invD, 2) == Max(Max(0.0, n0), n1);
    assert NearAfter(bb, orig, invD, 3) == Max(Max(Max(0.0, n0), n1), n2);
    assert FarAfter(bb, orig, invD, 1) == Min(FarPlane, f0);
    assert FarAfter(bb, orig, invD, 2) == Min(Min(FarPlane, f0), f1);
    assert FarAfter(bb, orig, invD, 3) == Min(Min(Min(FarPlane, f0), f1), f2);
  }

  /**
   * `AABBintersect2`: the three-axis loop with its early exit returns exactly
   * the closed form `max(0, max_i tNear_i) <= min(5000, min_i widened tFar_i)`.
   */
  method AABBIntersect2(bb: BoundingBox, orig: Vec3, invD: Vec3) returns (hit: bool)
    ensures hit == RobustHit(bb, orig, invD)
  {
    var t0, t1 := 0.0, FarPlane;
    for i := 0 to 3
      invariant t0 == NearAfter(bb, orig, invD, i)
      invariant t1 == FarAfter(bb, orig, invD, i)
      invariant t0 <= t1
    {
      var tNear := LowCrossing(bb, orig, invD, i);
      var tFar := HighCrossing(bb, orig, invD, i);
      if tNear > tFar {
        tNear, tFar := tFar, tNear;
      }
      assert tNear == TNear(bb, orig, invD, i) && tFar == TLate(bb, orig, invD, i);
      tFar := tFar * WidenFactor();
      assert tFar == TFar(bb, orig, invD, i);
      t0 := if tNear > t0 then tNear else t0;
      t1 := if tFar < t1 then tFar else t1;
      if t0 > t1 {
        RobustMissAfter(bb, orig, invD, i + 1, t0, t1);
        return false;
      }
    }
    RobustHitAfterAll(bb, orig, invD, t0, t1);
    return true;
  }

  /** Running bounds that have crossed after some axes rule out a robust hit. */
  lemma RobustMissAfter(bb: BoundingBox, orig: Vec3, invD: Vec3, n: nat, t0: real, t1: real)
    requires n <= 3 && t0 == NearAfter(bb, orig, invD, n) && t1 == FarAfter(bb, orig, invD, n)
    requires t0 > t1
    ensures !RobustHit(bb, orig, invD)
  {
    RobustRunningBounds(bb, orig, invD, n);
  }

  /** Running bounds that have not crossed after all three axes make a robust hit. */
  lemma RobustHitAfterAll(bb: BoundingBox, orig: Vec3, invD: Vec3, t0: real, t1: real)
    requires t0 == NearAfter(bb, orig, invD, 3) && t1 == FarAfter(bb, orig, invD, 3)
    requires t0 <= t1
    ensures RobustHit(bb, orig, invD)
  {
    RobustRunningBounds(bb, orig, invD, 3);
  }

  /** `bb` with `min[i]` and `max[i]` exchanged. */
  function SwapAxis(bb: BoundingBox, i: nat): (r: BoundingBox)
    requires i < 3
    ensures r.min.At(i) == bb.max.At(i) && r.max.At(i) == bb.min.At(i)
    ensures forall k | 0 <= k < 3 && k != i :: r.min.At(k) == bb.min.At(k) && r.max.At(k) == bb.max.At(k)
  {
    BoundingBox(bb.min.With(i, bb.max.At(i)), bb.max.With(i, bb.min.At(i)))
  }

  /** Because of the value-based swap, the robust test does not care which corner is `min` on an axis. */
  lemma RobustHitSwapInvariant(bb: BoundingBox, orig: Vec3, invD: Vec3, i: nat)
    requires i < 3
    ensures RobustHit(SwapAxis(bb, i), orig, invD) == RobustHit(bb, orig, invD)
  {
    var sb := SwapAxis(bb, i);
    forall k | 0 <= k < 3
      ensures TNear(sb, orig, invD, k) == TNear(bb, orig, invD, k)
      ensures TFar(sb, orig, invD, k) == TFar(bb, orig, invD, k)
    {
      if k == i {
        assert LowCrossing(sb, orig, invD, k) == HighCrossing(bb, orig, invD, k);
        assert HighCrossing(sb, orig, invD, k) == LowCrossing(bb, orig, invD, k);
      } else {
        assert LowCrossing(sb, orig, invD, k) == LowCrossing(bb, orig, invD, k);
        assert HighCrossing(sb, orig, invD, k) == HighCrossing(bb, orig, invD, k);
      }
    }
  }

  // ---------------------------------------------------------------------------
  // AABBintersect: sign-based swap, no widening, rejects boxes behind the origin
  // ---------------------------------------------------------------------------

  /** Entry time on axis `i`: the crossings are swapped when `invD[i] < 0`. */
  function Entry(bb: BoundingBox, orig: Vec3, invD: Vec3, i: nat): real
    requires i < 3
  {
    if invD.At(i) < 0.0 then HighCrossing(bb, orig, invD, i) else LowCrossing(bb, orig, invD, i)
  }

  /** Exit time on axis `i`. */
  function Exit(bb: BoundingBox, orig: Vec3, invD: Vec3, i: nat): real
    requires i < 3
  {
    if invD.At(i) < 0.0 then LowCrossing(bb, orig, invD, i) else HighCrossing(bb, orig, invD, i)
  }

  /** `start` after axes `0..n-1` (axis 0 initialises it). */
  function StartAfter(bb: BoundingBox, orig: Vec3, invD: Vec3, n: nat): real
    requires 1 <= n <= 3
  {
    if n == 1 then Entry(bb, orig, invD, 0)
    else Max(StartAfter(bb, orig, invD, n - 1), Entry(bb, orig, invD, n - 1))
  }

  /** `end` after axes `0..n-1`. */
  function EndAfter(bb: BoundingBox, orig: Vec3, invD: Vec3, n: nat): real
    requires 1 <= n <= 3
  {
    if n == 1 then Exit(bb, orig, invD, 0)
    else Min(EndAfter(bb, orig, invD, n - 1), Exit(bb, orig, invD, n - 1))
  }

  /** `max_i entry_i`. */
  function StartBound(bb: BoundingBox, orig: Vec3, invD: Vec3): real {
    Max(Entry(bb, orig, invD, 0), Max(Entry(bb, orig, invD, 1), Entry(bb, orig, invD, 2)))
  }

  /** `min_i exit_i`. */
  function EndBound(bb: BoundingBox, orig: Vec3, invD: Vec3): real {
    Min(Exit(bb, orig, invD, 0), Min(Exit(bb, orig, invD, 1), Exit(bb, orig, invD, 2)))
  }

  /** The closed form of `AABBintersect`: the slab intervals overlap and do not end behind the origin. */
  predicate SimpleHit(bb: BoundingBox, orig: Vec3, invD: Vec3) {
    StartBound(bb, orig, invD) <= EndBound(bb, orig, invD) && EndBound(bb, orig, invD) >= 0.0
  }

  lemma {:induction false} SimpleRunningBounds(bb: BoundingBox, orig: Vec3, invD: Vec3, n: nat)
    requires 1 <= n <= 3
    ensures StartAfter(bb, orig, invD, n) <= StartBound(bb, orig, invD)
    ensures EndAfter(bb, orig, invD, n) >= EndBound(bb, orig, invD)
    ensures n == 3 ==> StartAfter(bb, orig, invD, n) == StartBound(bb, orig, invD)
    ensures n == 3 ==> EndAfter(bb, orig, invD, n) == EndBound(bb, orig, invD)
  {
    var n0, n1, n2 := Entry(bb, orig, invD, 0), Entry(bb, orig, invD, 1), Entry(bb, orig, invD, 2);
    var x0, x1, x2 := Exit(bb, orig, invD, 0), Exit(bb, orig, invD, 1), Exit(bb, orig, invD, 2);
    assert StartAfter(bb, orig, invD, 2) == Max(n0, n1);
    assert StartAfter(bb, orig, invD, 3) == Max(Max(n0, n1), n2);
    assert EndAfter(bb, orig, invD, 2) == Min(x0, x1);
    assert EndAfter(bb, orig, invD, 3) == Min(Min(x0, x1), x2);
  }

  /**
   * `AABBintersect`: the three-axis loop with its two early exits returns exactly
   * `max_i entry_i <= min_i exit_i && min_i exit_i >= 0`.
   */
  method AABBIntersect(bb: BoundingBox, orig: Vec3, invD: Vec3) returns (hit: bool)
    ensures hit == SimpleHit(bb, orig, invD)
  {
    // Both are assigned on axis 0 before they are read.
    var start, end := 0.0, 0.0;
    for i := 0 to 3
      invariant i >= 1 ==> start == StartAfter(bb, orig, invD, i)
      invariant i >= 1 ==> end == EndAfter(bb, orig, invD, i)
      invariant i >= 1 ==> start <= end && end >= 0.0
    {
      var t0 := LowCrossing(bb, orig, invD, i);
      var t1 := HighCrossing(bb, orig, invD, i);
      if invD.At(i) < 0.0 {
        t0, t1 := t1, t0;
      }
      assert t0 == Entry(bb, orig, invD, i) && t1 == Exit(bb, orig, invD, i);
      if i == 0 {
        start := t0;
        end := t1;
      } else {
        start := if t0 > start then t0 else start;
        end := if t1 < end then t1 else end;
      }
      if start > end {
        SimpleRunningBounds(bb, orig, invD, i + 1);
        return false;
      }
      if end < 0.0 {
        SimpleRunningBounds(bb, orig, invD, i + 1);
        return false;
      }
    }
    SimpleRunningBounds(bb, orig, invD, 3);
    return true;
  }

  /**
   * For a box with extent, the sign-based swap orders each axis's crossings:
   * the entry time is the earlier crossing and the exit time the later one.
   */
  lemma EntryBeforeExit(bb: BoundingBox, orig: Vec3, invD: Vec3, i: nat)
    requires i < 3 && IsOrdered(bb)
    ensures Entry(bb, orig, invD, i) == TNear(bb, orig, invD, i)
    ensures Exit(bb, orig, invD, i) == TLate(bb, orig, invD, i)
    ensures Entry(bb, orig, invD, i) <= Exit(bb, orig, invD, i)
  {
    var lo, hi, d := bb.min.At(i) - orig.At(i), bb.max.At(i) - orig.At(i), invD.At(i);
    assert lo <= hi by { assert bb.min.At(i) <= bb.max.At(i); }
    assert hi * d - lo * d == (hi - lo) * d;
    if d < 0.0 {
      assert (hi - lo) * d <= 0.0;
    } else {
      assert (hi - lo) * d >= 0.0;
    }
  }

  /**
   * For a box with extent: `AABBintersect` holds iff the
   * latest entry is no later than the earliest exit and that exit is not behind
   * the origin, where every axis has entry <= exit.
   */
  lemma SimpleHitClosedForm(bb: BoundingBox, orig: Vec3, invD: Vec3)
    requires IsOrdered(bb)
    ensures forall i | 0 <= i < 3 :: Entry(bb, orig, invD, i) <= Exit(bb, orig, invD, i)
    ensures SimpleHit(bb, orig, invD) <==>
      Max(TNear(bb, orig, invD, 0), Max(TNear(bb, orig, invD, 1), TNear(bb, orig, invD, 2)))
        <= Min(TLate(bb, orig, invD, 0), Min(TLate(bb, orig, invD, 1), TLate(bb, orig, invD, 2)))
      && Min(TLate(bb, orig, invD, 0), Min(TLate(bb, orig, invD, 1), TLate(bb, orig, invD, 2))) >= 0.0
  {
    EntryBeforeExit(bb, orig, invD, 0);
    EntryBeforeExit(bb, orig, invD, 1);
    EntryBeforeExit(bb, orig, invD, 2);
  }

  /**
   * The two variants agree in one direction: a box with extent that the simple
   * test hits, entered before the far plane, is also hit by the robust test
   * (the widening only enlarges non-negative far crossings).
   */
  lemma SimpleHitImpliesRobustHit(bb: BoundingBox, orig: Vec3, invD: Vec3)
    requires IsOrdered(bb)
    requires SimpleHit(bb, orig, invD) && StartBound(bb, orig, invD) <= FarPlane
    ensures RobustHit(bb, orig, invD)
  {
    EntryBeforeExit(bb, orig, invD, 0);
    EntryBeforeExit(bb, orig, invD, 1);
    EntryBeforeExit(bb, orig, invD, 2);
    var end := EndBound(bb, orig, invD);
    assert TFar(bb, orig, invD, 0) >= end;
    assert TFar(bb, orig, invD, 1) >= end;
    assert TFar(bb, orig, invD, 2) >= end;
  }

  /** A box whose slab on some axis lies wholly behind the origin is missed by both tests. */
  lemma BehindOriginMissed(bb: BoundingBox, orig: Vec3, invD: Vec3, i: nat)
    requires i < 3 && IsOrdered(bb)
    requires LowCrossing(bb, orig, invD, i) < 0.0 && HighCrossing(bb, orig, invD, i) < 0.0
    ensures !RobustHit(bb, orig, invD)
    ensures !SimpleHit(bb, orig, invD)
  {
    EntryBeforeExit(bb, orig, invD, i);
    assert TFar(bb, orig, invD, i) < 0.0;
    assert Exit(bb, orig, invD, i) < 0.0;
    assert EndBound(bb, orig, invD) <= Exit(bb, orig, invD, i);
  }
}
