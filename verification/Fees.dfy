/**
 The Amulet transfer fee: a step schedule charged by a loop that returns early, against the sum
 over brackets of rate times the part of the amount inside the bracket (sim-fee/src/lib.rs).
 Amounts and rates are exact; `round_dp(10)` is the one rounding, half to even.
 */
module Fees {

  datatype Step = Step(threshold: real, rate: real)

  datatype Schedule = Schedule(initialRate: real, steps: seq<Step>)

  // ----- rounding

  const UNITS: real := 10_000_000_000.0

  function RoundHalfEven(y: real): int {
    var low := y.Floor;
    var rest := y - low as real;
    if rest < 0.5 then low
    else if rest > 0.5 then low + 1
    else if low % 2 == 0 then low else low + 1
  }

  /** No whole number is nearer to `y` than `n`, and where another is as near, `n` is the even one. */
  predicate NearestEven(y: real, n: int) {
    var off := n as real - y;
    -0.5 <= off <= 0.5 && (off == 0.5 || off == -0.5 ==> n % 2 == 0)
  }

  /** Nearness and evenness determine the rounding. */
  lemma RoundHalfEvenExactly(y: real, n: int)
    ensures RoundHalfEven(y) == n <==> NearestEven(y, n)
  {
    var r := RoundHalfEven(y);
    assert NearestEven(y, r);
    assert NearestEven(y, n) ==> n == r - 1 || n == r || n == r + 1;
  }

  /** `round_dp(10)` */
  function RoundDp(x: real): real {
    RoundHalfEven(x * UNITS) as real / UNITS
  }

  lemma RoundHalfEvenMonotone(x: real, y: real)
    requires x <= y
    ensures RoundHalfEven(x) <= RoundHalfEven(y)
  {
  }

  lemma RoundDpMonotone(x: real, y: real)
    requires x <= y
    ensures RoundDp(x) <= RoundDp(y)
  {
    RoundHalfEvenMonotone(x * UNITS, y * UNITS);
  }

  /** Rounding moves a fee by at most half a unit in the tenth place. */
  lemma RoundDpNear(x: real)
    ensures -0.5 <= (RoundDp(x) - x) * UNITS <= 0.5
  {
    var n := RoundHalfEven(x * UNITS);
    assert (n as real / UNITS) * UNITS == n as real;
  }

  // ----- the bracket sum

  /** The part of `a` above `lo`. */
  function Above(a: real, lo: real): real {
    if a > lo then a - lo else 0.0
  }

  function Min(a: real, b: real): real {
    if a <= b then a else b
  }

  /** The part of `a` inside `[lo, hi)`. */
  function Inside(a: real, lo: real, hi: real): real {
    Above(Min(a, hi), lo)
  }

  /** Each bracket's rate on the part of the amount inside it, from the bracket opening at `lo`. */
  function Bracketed(a: real, lo: real, rate: real, steps: seq<Step>): real
    decreases |steps|
  {
    if steps == [] then rate * Above(a, lo)
    else rate * Inside(a, lo, steps[0].threshold) + Bracketed(a, steps[0].threshold, steps[0].rate, steps[1..])
  }

  /** No threshold is below `lo` or the one before it. */
  predicate NonFalling(lo: real, steps: seq<Step>)
    decreases |steps|
  {
    steps == [] || (lo <= steps[0].threshold && NonFalling(steps[0].threshold, steps[1..]))
  }

  predicate WellFormed(s: Schedule) {
    NonFalling(0.0, s.steps)
  }

  /** The fee before rounding. */
  function Unrounded(s: Schedule, amount: real): real {
    if amount <= 0.0 then 0.0 else Bracketed(amount, 0.0, s.initialRate, s.steps)
  }

  /** Brackets an amount does not reach charge nothing. */
  lemma {:induction false} UnreachedIsFree(a: real, lo: real, rate: real, steps: seq<Step>)
    requires a <= lo && NonFalling(lo, steps)
    ensures Bracketed(a, lo, rate, steps) == 0.0
    decreases |steps|
  {
    if steps != [] {
      UnreachedIsFree(a, steps[0].threshold, steps[0].rate, steps[1..]);
    }
  }

  /** A bracket the amount runs past is charged whole. */
  lemma WholeBracket(a: real, lo: real, rate: real, steps: seq<Step>)
    requires steps != [] && lo <= steps[0].threshold < a
    ensures Bracketed(a, lo, rate, steps)
         == (steps[0].threshold - lo) * rate + Bracketed(a, steps[0].threshold, steps[0].rate, steps[1..])
  {
  }

  /** The bracket the amount ends in is charged up to the amount, and nothing follows. */
  lemma LastBracket(a: real, lo: real, rate: real, steps: seq<Step>)
    requires lo < a && NonFalling(lo, steps) && (steps != [] ==> a <= steps[0].threshold)
    ensures Bracketed(a, lo, rate, steps) == (a - lo) * rate
  {
    if steps != [] {
      UnreachedIsFree(a, steps[0].threshold, steps[0].rate, steps[1..]);
    }
  }

  /** What the loop charges on whatever schedule, sorted or not, from the bracket opening at `lo`. */
  function Charged(a: real, lo: real, rate: real, steps: seq<Step>): real
    decreases |steps|
  {
    if steps == [] || a <= steps[0].threshold then (a - lo) * rate
    else (steps[0].threshold - lo) * rate + Charged(a, steps[0].threshold, steps[0].rate, steps[1..])
  }

  /** On thresholds in order that is the bracket sum. */
  lemma {:induction false} ChargedIsBracketed(a: real, lo: real, rate: real, steps: seq<Step>)
    requires lo < a && NonFalling(lo, steps)
    ensures Charged(a, lo, rate, steps) == Bracketed(a, lo, rate, steps)
    decreases |steps|
  {
    if steps == [] || a <= steps[0].threshold {
      LastBracket(a, lo, rate, steps);
    } else {
      WholeBracket(a, lo, rate, steps);
      ChargedIsBracketed(a, steps[0].threshold, steps[0].rate, steps[1..]);
    }
  }

  // ----- exactly when the loop is the bracket sum

  predicate SameThresholds(s: seq<Step>, t: seq<Step>) {
    |s| == |t| && forall i :: 0 <= i < |s| ==> s[i].threshold == t[i].threshold
  }

  lemma {:induction false} NonFallingByThresholds(lo: real, s: seq<Step>, t: seq<Step>)
    requires SameThresholds(s, t)
    ensures NonFalling(lo, s) <==> NonFalling(lo, t)
    decreases |s|
  {
    if s != [] {
      NonFallingByThresholds(s[0].threshold, s[1..], t[1..]);
    }
  }

  /** The same thresholds, every rate nothing. */
  function Free(steps: seq<Step>): (r: seq<Step>)
    ensures SameThresholds(steps, r)
  {
    if steps == [] then [] else [Step(steps[0].threshold, 0.0)] + Free(steps[1..])
  }

  lemma {:induction false} FreeChargesNothing(a: real, lo: real, steps: seq<Step>)
    ensures Charged(a, lo, 0.0, Free(steps)) == 0.0 && Bracketed(a, lo, 0.0, Free(steps)) == 0.0
    decreases |steps|
  {
    if steps != [] {
      assert Free(steps)[1..] == Free(steps[1..]);
      FreeChargesNothing(a, steps[0].threshold, steps[1..]);
    }
  }

  /** Where a threshold falls, charging only the bracket it closes goes backwards. */
  lemma {:induction false} FallShows(lo: real, steps: seq<Step>) returns (a: real, rate: real, other: seq<Step>)
    requires !NonFalling(lo, steps)
    ensures a > lo && SameThresholds(steps, other)
    ensures Charged(a, lo, rate, other) != Bracketed(a, lo, rate, other)
    decreases |steps|
  {
    var t := steps[0].threshold;
    if t < lo {
      a, rate, other := lo + 1.0, 1.0, Free(steps);
      assert other[1..] == Free(steps[1..]);
      FreeChargesNothing(a, t, steps[1..]);
    } else {
      var inner: real, rest: seq<Step>;
      a, inner, rest := FallShows(t, steps[1..]);
      rate, other := 0.0, [Step(t, inner)] + rest;
      assert other[1..] == rest;
    }
  }

  /** Whatever the rates, the loop charges the bracket sum on these thresholds. */
  ghost predicate AlwaysBracketed(steps: seq<Step>) {
    forall a: real, rate: real, other: seq<Step> | a > 0.0 && SameThresholds(steps, other) ::
      Charged(a, 0.0, rate, other) == Bracketed(a, 0.0, rate, other)
  }

  /** For all amounts and rates, exactly when no threshold falls below the one before, or zero. */
  lemma LoopIsBracketSumExactly(steps: seq<Step>)
    ensures AlwaysBracketed(steps) <==> NonFalling(0.0, steps)
  {
    if NonFalling(0.0, steps) {
      forall a: real, rate: real, other: seq<Step> | a > 0.0 && SameThresholds(steps, other)
        ensures Charged(a, 0.0, rate, other) == Bracketed(a, 0.0, rate, other)
      {
        NonFallingByThresholds(0.0, steps, other);
        ChargedIsBracketed(a, 0.0, rate, other);
      }
    } else {
      var a, rate, other := FallShows(0.0, steps);
    }
  }

  /** A whole number of units of the tenth decimal place, the nearest to `x`, ties to the even one. */
  ghost predicate RoundedToTenPlaces(fee: real, x: real) {
    var n := (fee * 10_000_000_000.0).Floor;
    fee * 10_000_000_000.0 == n as real && NearestEven(x * 10_000_000_000.0, n)
  }

  /** One fee, and one only, is the rounding of a charge. */
  lemma RoundDpExactly(fee: real, x: real)
    ensures fee == RoundDp(x) <==> RoundedToTenPlaces(fee, x)
  {
    hide RoundHalfEven, NearestEven;
    RoundHalfEvenExactly(x * UNITS, RoundHalfEven(x * UNITS));
    RoundHalfEvenExactly(x * UNITS, (fee * UNITS).Floor);
    RoundDpUnits(x);
  }

  /** `transfer_fee_usd` */
  method TransferFee(s: Schedule, amount: real) returns (fee: real)
    ensures amount <= 0.0 ==> fee == 0.0
    ensures amount > 0.0 ==> RoundedToTenPlaces(fee, Charged(amount, 0.0, s.initialRate, s.steps))
    ensures WellFormed(s) ==> RoundedToTenPlaces(fee, Unrounded(s, amount)) && fee == RoundDp(Unrounded(s, amount))
  {
    hide RoundDp, Bracketed, RoundedToTenPlaces;
    RoundDpExactly(RoundDp(Charged(amount, 0.0, s.initialRate, s.steps)), Charged(amount, 0.0, s.initialRate, s.steps));
    RoundDpExactly(RoundDp(Unrounded(s, amount)), Unrounded(s, amount));
    if amount <= 0.0 {
      RoundZero();
      return 0.0;
    }
    if WellFormed(s) {
      ChargedIsBracketed(amount, 0.0, s.initialRate, s.steps);
    }
    fee := 0.0;
    var lower, rate := 0.0, s.initialRate;
    for i := 0 to |s.steps|
      invariant fee + Charged(amount, lower, rate, s.steps[i..]) == Charged(amount, 0.0, s.initialRate, s.steps)
    {
      var step := s.steps[i];
      assert s.steps[i..][1..] == s.steps[i + 1..];
      if amount <= step.threshold {
        fee := fee + (amount - lower) * rate;
        return RoundDp(fee);
      }
      fee := fee + (step.threshold - lower) * rate;
      lower := step.threshold;
      rate := step.rate;
    }
    fee := fee + (amount - lower) * rate;
    fee := RoundDp(fee);
  }

  lemma RoundZero()
    ensures RoundDp(0.0) == 0.0
  {
  }

  // ----- monotone

  predicate NonNegative(rate: real, steps: seq<Step>) {
    rate >= 0.0 && forall i :: 0 <= i < |steps| ==> steps[i].rate >= 0.0
  }

  lemma ScaleMonotone(rate: real, x: real, y: real)
    requires rate >= 0.0 && x <= y
    ensures rate * x <= rate * y
  {
  }

  lemma {:induction false} BracketedMonotone(a: real, b: real, lo: real, rate: real, steps: seq<Step>)
    requires a <= b && NonNegative(rate, steps)
    ensures 0.0 <= Bracketed(a, lo, rate, steps) <= Bracketed(b, lo, rate, steps)
    decreases |steps|
  {
    hide Above, Inside;
    PartsMonotone(a, b, lo, if steps == [] then lo else steps[0].threshold);
    if steps == [] {
      ScaleMonotone(rate, Above(a, lo), Above(b, lo));
      ScaleMonotone(rate, 0.0, Above(a, lo));
    } else {
      var t := steps[0].threshold;
      ScaleMonotone(rate, Inside(a, lo, t), Inside(b, lo, t));
      ScaleMonotone(rate, 0.0, Inside(a, lo, t));
      assert NonNegative(steps[0].rate, steps[1..]);
      BracketedMonotone(a, b, t, steps[0].rate, steps[1..]);
    }
  }

  lemma PartsMonotone(a: real, b: real, lo: real, hi: real)
    requires a <= b
    ensures 0.0 <= Above(a, lo) <= Above(b, lo)
    ensures 0.0 <= Inside(a, lo, hi) <= Inside(b, lo, hi)
  {
  }

  /** A larger transfer never pays less, rounding included. */
  lemma FeeMonotone(s: Schedule, a: real, b: real)
    requires NonNegative(s.initialRate, s.steps) && a <= b
    ensures 0.0 <= RoundDp(Unrounded(s, a)) <= RoundDp(Unrounded(s, b))
  {
    hide RoundDp;
    BracketedMonotone(a, b, 0.0, s.initialRate, s.steps);
    BracketedMonotone(b, b, 0.0, s.initialRate, s.steps);
    RoundDpMonotone(0.0, Unrounded(s, a));
    RoundDpMonotone(Unrounded(s, a), Unrounded(s, b));
    RoundZero();
  }

  // ----- subadditive

  /** Rates that only fall from bracket to bracket. */
  predicate Falling(rate: real, steps: seq<Step>)
    decreases |steps|
  {
    steps == [] || (rate >= steps[0].rate && Falling(steps[0].rate, steps[1..]))
  }

  function Part(a: real, drop: real, t: real): real {
    drop * Min(a, t)
  }

  /** The bracket sum by parts: each threshold's drop in rate on the amount up to it. */
  function ByParts(a: real, rate: real, steps: seq<Step>): real
    decreases |steps|
  {
    if steps == [] then rate * a
    else Part(a, rate - steps[0].rate, steps[0].threshold) + ByParts(a, steps[0].rate, steps[1..])
  }

  lemma Distribute(rate: real, x: real, y: real)
    ensures rate * (x + y) == rate * x + rate * y && (x - y) * rate == x * rate - y * rate
  {
  }

  lemma {:induction false} BracketedByParts(a: real, lo: real, rate: real, steps: seq<Step>)
    requires NonFalling(lo, steps)
    ensures Bracketed(a, lo, rate, steps) + rate * Min(a, lo) == ByParts(a, rate, steps)
    decreases |steps|
  {
    if steps == [] {
      Distribute(rate, Above(a, lo), Min(a, lo));
      assert Above(a, lo) + Min(a, lo) == a;
    } else {
      var t, next := steps[0].threshold, steps[0].rate;
      BracketedByParts(a, t, next, steps[1..]);
      Distribute(rate, Inside(a, lo, t), Min(a, lo));
      assert Inside(a, lo, t) + Min(a, lo) == Min(a, t);
      assert (rate - next) * Min(a, t) == rate * Min(a, t) - next * Min(a, t);
    }
  }

  lemma {:induction false} ByPartsSubadditive(a: real, b: real, rate: real, steps: seq<Step>, lo: real)
    requires a >= 0.0 && b >= 0.0 && lo >= 0.0 && NonFalling(lo, steps) && Falling(rate, steps)
    ensures ByParts(a + b, rate, steps) <= ByParts(a, rate, steps) + ByParts(b, rate, steps)
    decreases |steps|
  {
    if steps == [] {
      Distribute(rate, a, b);
    } else {
      hide Part;
      ByPartsSubadditive(a, b, steps[0].rate, steps[1..], steps[0].threshold);
      PartSubadditive(rate - steps[0].rate, a, b, steps[0].threshold);
    }
  }

  lemma PartSubadditive(drop: real, a: real, b: real, t: real)
    requires drop >= 0.0 && a >= 0.0 && b >= 0.0 && t >= 0.0
    ensures Part(a + b, drop, t) <= Part(a, drop, t) + Part(b, drop, t)
  {
    ScaleMonotone(drop, Min(a + b, t), Min(a, t) + Min(b, t));
    Distribute(drop, Min(a, t), Min(b, t));
  }

  /** With falling rates, splitting a payment never lowers the unrounded fee. */
  lemma SplittingNeverSaves(s: Schedule, a: real, b: real)
    requires WellFormed(s) && Falling(s.initialRate, s.steps) && a >= 0.0 && b >= 0.0
    ensures Unrounded(s, a + b) <= Unrounded(s, a) + Unrounded(s, b)
  {
    UnroundedByParts(s, a);
    UnroundedByParts(s, b);
    UnroundedByParts(s, a + b);
    ByPartsSubadditive(a, b, s.initialRate, s.steps, 0.0);
  }

  lemma UnroundedByParts(s: Schedule, a: real)
    requires WellFormed(s) && a >= 0.0
    ensures Unrounded(s, a) == ByParts(a, s.initialRate, s.steps)
  {
    BracketedByParts(a, 0.0, s.initialRate, s.steps);
    if a == 0.0 {
      UnreachedIsFree(a, 0.0, s.initialRate, s.steps);
    }
  }

  /** After rounding a split saves at most one unit in the tenth place. */
  lemma SplittingSavesAtMostOneUnit(s: Schedule, a: real, b: real)
    requires WellFormed(s) && Falling(s.initialRate, s.steps) && a >= 0.0 && b >= 0.0
    ensures
      (RoundDp(Unrounded(s, a + b)) - RoundDp(Unrounded(s, a)) - RoundDp(Unrounded(s, b))) * UNITS <= 1.0
  {
    hide Unrounded, RoundHalfEven;
    SplittingNeverSaves(s, a, b);
    RoundDpUnits(Unrounded(s, a + b));
    RoundDpUnits(Unrounded(s, a));
    RoundDpUnits(Unrounded(s, b));
    RoundDpNear(Unrounded(s, a + b));
    RoundDpNear(Unrounded(s, a));
    RoundDpNear(Unrounded(s, b));
    var x, y := RoundHalfEven(Unrounded(s, a) * UNITS), RoundHalfEven(Unrounded(s, b) * UNITS);
    var z := RoundHalfEven(Unrounded(s, a + b) * UNITS);
    assert (z - x - y) as real <= 1.5;
  }

  /** A rounded fee is a whole number of units. */
  lemma RoundDpUnits(x: real)
    ensures RoundDp(x) * UNITS == RoundHalfEven(x * UNITS) as real
  {
    assert (RoundHalfEven(x * UNITS) as real / UNITS) * UNITS == RoundHalfEven(x * UNITS) as real;
  }

  /** And that unit can be saved: two halves of a unit each round to nothing, together to one. */
  lemma OneUnitSaved() returns (s: Schedule)
    ensures WellFormed(s) && Falling(s.initialRate, s.steps)
    ensures RoundDp(Unrounded(s, 1.0)) == 0.0
    ensures RoundDp(Unrounded(s, 1.0 + 1.0)) * UNITS == 1.0
  {
    var half := 0.5 / UNITS;
    s := Schedule(half, []);
    assert Unrounded(s, 1.0) == half && half * UNITS == 0.5;
    assert Unrounded(s, 1.0 + 1.0) == 2.0 * half && (2.0 * half) * UNITS == 1.0;
    assert RoundHalfEven(0.5) == 0 && RoundHalfEven(1.0) == 1;
    RoundDpUnits(2.0 * half);
  }

  // ----- exactly when rounding lets a split save

  predicate SavesAt(s: Schedule, a: real, b: real) {
    && a >= 0.0 && b >= 0.0
    && RoundDp(Unrounded(s, a + b)) > RoundDp(Unrounded(s, a)) + RoundDp(Unrounded(s, b))
  }

  ghost predicate SplitSaves(s: Schedule) {
    exists a: real, b: real :: SavesAt(s, a, b)
  }

  ghost predicate EverCharges(s: Schedule) {
    exists x: real :: x >= 0.0 && RoundDp(Unrounded(s, x)) > 0.0
  }

  /** A fee is at most the first rate on the whole amount. */
  lemma {:induction false} AtMostFirstRate(a: real, rate: real, steps: seq<Step>)
    requires a >= 0.0 && Falling(rate, steps) && NonNegative(rate, steps)
    ensures ByParts(a, rate, steps) <= rate * a
    decreases |steps|
  {
    if steps != [] {
      var next := steps[0].rate;
      assert NonNegative(next, steps[1..]);
      hide Part;
      AtMostFirstRate(a, next, steps[1..]);
      PartAtMost(a, rate - next, steps[0].threshold);
      Distribute(a, rate, next);
    }
  }

  lemma PartAtMost(a: real, drop: real, t: real)
    requires drop >= 0.0
    ensures Part(a, drop, t) <= drop * a
  {
    ScaleMonotone(drop, Min(a, t), a);
  }

  lemma UpToHalfAUnitIsFree(x: real)
    requires 0.0 <= x * UNITS <= 0.5
    ensures RoundDp(x) == 0.0
  {
    assert RoundHalfEven(x * UNITS) == 0;
  }

  lemma AboveHalfAUnitCharges(x: real)
    requires x * UNITS > 0.5
    ensures RoundDp(x) > 0.0
  {
    assert RoundHalfEven(x * UNITS) >= 1;
    RoundDpUnits(x);
  }

  /** Halving an amount that is charged comes to one whose halves are not. */
  lemma HalvingSaves(s: Schedule, x: real)
    requires WellFormed(s) && Falling(s.initialRate, s.steps) && NonNegative(s.initialRate, s.steps)
    requires x >= 0.0 && RoundDp(Unrounded(s, x)) > 0.0
    ensures SplitSaves(s)
    decreases (s.initialRate * x * UNITS * 2.0).Floor
  {
    hide RoundDp, ByParts, Falling, NonNegative, WellFormed, Unrounded;
    var half := x / 2.0;
    var fee := Unrounded(s, half);
    assert half + half == x;
    NeverNegative(s, half);
    if fee * UNITS <= 0.5 {
      UpToHalfAUnitIsFree(fee);
      assert SavesAt(s, half, half);
    } else {
      AboveHalfAUnitCharges(fee);
      UnroundedByParts(s, half);
      AtMostFirstRate(half, s.initialRate, s.steps);
      HalfTheBound(s.initialRate, x, fee);
      HalvingSaves(s, half);
    }
  }

  lemma NeverNegative(s: Schedule, a: real)
    requires NonNegative(s.initialRate, s.steps)
    ensures 0.0 <= Unrounded(s, a) * UNITS
  {
    BracketedMonotone(a, a, 0.0, s.initialRate, s.steps);
  }

  lemma HalfTheBound(rate: real, x: real, fee: real)
    requires fee <= rate * (x / 2.0) && fee * UNITS > 0.5
    ensures 0 <= (rate * (x / 2.0) * UNITS * 2.0).Floor < (rate * x * UNITS * 2.0).Floor
  {
    var part := rate * (x / 2.0);
    assert rate * x == 2.0 * part;
    assert part * UNITS >= fee * UNITS > 0.5;
  }

  lemma SavingCharges(s: Schedule)
    requires NonNegative(s.initialRate, s.steps) && SplitSaves(s)
    ensures EverCharges(s)
  {
    hide RoundDp, Unrounded, NonNegative;
    var a, b :| SavesAt(s, a, b);
    FeeMonotone(s, a, a);
    FeeMonotone(s, b, b);
    var whole := a + b;
    assert whole >= 0.0 && RoundDp(Unrounded(s, whole)) > 0.0;
  }

  /** Rounding lets some split save exactly when the schedule ever charges anything. */
  lemma SplitSavesExactly(s: Schedule)
    requires WellFormed(s) && Falling(s.initialRate, s.steps) && NonNegative(s.initialRate, s.steps)
    ensures SplitSaves(s) <==> EverCharges(s)
  {
    hide RoundDp, Unrounded, Falling, NonNegative, WellFormed, SplitSaves;
    if SplitSaves(s) {
      SavingCharges(s);
    }
    if EverCharges(s) {
      var x :| x >= 0.0 && RoundDp(Unrounded(s, x)) > 0.0;
      HalvingSaves(s, x);
    }
  }

  // ----- exactly which rates never reward a split

  predicate SameRates(s: seq<Step>, t: seq<Step>) {
    |s| == |t| && forall i :: 0 <= i < |s| ==> s[i].rate == t[i].rate
  }

  ghost predicate Subadditive(s: Schedule) {
    forall a: real, b: real | a >= 0.0 && b >= 0.0 :: Unrounded(s, a + b) <= Unrounded(s, a) + Unrounded(s, b)
  }

  /** Whatever thresholds in order these rates are put on, no split saves before rounding. */
  ghost predicate NeverRewardSplitting(rate: real, steps: seq<Step>) {
    forall other: seq<Step> | SameRates(steps, other) && NonFalling(0.0, other) :: Subadditive(Schedule(rate, other))
  }

  lemma {:induction false} FallingByRates(rate: real, s: seq<Step>, t: seq<Step>)
    requires SameRates(s, t)
    ensures Falling(rate, s) <==> Falling(rate, t)
    decreases |s|
  {
    if s != [] {
      FallingByRates(s[0].rate, s[1..], t[1..]);
    }
  }

  /** The same rates, all from the amount two on. */
  function FromTwo(steps: seq<Step>): (r: seq<Step>)
    ensures SameRates(steps, r) && NonFalling(2.0, r)
  {
    if steps == [] then [] else [Step(2.0, steps[0].rate)] + FromTwo(steps[1..])
  }

  /** Where a rate rises, thresholds that leave only that rise below two make a split of two cheaper. */
  lemma {:induction false} RiseShows(rate: real, steps: seq<Step>) returns (other: seq<Step>)
    requires !Falling(rate, steps)
    ensures SameRates(steps, other) && NonFalling(0.0, other)
    ensures Bracketed(2.0, 0.0, rate, other) > 2.0 * Bracketed(1.0, 0.0, rate, other)
    decreases |steps|
  {
    var next := steps[0].rate;
    if rate < next {
      var rest := FromTwo(steps[1..]);
      other := [Step(1.0, next)] + rest;
      assert other[1..] == rest;
      LastBracket(1.0, 0.0, rate, other);
      WholeBracket(2.0, 0.0, rate, other);
      LastBracket(2.0, 1.0, next, rest);
    } else {
      var rest := RiseShows(next, steps[1..]);
      other := [Step(0.0, next)] + rest;
      assert other[1..] == rest;
    }
  }

  /** Rates that rise anywhere reward a split on some ordered thresholds. */
  lemma RisingRatesRewardSplitting(rate: real, steps: seq<Step>) returns (s: Schedule)
    requires !Falling(rate, steps)
    ensures s.initialRate == rate && SameRates(steps, s.steps) && WellFormed(s)
    ensures Unrounded(s, 1.0 + 1.0) > Unrounded(s, 1.0) + Unrounded(s, 1.0)
  {
    hide Bracketed;
    var other := RiseShows(rate, steps);
    s := Schedule(rate, other);
  }

  /** Rates never reward a split before rounding exactly when they never rise. */
  lemma FallingRatesExactly(rate: real, steps: seq<Step>)
    ensures NeverRewardSplitting(rate, steps) <==> Falling(rate, steps)
  {
    hide Unrounded;
    if Falling(rate, steps) {
      forall other: seq<Step> | SameRates(steps, other) && NonFalling(0.0, other)
        ensures Subadditive(Schedule(rate, other))
      {
        FallingByRates(rate, steps, other);
        forall a: real, b: real | a >= 0.0 && b >= 0.0
          ensures Unrounded(Schedule(rate, other), a + b)
               <= Unrounded(Schedule(rate, other), a) + Unrounded(Schedule(rate, other), b)
        {
          SplittingNeverSaves(Schedule(rate, other), a, b);
        }
      }
    } else {
      var s := RisingRatesRewardSplitting(rate, steps);
      assert !Subadditive(s);
      assert s == Schedule(rate, s.steps);
    }
  }
}
