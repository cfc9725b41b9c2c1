/**
 The smoothing filter for landmark positions.

 `Step` describes what one call does to the state of the filter. The promises of the filter are about whole runs of calls and are proved about
 runs of `Step`.
 */
module VelocityFilters {

  datatype DistanceMode = KLegacyTransition | KForceCurrentScale

  datatype WindowElement = WindowElement(distance: real, duration: int)

  /** The state of the low-pass filter: the smoothing factor and, once there has been one, the last result. */
  datatype LowPass = LowPass(alpha: real, stored: real, initialized: bool)

  datatype Config = Config(maxWindowSize: nat, velocityScale: real, targetFps: int, mode: DistanceMode) {
    predicate Valid() {
      targetFps != 0
    }
  }

  /** `lastTimestamp` is in nanoseconds; 0 is the time before any call. */
  datatype State = State(lastValue: real, lastValueScale: real, lastTimestamp: int, window: seq<WindowElement>, lowPass: LowPass)

  datatype Frame = Frame(timestamp: int, valueScale: real, value: real)

  function AbsReal(x: real): real {
    if x < 0.0 then -x else x
  }

  /** Division of integers that truncates toward zero. */
  function Quotient(a: int, b: int): int
    requires b != 0
  {
    if a >= 0 then a / b else -((-a) / b)
  }

  const NANOS_PER_SECOND := 1000000000

  // ---------------------------------------------------------------- one call

  function Distance(mode: DistanceMode, st: State, f: Frame): real {
    match mode
    case KLegacyTransition => f.value * f.valueScale - st.lastValue * st.lastValueScale
    case KForceCurrentScale => f.valueScale * (f.value - st.lastValue)
  }

  /** Distance and duration with those of the window elements added, until the duration would exceed `limit`. */
  function Cumulate(window: seq<WindowElement>, limit: int, distance: real, duration: int): (real, int)
  {
    if window == [] || duration + window[0].duration > limit then (distance, duration)
    else Cumulate(window[1..], limit, distance + window[0].distance, duration + window[0].duration)
  }

  function MaxDuration(cfg: Config, window: seq<WindowElement>): int
    requires cfg.Valid()
  {
    (1 + |window|) * Quotient(NANOS_PER_SECOND, cfg.targetFps)
  }

  /** The distance covered and the time taken lately. */
  function Motion(cfg: Config, st: State, f: Frame): (real, int)
    requires cfg.Valid()
  {
    Cumulate(st.window, MaxDuration(cfg, st.window), Distance(cfg.mode, st, f), f.timestamp - st.lastTimestamp)
  }

  /** The divisor that the smoothing factor is computed with. */
  function Divisor(cfg: Config, distance: real, duration: int): real
    requires duration > 0
  {
    1.0 + cfg.velocityScale * AbsReal(distance / (duration as real / NANOS_PER_SECOND as real))
  }

  /**
   The faster the motion, the closer to 1, as long as the scale is not negative. A divisor of
   zero gives an infinite result; like every result out of range it is ignored, which any
   negative number stands for.
   */
  function AlphaOf(cfg: Config, distance: real, duration: int): real
    requires duration > 0
  {
    if Divisor(cfg, distance, duration) == 0.0 then -1.0 else 1.0 - 1.0 / Divisor(cfg, distance, duration)
  }

  function Pushed(cfg: Config, window: seq<WindowElement>, el: WindowElement): seq<WindowElement> {
    var w := [el] + window;
    if |w| > cfg.maxWindowSize then w[..|w| - 1] else w
  }

  /** The mean of `x` and `y`, with the share `a` of `x`. */
  function Blended(a: real, x: real, y: real): real {
    a * x + (1.0 - a) * y
  }

  /** The factor in use once `alpha` has been set: one out of range is ignored. */
  function Factor(lp: LowPass, alpha: real): (a: real)
    ensures 0.0 <= lp.alpha <= 1.0 ==> 0.0 <= a <= 1.0
  {
    if alpha < 0.0 || alpha > 1.0 then lp.alpha else alpha
  }

  function Smooth(lp: LowPass, value: real, alpha: real): (LowPass, real) {
    var a := Factor(lp, alpha);
    var result := if lp.initialized then Blended(a, value, lp.stored) else value;
    (LowPass(a, result, true), result)
  }

  /** What every call finds and leaves: past durations are not negative, and something is stored once time has begun. */
  predicate StateOk(st: State) {
    && st.lastTimestamp >= 0
    && (st.lowPass.initialized <==> st.lastTimestamp != 0)
    && 0.0 <= st.lowPass.alpha <= 1.0
    && (forall i :: 0 <= i < |st.window| ==> st.window[i].duration >= 0)
  }

  function Initial(cfg: Config): (st: State)
    ensures StateOk(st) && |st.window| == cfg.maxWindowSize
  {
    State(0.0, 1.0, 0, seq(cfg.maxWindowSize, i => WindowElement(0.0, 0)), LowPass(1.0, 0.0, false))
  }

  /** A call whose timestamp is not later than the last one has no effect on the state. */
  predicate Accepted(st: State, f: Frame) {
    f.timestamp > st.lastTimestamp
  }

  /** The duration that the velocity is computed with is positive. */
  lemma {:induction false} CumulateLonger(window: seq<WindowElement>, limit: int, distance: real, duration: int)
    requires forall i :: 0 <= i < |window| ==> window[i].duration >= 0
    ensures Cumulate(window, limit, distance, duration).1 >= duration
  {
    if window != [] && duration + window[0].duration <= limit {
      CumulateLonger(window[1..], limit, distance + window[0].distance, duration + window[0].duration);
    }
  }

  lemma MotionLonger(cfg: Config, st: State, f: Frame)
    requires cfg.Valid() && StateOk(st) && Accepted(st, f)
    ensures Motion(cfg, st, f).1 > 0
  {
    CumulateLonger(st.window, MaxDuration(cfg, st.window), Distance(cfg.mode, st, f), f.timestamp - st.lastTimestamp);
  }

  /** What the smoothing factor is set to in an accepted call. */
  function Alpha(cfg: Config, st: State, f: Frame): real
    requires cfg.Valid() && StateOk(st) && Accepted(st, f)
  {
    if st.lastTimestamp == 0 then 1.0
    else
      MotionLonger(cfg, st, f);
      var (distance, duration) := Motion(cfg, st, f);
      AlphaOf(cfg, distance, duration)
  }

  /** With a scale that is not negative the smoothing factor is always within range, and never ignored. */
  lemma AlphaInRange(cfg: Config, st: State, f: Frame)
    requires cfg.Valid() && cfg.velocityScale >= 0.0 && StateOk(st) && Accepted(st, f)
    ensures 0.0 <= Alpha(cfg, st, f) <= 1.0
    ensures Factor(st.lowPass, Alpha(cfg, st, f)) == Alpha(cfg, st, f)
  {
    if st.lastTimestamp != 0 {
      MotionLonger(cfg, st, f);
      var (distance, duration) := Motion(cfg, st, f);
      var x := Divisor(cfg, distance, duration);
      NotNegative(cfg.velocityScale, AbsReal(distance / (duration as real / NANOS_PER_SECOND as real)));
      Reciprocal(x);
    }
  }

  lemma Reciprocal(x: real)
    requires x >= 1.0
    ensures 0.0 < 1.0 / x <= 1.0
  {
  }

  function Step(cfg: Config, st: State, f: Frame): (p: (State, real))
    requires cfg.Valid() && StateOk(st)
  {
    if !Accepted(st, f) then (st, f.value)
    else
      var (lp, result) := Smooth(st.lowPass, f.value, Alpha(cfg, st, f));
      var window := if st.lastTimestamp == 0 then st.window
                    else Pushed(cfg, st.window, WindowElement(Distance(cfg.mode, st, f), f.timestamp - st.lastTimestamp));
      (State(f.value, f.valueScale, f.timestamp, window, lp), result)
  }

  /** Every call keeps the state in order and the window at its size. */
  lemma StepKeeps(cfg: Config, st: State, f: Frame)
    requires cfg.Valid() && StateOk(st)
    ensures StateOk(Step(cfg, st, f).0)
    ensures |st.window| == cfg.maxWindowSize ==> |Step(cfg, st, f).0.window| == cfg.maxWindowSize
  {
  }

  // ---------------------------------------------------------------- runs of calls

  /** The results of a run of calls. */
  function Results(cfg: Config, st: State, fs: seq<Frame>): (rs: seq<real>)
    requires cfg.Valid() && StateOk(st)
    ensures |rs| == |fs|
    decreases |fs|
  {
    if fs == [] then []
    else
      StepKeeps(cfg, st, fs[0]);
      var (st', r) := Step(cfg, st, fs[0]);
      [r] + Results(cfg, st', fs[1..])
  }

  /** The state after a run of calls. */
  function After(cfg: Config, st: State, fs: seq<Frame>): (st': State)
    requires cfg.Valid() && StateOk(st)
    ensures StateOk(st')
    decreases |fs|
  {
    if fs == [] then st
    else
      StepKeeps(cfg, st, fs[0]);
      After(cfg, Step(cfg, st, fs[0]).0, fs[1..])
  }

  /** However long the filter runs, its window keeps its size. */
  lemma {:induction false} WindowKeepsSize(cfg: Config, st: State, fs: seq<Frame>)
    requires cfg.Valid() && StateOk(st) && |st.window| == cfg.maxWindowSize
    ensures |After(cfg, st, fs).window| == cfg.maxWindowSize
    decreases |fs|
  {
    if fs != [] {
      StepKeeps(cfg, st, fs[0]);
      WindowKeepsSize(cfg, Step(cfg, st, fs[0]).0, fs[1..]);
    }
  }

  // ---------------------------------------------------------------- translation

  function Shift(f: Frame, offset: real): Frame {
    f.(value := f.value + offset)
  }

  function ShiftAll(fs: seq<Frame>, offset: real): (gs: seq<Frame>)
    ensures |gs| == |fs|
    ensures forall i :: 0 <= i < |fs| ==> gs[i] == Shift(fs[i], offset)
  {
    seq(|fs|, i requires 0 <= i < |fs| => Shift(fs[i], offset))
  }

  /** The two states differ by the offset in what they remember of the values, and in nothing else. */
  predicate Shifted(st: State, st': State, offset: real) {
    && st'.lastTimestamp == st.lastTimestamp && st'.window == st.window
    && st'.lowPass.initialized == st.lowPass.initialized && st'.lowPass.alpha == st.lowPass.alpha
    && (st.lastTimestamp != 0 ==>
        && st'.lastValue == st.lastValue + offset && st'.lastValueScale == st.lastValueScale
        && st'.lowPass.stored == st.lowPass.stored + offset)
  }

  /** The scale has not changed since the last accepted call, or does not matter. */
  predicate SameScale(cfg: Config, st: State, f: Frame) {
    cfg.mode == KForceCurrentScale || st.lastTimestamp == 0 || f.valueScale == st.lastValueScale
  }

  lemma DistanceShifted(cfg: Config, st: State, st': State, f: Frame, offset: real)
    requires Shifted(st, st', offset) && SameScale(cfg, st, f) && st.lastTimestamp != 0
    ensures Distance(cfg.mode, st', Shift(f, offset)) == Distance(cfg.mode, st, f)
  {
  }

  lemma Blend(a: real, x: real, y: real, offset: real)
    ensures Blended(a, x + offset, y + offset) == Blended(a, x, y) + offset
  {
  }

  lemma StepShifted(cfg: Config, st: State, st': State, f: Frame, offset: real)
    requires cfg.Valid() && StateOk(st) && StateOk(st') && Shifted(st, st', offset)
    requires Accepted(st, f) ==> SameScale(cfg, st, f)
    ensures var (t, r) := Step(cfg, st, f);
      var (t', r') := Step(cfg, st', Shift(f, offset));
      r' == r + offset && Shifted(t, t', offset)
  {
    if Accepted(st, f) && st.lastTimestamp != 0 {
      DistanceShifted(cfg, st, st', f, offset);
      Blend(Factor(st.lowPass, Alpha(cfg, st, f)), f.value, st.lowPass.stored, offset);
    }
  }

  /** The scale stays the same over all accepted calls of a run, or does not matter. */
  predicate SameScales(cfg: Config, st: State, fs: seq<Frame>)
    requires cfg.Valid() && StateOk(st)
    decreases |fs|
  {
    fs == [] ||
    (StepKeeps(cfg, st, fs[0]);
     (Accepted(st, fs[0]) ==> SameScale(cfg, st, fs[0])) && SameScales(cfg, Step(cfg, st, fs[0]).0, fs[1..]))
  }

  lemma {:induction false} ResultsShifted(cfg: Config, st: State, st': State, fs: seq<Frame>, offset: real)
    requires cfg.Valid() && StateOk(st) && StateOk(st') && Shifted(st, st', offset) && SameScales(cfg, st, fs)
    ensures var rs, rs' := Results(cfg, st, fs), Results(cfg, st', ShiftAll(fs, offset));
      forall i :: 0 <= i < |fs| ==> rs'[i] == rs[i] + offset
    decreases |fs|
  {
    if fs != [] {
      var gs := ShiftAll(fs, offset);
      assert gs[1..] == ShiftAll(fs[1..], offset);
      StepKeeps(cfg, st, fs[0]);
      StepKeeps(cfg, st', gs[0]);
      StepShifted(cfg, st, st', fs[0], offset);
      var (t, r) := Step(cfg, st, fs[0]);
      var (t', r') := Step(cfg, st', gs[0]);
      ResultsShifted(cfg, t, t', fs[1..], offset);
      assert Results(cfg, st, fs) == [r] + Results(cfg, t, fs[1..]);
      assert Results(cfg, st', gs) == [r'] + Results(cfg, t', gs[1..]);
    }
  }

  lemma {:induction false} ForceNeedsNothing(cfg: Config, st: State, fs: seq<Frame>)
    requires cfg.Valid() && StateOk(st) && cfg.mode == KForceCurrentScale
    ensures SameScales(cfg, st, fs)
    decreases |fs|
  {
    if fs != [] {
      StepKeeps(cfg, st, fs[0]);
      ForceNeedsNothing(cfg, Step(cfg, st, fs[0]).0, fs[1..]);
    }
  }

  /**
   With the current scale enforced the filter is translation invariant: whatever the
   timestamps and the scales, filtering shifted data shifts the results.
   */
  lemma TranslationInvariant(cfg: Config, fs: seq<Frame>, offset: real)
    requires cfg.Valid() && cfg.mode == KForceCurrentScale
    ensures var rs, rs' := Results(cfg, Initial(cfg), fs), Results(cfg, Initial(cfg), ShiftAll(fs, offset));
      forall i :: 0 <= i < |fs| ==> rs'[i] == rs[i] + offset
  {
    ForceNeedsNothing(cfg, Initial(cfg), fs);
    ResultsShifted(cfg, Initial(cfg), Initial(cfg), fs, offset);
  }

  /** The legacy mode is translation invariant on runs whose scale does not change. */
  lemma LegacyInvariant(cfg: Config, fs: seq<Frame>, offset: real)
    requires cfg.Valid() && SameScales(cfg, Initial(cfg), fs)
    ensures var rs, rs' := Results(cfg, Initial(cfg), fs), Results(cfg, Initial(cfg), ShiftAll(fs, offset));
      forall i :: 0 <= i < |fs| ==> rs'[i] == rs[i] + offset
  {
    ResultsShifted(cfg, Initial(cfg), Initial(cfg), fs, offset);
  }

  // ---------------------------------------------------------------- where the legacy mode fails

  /** A shift of the data moves the distance that the legacy mode measures by the shift times the change of scale. */
  lemma LegacyDistance(st: State, f: Frame, offset: real)
    ensures Distance(KLegacyTransition, ShiftState(st, offset), Shift(f, offset))
         == Distance(KLegacyTransition, st, f) + offset * (f.valueScale - st.lastValueScale)
  {
    Expand(f.value, offset, f.valueScale);
    Expand(st.lastValue, offset, st.lastValueScale);
    assert offset * (f.valueScale - st.lastValueScale) == offset * f.valueScale - offset * st.lastValueScale;
  }

  lemma Expand(x: real, y: real, z: real)
    ensures (x + y) * z == x * z + y * z
  {
  }

  /** The state in which the filter would be if all values had been shifted and nothing else had changed. */
  function ShiftState(st: State, offset: real): (st': State)
    ensures st.lastTimestamp != 0 ==> Shifted(st, st', offset)
  {
    st.(lastValue := st.lastValue + offset, lowPass := st.lowPass.(stored := st.lowPass.stored + offset))
  }

  /** A distance added at the start is added to the end; the durations do not depend on it. */
  lemma {:induction false} CumulateShifted(window: seq<WindowElement>, limit: int, distance: real, duration: int, more: real)
    ensures Cumulate(window, limit, distance + more, duration).0 == Cumulate(window, limit, distance, duration).0 + more
    ensures Cumulate(window, limit, distance + more, duration).1 == Cumulate(window, limit, distance, duration).1
  {
    if window != [] && duration + window[0].duration <= limit {
      assert distance + more + window[0].distance == distance + window[0].distance + more;
      CumulateShifted(window[1..], limit, distance + window[0].distance, duration + window[0].duration, more);
    }
  }

  /** The result of this call moves by the offset when the data do. */
  predicate ShiftsBy(cfg: Config, st: State, f: Frame, offset: real)
    requires cfg.Valid() && StateOk(st)
  {
    Step(cfg, ShiftState(st, offset), Shift(f, offset)).1 == Step(cfg, st, f).1 + offset
  }

  /** The factor that an accepted call uses. */
  function Used(cfg: Config, st: State, f: Frame): real
    requires cfg.Valid() && StateOk(st) && Accepted(st, f)
  {
    Factor(st.lowPass, Alpha(cfg, st, f))
  }

  /** Once something is stored, a result moves with the data exactly when the factor stays or does not matter. */
  lemma ShiftsWithFactor(cfg: Config, st: State, f: Frame, offset: real)
    requires cfg.Valid() && StateOk(st) && Accepted(st, f) && st.lastTimestamp != 0
    ensures ShiftsBy(cfg, st, f, offset) <==>
      f.value == st.lowPass.stored || Used(cfg, ShiftState(st, offset), Shift(f, offset)) == Used(cfg, st, f)
  {
    var a, a' := Used(cfg, st, f), Used(cfg, ShiftState(st, offset), Shift(f, offset));
    Blend(a', f.value, st.lowPass.stored, offset);
    SameBlend(a, a', f.value, st.lowPass.stored);
  }

  lemma SameBlend(a: real, a': real, x: real, y: real)
    ensures Blended(a', x, y) == Blended(a, x, y) <==> a' == a || x == y
  {
    assert Blended(a', x, y) - Blended(a, x, y) == (a' - a) * (x - y);
    NoZeroDivisors(a' - a, x - y);
  }

  lemma NoZeroDivisors(x: real, y: real)
    ensures x * y == 0.0 <==> x == 0.0 || y == 0.0
  {
  }

  /** At rest the factor is zero; in motion it is positive, or the old one when the scale is negative. */
  lemma FactorAt(cfg: Config, lp: LowPass, distance: real, duration: int)
    requires duration > 0
    ensures var a := Factor(lp, AlphaOf(cfg, distance, duration));
      && (distance == 0.0 || cfg.velocityScale == 0.0 ==> a == 0.0)
      && (distance != 0.0 && cfg.velocityScale > 0.0 ==> a > 0.0)
      && (distance != 0.0 && cfg.velocityScale < 0.0 ==> a == lp.alpha)
  {
    var seconds := duration as real / NANOS_PER_SECOND as real;
    var speed := AbsReal(distance / seconds);
    assert speed > 0.0 <==> distance != 0.0 by { Speed(distance, seconds); }
    var p := cfg.velocityScale * speed;
    Signs(cfg.velocityScale, speed);
    Inverse(1.0 + p);
  }

  lemma Speed(distance: real, seconds: real)
    requires seconds > 0.0
    ensures distance / seconds == 0.0 <==> distance == 0.0
  {
    assert distance / seconds * seconds == distance;
    NoZeroDivisors(distance / seconds, seconds);
  }

  lemma Signs(x: real, y: real)
    requires y >= 0.0
    ensures x * y > 0.0 <==> x > 0.0 && y > 0.0
    ensures x * y < 0.0 <==> x < 0.0 && y > 0.0
  {
  }

  lemma Inverse(x: real)
    ensures x > 1.0 ==> 0.0 < 1.0 - 1.0 / x <= 1.0
    ensures 0.0 < x < 1.0 ==> 1.0 - 1.0 / x < 0.0
    ensures x < 0.0 ==> 1.0 - 1.0 / x > 1.0
  {
    if x != 0.0 {
      assert 1.0 / x * x == 1.0;
    }
  }

  /** How far the shift of the data moves the distance covered lately. */
  lemma MotionShifted(cfg: Config, st: State, f: Frame, offset: real)
    requires cfg.Valid() && cfg.mode == KLegacyTransition
    ensures Motion(cfg, ShiftState(st, offset), Shift(f, offset)).0
         == Motion(cfg, st, f).0 + offset * (f.valueScale - st.lastValueScale)
    ensures Motion(cfg, ShiftState(st, offset), Shift(f, offset)).1 == Motion(cfg, st, f).1
  {
    LegacyDistance(st, f, offset);
    CumulateShifted(st.window, MaxDuration(cfg, st.window), Distance(cfg.mode, st, f), f.timestamp - st.lastTimestamp,
                    offset * (f.valueScale - st.lastValueScale));
  }

  /** Nothing that the shift changes matters for the factor or for the result. */
  predicate ShiftIgnored(cfg: Config, st: State, f: Frame) {
    || f.valueScale == st.lastValueScale
    || f.value == st.lowPass.stored
    || cfg.velocityScale == 0.0
    || (cfg.velocityScale < 0.0 && st.lowPass.alpha == 0.0)
  }

  /** An offset for which the filter comes to rest, or starts from rest, when the data are shifted. */
  function RestingOffset(cfg: Config, st: State, f: Frame): (offset: real)
    requires cfg.Valid() && f.valueScale != st.lastValueScale
  {
    var d := Motion(cfg, st, f).0;
    (if d == 0.0 then 1.0 else -d) / (f.valueScale - st.lastValueScale)
  }

  /**
   In the legacy mode the result of a call moves with every shift of the data exactly when the
   scale has not changed, the value is the stored one, or the velocity does not matter.
   */
  lemma LegacyExact(cfg: Config, st: State, f: Frame)
    requires cfg.Valid() && cfg.mode == KLegacyTransition && StateOk(st) && Accepted(st, f) && st.lastTimestamp != 0
    ensures (forall offset :: ShiftsBy(cfg, st, f, offset)) <==> ShiftIgnored(cfg, st, f)
  {
    if ShiftIgnored(cfg, st, f) {
      forall offset ensures ShiftsBy(cfg, st, f, offset) {
        LegacyIgnores(cfg, st, f, offset);
      }
    } else {
      LegacyFailsAt(cfg, st, f);
    }
  }

  /** The factor in use, by the motion. */
  lemma UsedAt(cfg: Config, st: State, f: Frame)
    requires cfg.Valid() && StateOk(st) && Accepted(st, f) && st.lastTimestamp != 0
    ensures var (d, t) := Motion(cfg, st, f);
      t > 0 && Used(cfg, st, f) == Factor(st.lowPass, AlphaOf(cfg, d, t))
  {
    MotionLonger(cfg, st, f);
  }

  lemma UsedShifted(cfg: Config, st: State, f: Frame, offset: real) returns (d': real)
    requires cfg.Valid() && cfg.mode == KLegacyTransition && StateOk(st) && Accepted(st, f) && st.lastTimestamp != 0
    ensures d' == Motion(cfg, st, f).0 + offset * (f.valueScale - st.lastValueScale) && Motion(cfg, st, f).1 > 0
    ensures Used(cfg, ShiftState(st, offset), Shift(f, offset)) == Factor(st.lowPass, AlphaOf(cfg, d', Motion(cfg, st, f).1))
  {
    UsedAt(cfg, st, f);
    UsedAt(cfg, ShiftState(st, offset), Shift(f, offset));
    MotionShifted(cfg, st, f, offset);
    d' := Motion(cfg, ShiftState(st, offset), Shift(f, offset)).0;
    hide Motion, AlphaOf;
  }

  lemma LegacyIgnores(cfg: Config, st: State, f: Frame, offset: real)
    requires cfg.Valid() && cfg.mode == KLegacyTransition && StateOk(st) && Accepted(st, f) && st.lastTimestamp != 0
    requires ShiftIgnored(cfg, st, f)
    ensures ShiftsBy(cfg, st, f, offset)
  {
    hide Motion, AlphaOf, Factor, Used, ShiftsBy;
    ShiftsWithFactor(cfg, st, f, offset);
    UsedAt(cfg, st, f);
    var d' := UsedShifted(cfg, st, f, offset);
    var (d, t) := Motion(cfg, st, f);
    FactorAt(cfg, st.lowPass, d, t);
    FactorAt(cfg, st.lowPass, d', t);
    NoZeroDivisors(offset, f.valueScale - st.lastValueScale);
    assert f.valueScale == st.lastValueScale ==> d' == d;
  }

  lemma LegacyFailsAt(cfg: Config, st: State, f: Frame)
    requires cfg.Valid() && cfg.mode == KLegacyTransition && StateOk(st) && Accepted(st, f) && st.lastTimestamp != 0
    requires !ShiftIgnored(cfg, st, f)
    ensures !ShiftsBy(cfg, st, f, RestingOffset(cfg, st, f))
  {
    hide Motion, AlphaOf, Factor, Used, ShiftsBy;
    var offset := RestingOffset(cfg, st, f);
    ShiftsWithFactor(cfg, st, f, offset);
    UsedAt(cfg, st, f);
    var d' := UsedShifted(cfg, st, f, offset);
    var (d, t) := Motion(cfg, st, f);
    Cancels(if d == 0.0 then 1.0 else -d, f.valueScale - st.lastValueScale);
    assert d' == if d == 0.0 then 1.0 else 0.0;
    FactorAt(cfg, st.lowPass, d, t);
    FactorAt(cfg, st.lowPass, d', t);
  }

  lemma Cancels(x: real, y: real)
    requires y != 0.0
    ensures x / y * y == x
  {
  }

  /** Two frames whose scale changes: shifted by one, the second result moves from 2/3 to 7/4 and not to 5/3. */
  lemma LegacyNotInvariant()
    ensures var cfg := Config(0, 1.0, 30, KLegacyTransition);
      var fs := [Frame(1000000000, 1.0, 0.0), Frame(2000000000, 2.0, 1.0)];
      && Results(cfg, Initial(cfg), fs) == [0.0, 2.0 / 3.0]
      && Results(cfg, Initial(cfg), ShiftAll(fs, 1.0)) == [1.0, 7.0 / 4.0]
  {
    var cfg := Config(0, 1.0, 30, KLegacyTransition);
    TwoResults(cfg, Frame(1000000000, 1.0, 0.0), Frame(2000000000, 2.0, 1.0));
    TwoResults(cfg, Frame(1000000000, 1.0, 1.0), Frame(2000000000, 2.0, 2.0));
    var fs := [Frame(1000000000, 1.0, 0.0), Frame(2000000000, 2.0, 1.0)];
    assert ShiftAll(fs, 1.0) == [Frame(1000000000, 1.0, 1.0), Frame(2000000000, 2.0, 2.0)];
  }

  /** A run of two frames. */
  lemma TwoResults(cfg: Config, f: Frame, g: Frame)
    requires cfg.Valid()
    ensures var (st, r) := Step(cfg, Initial(cfg), f);
      StateOk(st) && Results(cfg, Initial(cfg), [f, g]) == [r, Step(cfg, st, g).1]
  {
    StepKeeps(cfg, Initial(cfg), f);
    var st := Step(cfg, Initial(cfg), f).0;
    assert [f, g][1..] == [g];
    assert Results(cfg, st, [g]) == [Step(cfg, st, g).1] + Results(cfg, Step(cfg, st, g).0, []);
  }

  // ---------------------------------------------------------------- no overshooting

  /** The values of all accepted calls of a run lie between `lo` and `hi`. */
  predicate ValuesWithin(cfg: Config, st: State, fs: seq<Frame>, lo: real, hi: real)
    requires cfg.Valid() && StateOk(st)
    decreases |fs|
  {
    fs == [] ||
    (StepKeeps(cfg, st, fs[0]);
     (Accepted(st, fs[0]) ==> lo <= fs[0].value <= hi) && ValuesWithin(cfg, Step(cfg, st, fs[0]).0, fs[1..], lo, hi))
  }

  lemma NotNegative(a: real, b: real)
    requires a >= 0.0 && b >= 0.0
    ensures a * b >= 0.0
  {
  }

  lemma BlendWithin(a: real, x: real, y: real, lo: real, hi: real)
    requires 0.0 <= a <= 1.0 && lo <= x <= hi && lo <= y <= hi
    ensures lo <= Blended(a, x, y) <= hi
  {
    NotNegative(a, x - lo);
    NotNegative(1.0 - a, y - lo);
    NotNegative(a, hi - x);
    NotNegative(1.0 - a, hi - y);
  }

  /**
   The result of a call that is accepted last lies within all bounds that hold the accepted
   values so far, so it lies between the smallest and the largest of them.
   */
  lemma {:induction false} NoOvershoot(cfg: Config, st: State, fs: seq<Frame>, lo: real, hi: real)
    requires cfg.Valid() && StateOk(st) && ValuesWithin(cfg, st, fs, lo, hi)
    requires st.lowPass.initialized ==> lo <= st.lowPass.stored <= hi
    ensures var lp := After(cfg, st, fs).lowPass; lp.initialized ==> lo <= lp.stored <= hi
    decreases |fs|
  {
    if fs != [] {
      StepKeeps(cfg, st, fs[0]);
      if Accepted(st, fs[0]) && st.lowPass.initialized {
        BlendWithin(Factor(st.lowPass, Alpha(cfg, st, fs[0])), fs[0].value, st.lowPass.stored, lo, hi);
      }
      NoOvershoot(cfg, Step(cfg, st, fs[0]).0, fs[1..], lo, hi);
    }
  }

  /** The result of an accepted call is what is stored, that of any other the value itself. */
  lemma ResultIsStored(cfg: Config, st: State, f: Frame)
    requires cfg.Valid() && StateOk(st)
    ensures var (st', r) := Step(cfg, st, f);
      if Accepted(st, f) then st'.lowPass.initialized && r == st'.lowPass.stored else st' == st && r == f.value
  {
  }

  lemma {:induction false} AfterAppend(cfg: Config, st: State, fs: seq<Frame>, f: Frame)
    requires cfg.Valid() && StateOk(st)
    ensures After(cfg, st, fs + [f]) == Step(cfg, After(cfg, st, fs), f).0
    decreases |fs|
  {
    var gs := fs + [f];
    if fs == [] {
      assert gs[1..] == [];
    } else {
      StepKeeps(cfg, st, fs[0]);
      assert gs[0] == fs[0] && gs[1..] == fs[1..] + [f];
      AfterAppend(cfg, Step(cfg, st, fs[0]).0, fs[1..], f);
    }
  }

  /** From the first call on, the smoothed value stays between the smallest and the largest value accepted so far. */
  lemma SmoothedWithin(cfg: Config, fs: seq<Frame>, f: Frame, lo: real, hi: real)
    requires cfg.Valid() && ValuesWithin(cfg, Initial(cfg), fs + [f], lo, hi)
    requires Accepted(After(cfg, Initial(cfg), fs), f)
    ensures lo <= Step(cfg, After(cfg, Initial(cfg), fs), f).1 <= hi
  {
    AfterAppend(cfg, Initial(cfg), fs, f);
    NoOvershoot(cfg, Initial(cfg), fs + [f], lo, hi);
    ResultIsStored(cfg, After(cfg, Initial(cfg), fs), f);
  }
}
