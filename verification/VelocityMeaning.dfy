/**
 What one call of the smoothing filter computes, told by sums over the latest movements.
 */
module VelocityMeaning {
  import opened VelocityFilters

  /** The distances of the first `k` elements together. */
  function DistanceOver(window: seq<WindowElement>, k: nat): real
    requires k <= |window|
  {
    if k == 0 then 0.0 else DistanceOver(window, k - 1) + window[k - 1].distance
  }

  /** Their durations together. */
  function DurationOver(window: seq<WindowElement>, k: nat): int
    requires k <= |window|
  {
    if k == 0 then 0 else DurationOver(window, k - 1) + window[k - 1].duration
  }

  /** `period` is the time of one frame, 10^9 ns divided by the rate, without the fraction. */
  predicate FramePeriod(fps: int, period: int) {
    if fps > 0 then 0 <= period && period * fps <= 1000000000 < (period + 1) * fps
    else period <= 0 && period * fps <= 1000000000 < (period - 1) * fps
  }

  /** With the first `k` elements added, one after the other, the time stays within `limit`; with the next it would not. */
  ghost predicate Counted(window: seq<WindowElement>, limit: int, duration: int, k: nat) {
    && k <= |window|
    && (forall i :: 1 <= i <= k ==> duration + DurationOver(window, i) <= limit)
    && (k < |window| ==> duration + DurationOver(window, k + 1) > limit)
  }

  /** The element for the movement from one frame to the next. */
  function Movement(mode: DistanceMode, g: Frame, f: Frame): WindowElement {
    WindowElement(if mode == KLegacyTransition then f.value * f.valueScale - g.value * g.valueScale else (f.value - g.value) * f.valueScale,
                  f.timestamp - g.timestamp)
  }

  /** The frame that was accepted last. */
  function LastFrame(st: State): Frame {
    Frame(st.lastTimestamp, st.lastValueScale, st.lastValue)
  }

  /**
   The latest movements: this one and the first `k` of the window, as many as fit into as many
   frame periods as there are elements with this one. `speed` is how far they lead each second.
   */
  ghost predicate Moves(cfg: Config, st: State, f: Frame, period: int, k: nat, speed: real) {
    var el := Movement(cfg.mode, LastFrame(st), f);
    && FramePeriod(cfg.targetFps, period)
    && Counted(st.window, (1 + |st.window|) * period, el.duration, k)
    && speed >= 0.0
    && speed * (el.duration + DurationOver(st.window, k)) as real == AbsReal(el.distance + DistanceOver(st.window, k)) * 1000000000.0
  }

  /** The factor `a` that the filter blends with at this speed; one out of range leaves it as it was. */
  predicate FactorFor(velocityScale: real, speed: real, before: real, a: real) {
    if velocityScale * speed >= 0.0 then (1.0 - a) * (1.0 + velocityScale * speed) == 1.0 else a == before
  }

  /** A call that moves at `speed` leaves this state and result. */
  predicate MovedAt(cfg: Config, st: State, f: Frame, speed: real, st': State, result: real) {
    && FactorFor(cfg.velocityScale, speed, st.lowPass.alpha, st'.lowPass.alpha)
    && result == st.lowPass.stored + st'.lowPass.alpha * (f.value - st.lowPass.stored)
    && LastFrame(st') == f && st'.lowPass.initialized && st'.lowPass.stored == result
    && st'.window == ([Movement(cfg.mode, LastFrame(st), f)] + st.window)[..if |st.window| < cfg.maxWindowSize then |st.window| + 1 else |st.window|]
  }

  // ---------------------------------------------------------------- the frame period

  lemma DivisionIs(a: nat, b: nat)
    requires b > 0
    ensures a / b * b <= a < (a / b + 1) * b
  {
  }

  /** The quotient that truncates is the frame period, for rates of either sign. */
  lemma QuotientIsPeriod(fps: int)
    requires fps != 0
    ensures FramePeriod(fps, Quotient(1000000000, fps))
  {
    var a := 1000000000;
    var q := a / fps;
    if fps > 0 {
      DivisionIs(a, fps);
    } else {
      var b := -fps;
      DivisionIs(a, b);
      assert q == -(a / b) by { NegativeDivisor(a, b); }
      Signs(a / b, b);
    }
  }

  lemma NegativeDivisor(a: int, b: int)
    requires b > 0
    ensures a / -b == -(a / b)
  {
  }

  lemma Signs(q: int, b: int)
    ensures (-q) * (-b) == q * b && (-q - 1) * (-b) == (q + 1) * b
  {
  }

  /** There is only one. */
  lemma OnePeriod(fps: int, p: int, q: int)
    requires fps != 0 && FramePeriod(fps, p) && FramePeriod(fps, q)
    ensures p == q
  {
    if fps > 0 {
      Between(fps, p, q);
    } else {
      Signs(p, fps);
      Signs(q, fps);
      Signs(-p, -fps);
      assert (-p) * (-fps) == p * fps && (-p + 1) * (-fps) == (p - 1) * fps;
      assert (-q) * (-fps) == q * fps && (-q + 1) * (-fps) == (q - 1) * fps;
      Between(-fps, -p, -q);
    }
  }

  lemma Between(b: nat, p: int, q: int)
    requires b > 0 && p * b <= 1000000000 < (p + 1) * b && q * b <= 1000000000 < (q + 1) * b
    ensures p == q
  {
    if p < q {
      Grows(b, p + 1, q);
    } else if q < p {
      Grows(b, q + 1, p);
    }
  }

  lemma Grows(b: nat, x: int, y: int)
    requires x <= y
    ensures x * b <= y * b
  {
  }

  // ---------------------------------------------------------------- which movements count

  lemma {:induction false} OverTail(window: seq<WindowElement>, k: nat)
    requires 1 <= k <= |window|
    ensures DistanceOver(window, k) == window[0].distance + DistanceOver(window[1..], k - 1)
    ensures DurationOver(window, k) == window[0].duration + DurationOver(window[1..], k - 1)
  {
    if k == 1 {
      assert DistanceOver(window, 0) == 0.0 && DurationOver(window, 0) == 0;
    } else {
      OverTail(window, k - 1);
      assert window[1..][k - 2] == window[k - 1];
    }
  }

  /** The walk along the window adds up the elements that count. */
  lemma {:induction false} CumulateIs(window: seq<WindowElement>, limit: int, distance: real, duration: int, k: nat)
    requires Counted(window, limit, duration, k)
    ensures Cumulate(window, limit, distance, duration) == (distance + DistanceOver(window, k), duration + DurationOver(window, k))
  {
    if window != [] {
      OverTail(window, 1);
      if k > 0 {
        assert duration + DurationOver(window, 1) <= limit;
        forall i | 1 <= i <= |window| ensures DurationOver(window, i) == window[0].duration + DurationOver(window[1..], i - 1) {
          OverTail(window, i);
        }
        OverTail(window, k);
        CountedTail(window, limit, duration, k);
        CumulateIs(window[1..], limit, distance + window[0].distance, duration + window[0].duration, k - 1);
      }
    }
  }

  lemma CountedTail(window: seq<WindowElement>, limit: int, duration: int, k: nat)
    requires 0 < k <= |window| && Counted(window, limit, duration, k)
    requires forall i :: 1 <= i <= |window| ==> DurationOver(window, i) == window[0].duration + DurationOver(window[1..], i - 1)
    ensures Counted(window[1..], limit, duration + window[0].duration, k - 1)
  {
    forall i | 1 <= i <= k - 1 ensures duration + window[0].duration + DurationOver(window[1..], i) <= limit {
      assert DurationOver(window, i + 1) == window[0].duration + DurationOver(window[1..], i);
    }
    if k < |window| {
      assert DurationOver(window, k + 1) == window[0].duration + DurationOver(window[1..], k);
    }
  }

  /** From the first `j` elements on, with which the time stays within bounds, the number that counts is found. */
  lemma {:induction false} CountedFrom(window: seq<WindowElement>, limit: int, duration: int, j: nat) returns (k: nat)
    requires j <= |window| && forall i :: 1 <= i <= j ==> duration + DurationOver(window, i) <= limit
    ensures Counted(window, limit, duration, k)
    decreases |window| - j
  {
    if j < |window| && duration + DurationOver(window, j + 1) <= limit {
      k := CountedFrom(window, limit, duration, j + 1);
    } else {
      k := j;
    }
  }

  lemma OneCount(window: seq<WindowElement>, limit: int, duration: int, j: nat, k: nat)
    requires Counted(window, limit, duration, j) && Counted(window, limit, duration, k)
    ensures j == k
  {
    var next := if j < k then j + 1 else k + 1;
    assert next <= |window| ==> DurationOver(window, next) == DurationOver(window, next);
  }

  lemma {:induction false} TimeNotNegative(window: seq<WindowElement>, k: nat)
    requires k <= |window| && forall i :: 0 <= i < |window| ==> window[i].duration >= 0
    ensures DurationOver(window, k) >= 0
  {
    if k > 0 {
      TimeNotNegative(window, k - 1);
    }
  }

  /** Frames at the target rate or faster: `n` of them and the latest movement fit into their periods. */
  lemma {:induction false} WithinPeriods(window: seq<WindowElement>, period: int, k: nat)
    requires k <= |window| && forall i :: 0 <= i < |window| ==> window[i].duration <= period
    ensures DurationOver(window, k) <= k * period
  {
    if k > 0 {
      WithinPeriods(window, period, k - 1);
    }
  }

  /** When the frames come at the target rate, or faster, the whole window counts. */
  lemma AtTargetRate(cfg: Config, st: State, f: Frame, period: int, k: nat, speed: real)
    requires Moves(cfg, st, f, period, k, speed) && period >= 0
    requires f.timestamp - st.lastTimestamp <= period && forall i :: 0 <= i < |st.window| ==> st.window[i].duration <= period
    ensures k == |st.window|
  {
    var n := if k < |st.window| then k + 1 else k;
    WithinPeriods(st.window, period, n);
    Grows(period, 1 + n, 1 + |st.window|);
    assert (1 + n) * period == n * period + period;
  }

  // ---------------------------------------------------------------- the speed

  lemma SpeedIs(distance: real, duration: int, speed: real)
    requires duration > 0 && speed * duration as real == AbsReal(distance) * 1000000000.0
    ensures AbsReal(distance / (duration as real / 1000000000.0)) == speed
  {
    var seconds := duration as real / 1000000000.0;
    assert speed * seconds == AbsReal(distance) by { Scaled(speed, duration as real, AbsReal(distance)); }
    Quotients(distance, seconds, speed);
  }

  lemma Scaled(speed: real, d: real, x: real)
    requires speed * d == x * 1000000000.0
    ensures speed * (d / 1000000000.0) == x
  {
  }

  lemma Quotients(distance: real, seconds: real, speed: real)
    requires seconds > 0.0 && speed * seconds == AbsReal(distance)
    ensures AbsReal(distance / seconds) == speed
  {
    var v := distance / seconds;
    assert v * seconds == distance;
    if v >= 0.0 {
      Cancel(v, speed, seconds);
    } else {
      Cancel(-v, speed, seconds);
    }
  }

  lemma Cancel(v: real, w: real, seconds: real)
    requires seconds > 0.0 && v * seconds == w * seconds
    ensures v == w
  {
    assert (v - w) * seconds == 0.0;
  }

  lemma FactorIs(velocityScale: real, speed: real, d: real, lp: LowPass)
    requires d == 1.0 + velocityScale * speed
    ensures FactorFor(velocityScale, speed, lp.alpha, Factor(lp, if d == 0.0 then -1.0 else 1.0 - 1.0 / d))
  {
    if d >= 1.0 {
      Reciprocal(d);
      assert (1.0 - (1.0 - 1.0 / d)) * d == 1.0;
    } else if d > 0.0 {
      assert 1.0 / d > 1.0 by { Above(d); }
    } else if d < 0.0 {
      assert 1.0 / d < 0.0 by { Below(d); }
    }
  }

  lemma Above(d: real)
    requires 0.0 < d < 1.0
    ensures 1.0 / d > 1.0
  {
    assert 1.0 / d * d == 1.0;
  }

  lemma Below(d: real)
    requires d < 0.0
    ensures 1.0 / d < 0.0
  {
    assert 1.0 / d * d == 1.0;
  }

  /** In every state there is one answer to what the latest movements are. */
  lemma LatestMovements(cfg: Config, st: State, f: Frame) returns (period: int, k: nat, speed: real)
    requires cfg.Valid() && StateOk(st) && Accepted(st, f)
    ensures Moves(cfg, st, f, period, k, speed)
    ensures forall p, j, v :: Moves(cfg, st, f, p, j, v) ==> p == period && j == k && v == speed
  {
    hide FramePeriod, Counted;
    period := Quotient(1000000000, cfg.targetFps);
    QuotientIsPeriod(cfg.targetFps);
    var duration, limit := f.timestamp - st.lastTimestamp, (1 + |st.window|) * period;
    k := CountedFrom(st.window, limit, duration, 0);
    CountedWithin(st.window, limit, duration, k);
    TimeNotNegative(st.window, k);
    var t := (duration + DurationOver(st.window, k)) as real;
    var x := AbsReal(Movement(cfg.mode, LastFrame(st), f).distance + DistanceOver(st.window, k)) * 1000000000.0;
    speed := x / t;
    Divides(x, t);
    assert Moves(cfg, st, f, period, k, speed);
    hide Moves;
    forall p, j, v | Moves(cfg, st, f, p, j, v) ensures p == period && j == k && v == speed {
      OneAnswer(cfg, st, f, period, k, speed, p, j, v);
    }
  }

  lemma OneAnswer(cfg: Config, st: State, f: Frame, period: int, k: nat, speed: real, p: int, j: nat, v: real)
    requires cfg.Valid() && StateOk(st) && Accepted(st, f)
    requires Moves(cfg, st, f, period, k, speed) && Moves(cfg, st, f, p, j, v)
    ensures p == period && j == k && v == speed
  {
    hide FramePeriod, Counted;
    OnePeriod(cfg.targetFps, p, period);
    var duration, limit := f.timestamp - st.lastTimestamp, (1 + |st.window|) * period;
    OneCount(st.window, limit, duration, j, k);
    CountedWithin(st.window, limit, duration, k);
    TimeNotNegative(st.window, k);
    SameRate(v, speed, (duration + DurationOver(st.window, k)) as real,
             AbsReal(Movement(cfg.mode, LastFrame(st), f).distance + DistanceOver(st.window, k)) * 1000000000.0);
  }

  lemma SameRate(v: real, w: real, t: real, x: real)
    requires t > 0.0 && v * t == x && w * t == x
    ensures v == w
  {
    Cancel(v, w, t);
  }

  lemma CountedWithin(window: seq<WindowElement>, limit: int, duration: int, k: nat)
    requires Counted(window, limit, duration, k)
    ensures k <= |window|
  {
  }

  lemma Divides(x: real, t: real)
    requires x >= 0.0 && t > 0.0
    ensures x / t >= 0.0 && x / t * t == x
  {
  }

  /** `Step` blends with the factor for the speed of the latest movements, and remembers this one before the others. */
  lemma StepMeans(cfg: Config, st: State, f: Frame, period: int, k: nat, speed: real)
    requires cfg.Valid() && StateOk(st) && Accepted(st, f) && st.lastTimestamp != 0
    requires Moves(cfg, st, f, period, k, speed)
    ensures MovedAt(cfg, st, f, speed, Step(cfg, st, f).0, Step(cfg, st, f).1)
  {
    hide Moves, FactorFor, AlphaOf, Factor, Motion, Blended;
    AlphaMeans(cfg, st, f, period, k, speed);
    BlendIs(Factor(st.lowPass, Alpha(cfg, st, f)), f.value, st.lowPass.stored);
  }

  lemma MotionIs(cfg: Config, st: State, f: Frame, period: int, k: nat, speed: real)
    requires cfg.Valid() && Moves(cfg, st, f, period, k, speed)
    ensures var (distance, duration) := Motion(cfg, st, f);
      speed >= 0.0 && speed * duration as real == AbsReal(distance) * 1000000000.0
  {
    hide FramePeriod, Counted, Cumulate;
    var el := Movement(cfg.mode, LastFrame(st), f);
    QuotientIsPeriod(cfg.targetFps);
    OnePeriod(cfg.targetFps, period, Quotient(1000000000, cfg.targetFps));
    assert Distance(cfg.mode, st, f) == el.distance;
    var limit := (1 + |st.window|) * period;
    CountedWithin(st.window, limit, el.duration, k);
    CumulateIs(st.window, limit, el.distance, el.duration, k);
  }

  lemma AlphaMeans(cfg: Config, st: State, f: Frame, period: int, k: nat, speed: real)
    requires cfg.Valid() && StateOk(st) && Accepted(st, f) && st.lastTimestamp != 0
    requires Moves(cfg, st, f, period, k, speed)
    ensures FactorFor(cfg.velocityScale, speed, st.lowPass.alpha, Factor(st.lowPass, Alpha(cfg, st, f)))
  {
    hide Moves, FactorFor, Factor, Motion, AlphaOf;
    MotionIs(cfg, st, f, period, k, speed);
    MotionLonger(cfg, st, f);
    var (distance, duration) := Motion(cfg, st, f);
    AlphaFor(cfg, st.lowPass, distance, duration, speed);
  }

  lemma AlphaFor(cfg: Config, lp: LowPass, distance: real, duration: int, speed: real)
    requires duration > 0 && speed >= 0.0 && speed * duration as real == AbsReal(distance) * 1000000000.0
    ensures FactorFor(cfg.velocityScale, speed, lp.alpha, Factor(lp, AlphaOf(cfg, distance, duration)))
  {
    hide FactorFor, Factor, Divisor;
    DivisorIs(cfg, distance, duration, speed);
    FactorIs(cfg.velocityScale, speed, Divisor(cfg, distance, duration), lp);
  }

  lemma DivisorIs(cfg: Config, distance: real, duration: int, speed: real)
    requires duration > 0 && speed * duration as real == AbsReal(distance) * 1000000000.0
    ensures Divisor(cfg, distance, duration) == 1.0 + cfg.velocityScale * speed
  {
    hide AbsReal;
    SpeedIs(distance, duration, speed);
  }

  lemma BlendIs(a: real, x: real, y: real)
    ensures Blended(a, x, y) == y + a * (x - y)
  {
  }

  /** The first value goes through. */
  lemma FirstStep(cfg: Config, st: State, f: Frame)
    requires cfg.Valid() && StateOk(st) && st.lastTimestamp == 0 && Accepted(st, f)
    ensures Step(cfg, st, f).1 == f.value && Step(cfg, st, f).0.window == st.window
  {
  }

  /** The latest movements, and what a call that moves so leaves. */
  ghost predicate MovesTo(cfg: Config, st: State, f: Frame, period: int, k: nat, speed: real, st': State, result: real) {
    Moves(cfg, st, f, period, k, speed) && MovedAt(cfg, st, f, speed, st', result)
  }

  lemma StepMoves(cfg: Config, st: State, f: Frame)
    requires cfg.Valid() && StateOk(st) && Accepted(st, f) && st.lastTimestamp != 0
    ensures var (st', r) := Step(cfg, st, f); exists period, k, speed :: MovesTo(cfg, st, f, period, k, speed, st', r)
  {
    hide Moves, MovedAt, Step;
    var period, k, speed := LatestMovements(cfg, st, f);
    StepMeans(cfg, st, f, period, k, speed);
    var (st', r) := Step(cfg, st, f);
    assert MovesTo(cfg, st, f, period, k, speed, st', r);
  }

  // ---------------------------------------------------------------- what the window remembers

  /** The frames of a run that are later than all before them. */
  function Later(fs: seq<Frame>): (gs: seq<Frame>)
    ensures gs == [] || gs[|gs| - 1].timestamp > 0
  {
    if fs == [] then []
    else
      var gs, f := Later(fs[..|fs| - 1]), fs[|fs| - 1];
      if f.timestamp > (if gs == [] then 0 else gs[|gs| - 1].timestamp) then gs + [f] else gs
  }

  /** The movement that is `i` movements back, or nothing where there was none. */
  function MovementBack(mode: DistanceMode, gs: seq<Frame>, i: nat): WindowElement {
    if i + 1 < |gs| then Movement(mode, gs[|gs| - 2 - i], gs[|gs| - 1 - i]) else WindowElement(0.0, 0)
  }

  ghost predicate Remembers(cfg: Config, gs: seq<Frame>, st: State) {
    && |st.window| == cfg.maxWindowSize
    && (forall i :: 0 <= i < |st.window| ==> st.window[i] == MovementBack(cfg.mode, gs, i))
    && (if gs == [] then st.lastTimestamp == 0 else LastFrame(st) == gs[|gs| - 1] && st.lastTimestamp > 0)
  }

  lemma StepRemembers(cfg: Config, gs: seq<Frame>, st: State, f: Frame)
    requires cfg.Valid() && StateOk(st) && Remembers(cfg, gs, st)
    ensures Remembers(cfg, if Accepted(st, f) then gs + [f] else gs, Step(cfg, st, f).0)
  {
    hide Alpha, Smooth;
    if Accepted(st, f) {
      var hs, w := gs + [f], Step(cfg, st, f).0.window;
      forall i | 0 <= i < |w| ensures w[i] == MovementBack(cfg.mode, hs, i) {
        if gs != [] && i > 0 {
          assert w[i] == st.window[i - 1] == MovementBack(cfg.mode, gs, i - 1);
        }
      }
    }
  }

  /**
   After every run the window holds the movements between the frames that were accepted, the
   latest first, as many as it has room for; and the filter goes on from the last of these frames.
   */
  lemma {:induction false} WindowHolds(cfg: Config, fs: seq<Frame>)
    requires cfg.Valid()
    ensures Remembers(cfg, Later(fs), After(cfg, Initial(cfg), fs))
    decreases |fs|
  {
    hide Step, Movement;
    if fs != [] {
      var most, f := fs[..|fs| - 1], fs[|fs| - 1];
      assert fs == most + [f];
      WindowHolds(cfg, most);
      AfterAppend(cfg, Initial(cfg), most, f);
      StepRemembers(cfg, Later(most), After(cfg, Initial(cfg), most), f);
    }
  }
}
