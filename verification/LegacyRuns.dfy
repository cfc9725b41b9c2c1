/**
 When a whole run of the filter in its legacy mode moves with the data.

 A shift of the data moves the distances that the legacy mode measures where the scale has
 changed, and the window remembers them. `Drift` follows what a shift by any offset would have
 changed so far, without knowing the offset; with it the exact condition for one call becomes
 one for runs.
 */
module LegacyRuns {
  import opened VelocityFilters

  /**
   What shifting the data changes in the state. `slopes` says how far each distance in the
   window moves with the offset. With a negative velocity scale the filter stops for good once
   it is at rest, and an offset can change when that is: `split` says that there are offsets
   for which the factor in use is another one, `rest` is one for which the filter has stopped
   if it has not without a shift, and for offsets not among `halted` it has not stopped.
   */
  datatype Drift = Drift(slopes: seq<real>, split: bool, rest: real, halted: seq<real>)

  /** Nothing changes yet. */
  function Still(cfg: Config): Drift {
    Drift(seq(cfg.maxWindowSize, i => 0.0), false, 0.0, [])
  }

  /** How far the distances in the window that count move with the offset. */
  function Drag(window: seq<WindowElement>, slopes: seq<real>, limit: int, duration: int): real
    requires |slopes| == |window|
  {
    if window == [] || duration + window[0].duration > limit then 0.0
    else slopes[0] + Drag(window[1..], slopes[1..], limit, duration + window[0].duration)
  }

  /** How far the distance covered lately moves with the offset. */
  function Slope(cfg: Config, st: State, dr: Drift, f: Frame): real
    requires cfg.Valid() && |dr.slopes| == |st.window|
  {
    f.valueScale - st.lastValueScale + Drag(st.window, dr.slopes, MaxDuration(cfg, st.window), f.timestamp - st.lastTimestamp)
  }

  /** Whatever the offset, this call gives a result that moves with it. */
  predicate Ignored(cfg: Config, st: State, dr: Drift, f: Frame)
    requires cfg.Valid() && |dr.slopes| == |st.window|
  {
    var d, s := Motion(cfg, st, f).0, Slope(cfg, st, dr, f);
    || f.value == st.lowPass.stored || cfg.velocityScale == 0.0
    || (cfg.velocityScale > 0.0 && s == 0.0)
    || (cfg.velocityScale < 0.0 && ((d == 0.0 && s == 0.0) || (!dr.split && (st.lowPass.alpha == 0.0 || s == 0.0))))
  }

  /** The offset that brings a moving filter to rest. */
  function Halting(d: real, s: real): real
    requires s != 0.0
  {
    -d / s
  }

  function PushedSlope(cfg: Config, slopes: seq<real>, slope: real): seq<real> {
    var more := [slope] + slopes;
    if |more| > cfg.maxWindowSize then more[..|more| - 1] else more
  }

  function Drifted(cfg: Config, st: State, dr: Drift, f: Frame): (dr': Drift)
    requires cfg.Valid() && |dr.slopes| == |st.window|
  {
    if !Accepted(st, f) || st.lastTimestamp == 0 then dr
    else
      var d, s := Motion(cfg, st, f).0, Slope(cfg, st, dr, f);
      var split := cfg.velocityScale < 0.0 && if dr.split then d != 0.0 || s != 0.0 else st.lowPass.alpha != 0.0 && s != 0.0;
      Drift(PushedSlope(cfg, dr.slopes, f.valueScale - st.lastValueScale), split,
            if dr.split || s == 0.0 then dr.rest else Halting(d, s),
            (if dr.split then dr.halted else []) + if s == 0.0 then [] else [Halting(d, s)])
  }

  lemma DriftedFits(cfg: Config, st: State, dr: Drift, f: Frame)
    requires cfg.Valid() && StateOk(st) && |dr.slopes| == |st.window|
    ensures |Drifted(cfg, st, dr, f).slopes| == |Step(cfg, st, f).0.window|
  {
  }

  /** Every call of the run that counts is one that gives a result that moves with any offset. */
  predicate AllIgnored(cfg: Config, st: State, dr: Drift, fs: seq<Frame>)
    requires cfg.Valid() && StateOk(st) && |dr.slopes| == |st.window|
    decreases |fs|
  {
    fs == [] ||
    (StepKeeps(cfg, st, fs[0]);
     DriftedFits(cfg, st, dr, fs[0]);
     (Accepted(st, fs[0]) && st.lastTimestamp != 0 ==> Ignored(cfg, st, dr, fs[0]))
     && AllIgnored(cfg, Step(cfg, st, fs[0]).0, Drifted(cfg, st, dr, fs[0]), fs[1..]))
  }

  // ---------------------------------------------------------------- one call

  /** Each distance in the window is as far off as its slope says. */
  predicate WindowFollows(window: seq<WindowElement>, window': seq<WindowElement>, slopes: seq<real>, offset: real) {
    && |slopes| == |window| == |window'|
    && (forall i :: 0 <= i < |window| ==> window'[i] == window[i].(distance := window[i].distance + offset * slopes[i]))
  }

  /** `st'` is the state of a run shifted by `offset` where `st` is that of the run itself. */
  predicate Follows(cfg: Config, st: State, st': State, dr: Drift, offset: real) {
    && StateOk(st) && StateOk(st') && st'.lastTimestamp == st.lastTimestamp
    && WindowFollows(st.window, st'.window, dr.slopes, offset)
    && (st.lastTimestamp != 0 ==>
          && st'.lastValue == st.lastValue + offset && st'.lastValueScale == st.lastValueScale
          && st'.lowPass.stored == st.lowPass.stored + offset)
    && (cfg.velocityScale < 0.0 ==> SameStop(st.lowPass.alpha, st'.lowPass.alpha, dr, offset))
  }

  /** How the factors in use compare. */
  predicate SameStop(a: real, a': real, dr: Drift, offset: real) {
    if dr.split then (offset !in dr.halted ==> a' != 0.0) && (a != 0.0 && offset == dr.rest ==> a' == 0.0) else a' == a
  }

  /** What the window adds to the distance moves with the offset as `Drag` says. */
  lemma {:induction false} CumulateFollows(window: seq<WindowElement>, window': seq<WindowElement>, slopes: seq<real>, offset: real,
                                          limit: int, distance: real, distance': real, duration: int)
    requires WindowFollows(window, window', slopes, offset)
    ensures Cumulate(window', limit, distance', duration).0 - distance'
         == Cumulate(window, limit, distance, duration).0 - distance + offset * Drag(window, slopes, limit, duration)
    ensures Cumulate(window', limit, distance', duration).1 == Cumulate(window, limit, distance, duration).1
  {
    if window != [] && duration + window[0].duration <= limit {
      var w, w' := window[0], window'[0];
      assert w' == w.(distance := w.distance + offset * slopes[0]);
      CumulateFollows(window[1..], window'[1..], slopes[1..], offset, limit, distance + w.distance, distance' + w'.distance, duration + w.duration);
      Spread(offset, slopes[0], Drag(window[1..], slopes[1..], limit, duration + w.duration));
    }
  }

  lemma Spread(x: real, y: real, z: real)
    ensures x * (y + z) == x * y + x * z
  {
  }

  lemma MotionFollows(cfg: Config, st: State, st': State, dr: Drift, f: Frame, offset: real)
    requires cfg.Valid() && cfg.mode == KLegacyTransition && Follows(cfg, st, st', dr, offset) && st.lastTimestamp != 0
    ensures Motion(cfg, st', Shift(f, offset)).0 == Motion(cfg, st, f).0 + offset * Slope(cfg, st, dr, f)
    ensures Motion(cfg, st', Shift(f, offset)).1 == Motion(cfg, st, f).1
    ensures Distance(cfg.mode, st', Shift(f, offset)) == Distance(cfg.mode, st, f) + offset * (f.valueScale - st.lastValueScale)
  {
    LegacyDistance(st, f, offset);
    var distance, more := Distance(cfg.mode, st, f), f.valueScale - st.lastValueScale;
    var distance' := Distance(cfg.mode, st', Shift(f, offset));
    assert distance' == Distance(cfg.mode, ShiftState(st, offset), Shift(f, offset));
    assert distance' == distance + offset * more;
    var limit, duration := MaxDuration(cfg, st.window), f.timestamp - st.lastTimestamp;
    CumulateFollows(st.window, st'.window, dr.slopes, offset, limit, distance, distance', duration);
    Spread(offset, more, Drag(st.window, dr.slopes, limit, duration));
  }

  /** The result of this call moves by the offset. */
  predicate Moves(cfg: Config, st: State, st': State, f: Frame, offset: real)
    requires cfg.Valid() && StateOk(st) && StateOk(st')
  {
    Step(cfg, st', Shift(f, offset)).1 == Step(cfg, st, f).1 + offset
  }

  lemma MovesWithFactor(cfg: Config, st: State, st': State, dr: Drift, f: Frame, offset: real)
    requires cfg.Valid() && Follows(cfg, st, st', dr, offset) && Accepted(st, f) && st.lastTimestamp != 0
    ensures Moves(cfg, st, st', f, offset) <==>
      f.value == st.lowPass.stored || Used(cfg, st', Shift(f, offset)) == Used(cfg, st, f)
  {
    var a, a' := Used(cfg, st, f), Used(cfg, st', Shift(f, offset));
    Blend(a', f.value, st.lowPass.stored, offset);
    SameBlend(a, a', f.value, st.lowPass.stored);
  }

  /** The factors that the call uses, without and with the shift. */
  lemma Factors(cfg: Config, st: State, st': State, dr: Drift, f: Frame, offset: real)
    returns (d: real, d': real, s: real, u: real, u': real)
    requires cfg.Valid() && cfg.mode == KLegacyTransition && Follows(cfg, st, st', dr, offset) && Accepted(st, f) && st.lastTimestamp != 0
    ensures d == Motion(cfg, st, f).0 && s == Slope(cfg, st, dr, f) && d' == d + offset * s
    ensures u == Used(cfg, st, f) && u' == Used(cfg, st', Shift(f, offset))
    ensures FactorFor(cfg, st.lowPass.alpha, d, u) && FactorFor(cfg, st'.lowPass.alpha, d', u')
    ensures cfg.velocityScale >= 0.0 && d' == d ==> u' == u
  {
    hide Motion, Slope, AlphaOf, Follows;
    UsedBoth(cfg, st, st', dr, f, offset);
    MotionFollows(cfg, st, st', dr, f, offset);
    d, d', s := Motion(cfg, st, f).0, Motion(cfg, st', Shift(f, offset)).0, Slope(cfg, st, dr, f);
    u, u' := Used(cfg, st, f), Used(cfg, st', Shift(f, offset));
    var t := Motion(cfg, st, f).1;
    FactorAt(cfg, st.lowPass, d, t);
    FactorAt(cfg, st'.lowPass, d', t);
    if cfg.velocityScale >= 0.0 {
      InRange(cfg, st, st', dr, f, offset);
    }
  }

  lemma UsedBoth(cfg: Config, st: State, st': State, dr: Drift, f: Frame, offset: real)
    requires cfg.Valid() && Follows(cfg, st, st', dr, offset) && Accepted(st, f) && st.lastTimestamp != 0
    ensures StateOk(st) && StateOk(st') && Accepted(st', Shift(f, offset)) && |dr.slopes| == |st.window|
    ensures var (d, t) := Motion(cfg, st, f); t > 0 && Used(cfg, st, f) == Factor(st.lowPass, AlphaOf(cfg, d, t))
    ensures var (d, t) := Motion(cfg, st', Shift(f, offset));
      t > 0 && Used(cfg, st', Shift(f, offset)) == Factor(st'.lowPass, AlphaOf(cfg, d, t))
  {
    UsedAt(cfg, st, f);
    UsedAt(cfg, st', Shift(f, offset));
  }

  lemma InRange(cfg: Config, st: State, st': State, dr: Drift, f: Frame, offset: real)
    requires cfg.Valid() && cfg.velocityScale >= 0.0 && Follows(cfg, st, st', dr, offset) && Accepted(st, f)
    ensures StateOk(st) && StateOk(st') && Accepted(st', Shift(f, offset))
    ensures Used(cfg, st, f) == Alpha(cfg, st, f) && Used(cfg, st', Shift(f, offset)) == Alpha(cfg, st', Shift(f, offset))
  {
    AlphaInRange(cfg, st, f);
    AlphaInRange(cfg, st', Shift(f, offset));
  }

  /** At rest the factor is zero; in motion it is positive, or the old one when the scale is negative. */
  predicate FactorFor(cfg: Config, alpha: real, d: real, u: real) {
    && (d == 0.0 || cfg.velocityScale == 0.0 ==> u == 0.0)
    && (d != 0.0 && cfg.velocityScale > 0.0 ==> u > 0.0)
    && (d != 0.0 && cfg.velocityScale < 0.0 ==> u == alpha)
  }

  /** Whatever the offset, the result of a call that the shift does not matter for moves with it. */
  lemma IgnoredMoves(cfg: Config, st: State, st': State, dr: Drift, f: Frame, offset: real)
    requires cfg.Valid() && cfg.mode == KLegacyTransition && Follows(cfg, st, st', dr, offset) && Accepted(st, f) && st.lastTimestamp != 0
    requires Ignored(cfg, st, dr, f)
    ensures Moves(cfg, st, st', f, offset)
  {
    hide Motion, Slope, Used, Moves;
    MovesWithFactor(cfg, st, st', dr, f, offset);
    var d, d', s, u, u' := Factors(cfg, st, st', dr, f, offset);
    assert s == 0.0 ==> d' == d;
  }

  /** An offset other than all of these. */
  function Above(xs: seq<real>): (x: real)
    ensures x > 0.0 && x !in xs && forall y :: y in xs ==> y < x
  {
    if xs == [] then 1.0
    else
      var x := Above(xs[1..]);
      assert xs == [xs[0]] + xs[1..];
      if xs[0] < x then x else xs[0] + 1.0
  }

  /** An offset with which the result of a call does not move, where there is one. */
  function Failing(cfg: Config, st: State, dr: Drift, f: Frame): real
    requires cfg.Valid() && |dr.slopes| == |st.window|
  {
    var d, s := Motion(cfg, st, f).0, Slope(cfg, st, dr, f);
    if !dr.split then (if s == 0.0 then 0.0 else if d == 0.0 then 1.0 / s else Halting(d, s))
    else if st.lowPass.alpha != 0.0 && d != 0.0 then dr.rest
    else Above(dr.halted + if s == 0.0 then [] else [Halting(d, s)])
  }

  lemma FailsAt(cfg: Config, st: State, st': State, dr: Drift, f: Frame)
    requires cfg.Valid() && cfg.mode == KLegacyTransition && |dr.slopes| == |st.window|
    requires dr.split ==> cfg.velocityScale < 0.0
    requires Follows(cfg, st, st', dr, Failing(cfg, st, dr, f)) && Accepted(st, f) && st.lastTimestamp != 0
    requires !Ignored(cfg, st, dr, f)
    ensures !Moves(cfg, st, st', f, Failing(cfg, st, dr, f))
  {
    hide Motion, Slope, Used, Moves;
    var offset := Failing(cfg, st, dr, f);
    MovesWithFactor(cfg, st, st', dr, f, offset);
    var d, d', s, u, u' := Factors(cfg, st, st', dr, f, offset);
    if s != 0.0 {
      Halts(d, s, offset);
    }
  }

  /** Only one offset brings a moving filter to rest. */
  lemma Halts(d: real, s: real, offset: real)
    requires s != 0.0
    ensures d + offset * s == 0.0 <==> offset == Halting(d, s)
    ensures 1.0 / s * s == 1.0
  {
    assert Halting(d, s) * s == -d;
    if offset * s == -d {
      assert (offset - Halting(d, s)) * s == 0.0;
      NoZeroDivisors(offset - Halting(d, s), s);
    }
  }

  lemma PushedFollows(cfg: Config, window: seq<WindowElement>, window': seq<WindowElement>, slopes: seq<real>, offset: real,
                      el: WindowElement, el': WindowElement, slope: real)
    requires WindowFollows(window, window', slopes, offset) && el' == el.(distance := el.distance + offset * slope)
    ensures WindowFollows(Pushed(cfg, window, el), Pushed(cfg, window', el'), PushedSlope(cfg, slopes, slope), offset)
  {
    assert WindowFollows([el] + window, [el'] + window', [slope] + slopes, offset);
  }

  /** What a call that counts leaves in the window, and as its factor. */
  lemma StepLeaves(cfg: Config, st: State, f: Frame)
    requires cfg.Valid() && StateOk(st) && Accepted(st, f) && st.lastTimestamp != 0
    ensures var (t, r) := Step(cfg, st, f);
      && t.window == Pushed(cfg, st.window, WindowElement(Distance(cfg.mode, st, f), f.timestamp - st.lastTimestamp))
      && t.lowPass == LowPass(Used(cfg, st, f), r, true) && t.lastTimestamp == f.timestamp
      && t.lastValue == f.value && t.lastValueScale == f.valueScale
  {
  }

  /** The factors compare after the call as `Drifted` says. */
  lemma StopFollows(cfg: Config, st: State, st': State, dr: Drift, f: Frame, offset: real)
    requires cfg.Valid() && cfg.mode == KLegacyTransition && Follows(cfg, st, st', dr, offset) && Accepted(st, f) && st.lastTimestamp != 0
    requires cfg.velocityScale < 0.0
    ensures SameStop(Used(cfg, st, f), Used(cfg, st', Shift(f, offset)), Drifted(cfg, st, dr, f), offset)
  {
    hide Motion, Slope, Used;
    var d, d', s, u, u' := Factors(cfg, st, st', dr, f, offset);
    if s != 0.0 {
      Halts(d, s, offset);
    }
  }

  /** As long as the results move with the offset, so does all that is remembered. */
  lemma StepFollows(cfg: Config, st: State, st': State, dr: Drift, f: Frame, offset: real)
    requires cfg.Valid() && cfg.mode == KLegacyTransition && Follows(cfg, st, st', dr, offset)
    requires st.lastTimestamp == 0 ==> !dr.split
    requires Moves(cfg, st, st', f, offset)
    ensures Follows(cfg, Step(cfg, st, f).0, Step(cfg, st', Shift(f, offset)).0, Drifted(cfg, st, dr, f), offset)
  {
    var g := Shift(f, offset);
    StepKeeps(cfg, st, f);
    StepKeeps(cfg, st', g);
    if Accepted(st, f) && st.lastTimestamp != 0 {
      LaterFollows(cfg, st, st', dr, f, offset);
    }
  }

  lemma LaterFollows(cfg: Config, st: State, st': State, dr: Drift, f: Frame, offset: real)
    requires cfg.Valid() && cfg.mode == KLegacyTransition && Follows(cfg, st, st', dr, offset)
    requires Accepted(st, f) && st.lastTimestamp != 0 && Moves(cfg, st, st', f, offset)
    ensures Follows(cfg, Step(cfg, st, f).0, Step(cfg, st', Shift(f, offset)).0, Drifted(cfg, st, dr, f), offset)
  {
    hide Motion, Slope, Used, Distance, Pushed, PushedSlope, SameStop, WindowFollows, Step, StateOk;
    var g := Shift(f, offset);
    StepKeeps(cfg, st, f);
    StepKeeps(cfg, st', g);
    StepLeaves(cfg, st, f);
    StepLeaves(cfg, st', g);
    MotionFollows(cfg, st, st', dr, f, offset);
    PushedFollows(cfg, st.window, st'.window, dr.slopes, offset, WindowElement(Distance(cfg.mode, st, f), f.timestamp - st.lastTimestamp),
                  WindowElement(Distance(cfg.mode, st', g), g.timestamp - st'.lastTimestamp), f.valueScale - st.lastValueScale);
    if cfg.velocityScale < 0.0 {
      StopFollows(cfg, st, st', dr, f, offset);
    }
  }

  // ---------------------------------------------------------------- runs

  /** All results of the run move by the offset. */
  predicate AllMove(cfg: Config, st: State, st': State, fs: seq<Frame>, offset: real)
    requires cfg.Valid() && StateOk(st) && StateOk(st')
  {
    var rs, rs' := Results(cfg, st, fs), Results(cfg, st', ShiftAll(fs, offset));
    forall i :: 0 <= i < |fs| ==> rs'[i] == rs[i] + offset
  }

  /** A run moves if its first call and the rest do. */
  lemma MovesFirst(cfg: Config, st: State, st': State, fs: seq<Frame>, offset: real)
    requires cfg.Valid() && StateOk(st) && StateOk(st') && fs != []
    ensures var t, t' := Step(cfg, st, fs[0]).0, Step(cfg, st', Shift(fs[0], offset)).0;
      StateOk(t) && StateOk(t')
      && (AllMove(cfg, st, st', fs, offset) <==> Moves(cfg, st, st', fs[0], offset) && AllMove(cfg, t, t', fs[1..], offset))
  {
    var gs := ShiftAll(fs, offset);
    assert gs[1..] == ShiftAll(fs[1..], offset);
    StepKeeps(cfg, st, fs[0]);
    StepKeeps(cfg, st', gs[0]);
    var (t, r) := Step(cfg, st, fs[0]);
    var (t', r') := Step(cfg, st', gs[0]);
    var rs, rs' := Results(cfg, t, fs[1..]), Results(cfg, t', gs[1..]);
    assert Results(cfg, st, fs) == [r] + rs && Results(cfg, st', gs) == [r'] + rs';
    MoreMove(r, r', rs, rs', offset);
  }

  lemma MoreMove(r: real, r': real, rs: seq<real>, rs': seq<real>, offset: real)
    requires |rs'| == |rs|
    ensures var ss, ss' := [r] + rs, [r'] + rs';
      (forall i :: 0 <= i < |ss| ==> ss'[i] == ss[i] + offset) <==> r' == r + offset && (forall i :: 0 <= i < |rs| ==> rs'[i] == rs[i] + offset)
  {
    var ss, ss' := [r] + rs, [r'] + rs';
    if forall i :: 0 <= i < |ss| ==> ss'[i] == ss[i] + offset {
      assert ss'[0] == ss[0] + offset;
      forall i | 0 <= i < |rs| ensures rs'[i] == rs[i] + offset {
        assert ss'[i + 1] == ss[i + 1] + offset;
      }
    }
  }

  /** Calls that do not count move in any case. */
  lemma EarlyMoves(cfg: Config, st: State, st': State, dr: Drift, f: Frame, offset: real)
    requires cfg.Valid() && Follows(cfg, st, st', dr, offset) && (!Accepted(st, f) || st.lastTimestamp == 0)
    ensures Moves(cfg, st, st', f, offset)
  {
  }

  lemma {:induction false} IgnoredRunMoves(cfg: Config, st: State, st': State, dr: Drift, fs: seq<Frame>, offset: real)
    requires cfg.Valid() && cfg.mode == KLegacyTransition && Follows(cfg, st, st', dr, offset)
    requires (st.lastTimestamp == 0 ==> !dr.split) && AllIgnored(cfg, st, dr, fs)
    ensures AllMove(cfg, st, st', fs, offset)
    decreases |fs|
  {
    hide Step, Drifted, Ignored, Moves, Accepted;
    if fs != [] {
      FirstMoves(cfg, st, st', dr, fs[0], offset);
      MovesFirst(cfg, st, st', fs, offset);
      StepFollows(cfg, st, st', dr, fs[0], offset);
      NeverBeforeStart(cfg, st, dr, fs[0]);
      IgnoredRunMoves(cfg, Step(cfg, st, fs[0]).0, Step(cfg, st', Shift(fs[0], offset)).0, Drifted(cfg, st, dr, fs[0]), fs[1..], offset);
    }
  }

  lemma FirstMoves(cfg: Config, st: State, st': State, dr: Drift, f: Frame, offset: real)
    requires cfg.Valid() && cfg.mode == KLegacyTransition && Follows(cfg, st, st', dr, offset)
    requires Accepted(st, f) && st.lastTimestamp != 0 ==> Ignored(cfg, st, dr, f)
    ensures Moves(cfg, st, st', f, offset)
  {
    if Accepted(st, f) && st.lastTimestamp != 0 {
      IgnoredMoves(cfg, st, st', dr, f, offset);
    } else {
      EarlyMoves(cfg, st, st', dr, f, offset);
    }
  }

  lemma NeverBeforeStart(cfg: Config, st: State, dr: Drift, f: Frame)
    requires cfg.Valid() && StateOk(st) && |dr.slopes| == |st.window| && (st.lastTimestamp == 0 ==> !dr.split)
    ensures Step(cfg, st, f).0.lastTimestamp == 0 ==> !Drifted(cfg, st, dr, f).split
    ensures (dr.split ==> cfg.velocityScale < 0.0) ==> Drifted(cfg, st, dr, f).split ==> cfg.velocityScale < 0.0
  {
  }

  /** The offset with which the first call that is not ignored fails. */
  function FailingRun(cfg: Config, st: State, dr: Drift, fs: seq<Frame>): real
    requires cfg.Valid() && StateOk(st) && |dr.slopes| == |st.window|
    decreases |fs|
  {
    if fs == [] then 0.0
    else if Accepted(st, fs[0]) && st.lastTimestamp != 0 && !Ignored(cfg, st, dr, fs[0]) then Failing(cfg, st, dr, fs[0])
    else
      StepKeeps(cfg, st, fs[0]);
      DriftedFits(cfg, st, dr, fs[0]);
      FailingRun(cfg, Step(cfg, st, fs[0]).0, Drifted(cfg, st, dr, fs[0]), fs[1..])
  }

  lemma {:induction false} RunFails(cfg: Config, st: State, st': State, dr: Drift, fs: seq<Frame>)
    requires cfg.Valid() && cfg.mode == KLegacyTransition && StateOk(st) && |dr.slopes| == |st.window|
    requires Follows(cfg, st, st', dr, FailingRun(cfg, st, dr, fs))
    requires (st.lastTimestamp == 0 ==> !dr.split) && (dr.split ==> cfg.velocityScale < 0.0) && !AllIgnored(cfg, st, dr, fs)
    ensures !AllMove(cfg, st, st', fs, FailingRun(cfg, st, dr, fs))
    decreases |fs|
  {
    hide Step, Drifted, Ignored, Moves, Failing;
    var offset := FailingRun(cfg, st, dr, fs);
    MovesFirst(cfg, st, st', fs, offset);
    if Accepted(st, fs[0]) && st.lastTimestamp != 0 && !Ignored(cfg, st, dr, fs[0]) {
      FailsAt(cfg, st, st', dr, fs[0]);
    } else {
      FirstMoves(cfg, st, st', dr, fs[0], offset);
      StepFollows(cfg, st, st', dr, fs[0], offset);
      NeverBeforeStart(cfg, st, dr, fs[0]);
      RunFails(cfg, Step(cfg, st, fs[0]).0, Step(cfg, st', Shift(fs[0], offset)).0, Drifted(cfg, st, dr, fs[0]), fs[1..]);
    }
  }

  /**
   In the legacy mode the results of a run move with every shift of the data exactly when each
   call is one that the shift does not matter for: the value is the one stored, or the velocity
   does not count, or all that the scale has changed by in the calls that count for the
   velocity adds up to nothing, with what `Drift` adds for a negative scale of velocity.
   */
  lemma LegacyRunExact(cfg: Config, fs: seq<Frame>)
    requires cfg.Valid() && cfg.mode == KLegacyTransition
    ensures (forall offset :: AllMove(cfg, Initial(cfg), Initial(cfg), fs, offset)) <==> AllIgnored(cfg, Initial(cfg), Still(cfg), fs)
  {
    hide AllMove, AllIgnored;
    var st, dr := Initial(cfg), Still(cfg);
    if AllIgnored(cfg, st, dr, fs) {
      forall offset ensures AllMove(cfg, st, st, fs, offset) {
        IgnoredRunMoves(cfg, st, st, dr, fs, offset);
      }
    } else {
      RunFails(cfg, st, st, dr, fs);
    }
  }
}
