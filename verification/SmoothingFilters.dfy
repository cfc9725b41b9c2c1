/**
 The smoothing filters with their fields: each call is a step of the filter described on values.
 */
module SmoothingFilters {
  import opened VelocityFilters
  import opened VelocityMeaning

  class LowPassFilter {
    var raw_value: real
    var alpha: real
    var stored_value: real
    var initialized: bool

    constructor (alpha: real)
      requires 0.0 <= alpha <= 1.0
      ensures Value() == LowPass(alpha, stored_value, false)
    {
      this.alpha := alpha;
      initialized := false;
    }

    ghost function Value(): LowPass
      reads this
    {
      LowPass(alpha, stored_value, initialized)
    }

    method SetAlpha(alpha: real)
      modifies this`alpha
      ensures this.alpha == if alpha < 0.0 || alpha > 1.0 then old(this.alpha) else alpha
    {
      if alpha < 0.0 || alpha > 1.0 {
        return;
      }
      this.alpha := alpha;
    }

    method Apply(value: real) returns (result: real)
      modifies this`raw_value, this`stored_value, this`initialized
      ensures result == if old(initialized) then Blended(alpha, value, old(stored_value)) else value
      ensures raw_value == value && stored_value == result && initialized
    {
      if initialized {
        result := alpha * value + (1.0 - alpha) * stored_value;
      } else {
        result := value;
        initialized := true;
      }
      raw_value := value;
      stored_value := result;
    }

    method ApplyWithAlpha(value: real, alpha: real) returns (result: real)
      modifies this
      ensures (Value(), result) == Smooth(old(Value()), value, alpha)
    {
      SetAlpha(alpha);
      result := Apply(value);
    }
  }

  class RelativeVelocityFilter {
    const cfg: Config
    const low_pass_filter: LowPassFilter
    var last_value: real
    var last_value_scale: real
    var last_timestamp: int
    var window: seq<WindowElement>

    ghost function Value(): State
      reads this, low_pass_filter
    {
      State(last_value, last_value_scale, last_timestamp, window, low_pass_filter.Value())
    }

    ghost predicate Valid()
      reads this, low_pass_filter
    {
      cfg.Valid() && StateOk(Value())
    }

    constructor (cfg: Config)
      requires cfg.Valid()
      ensures Valid() && this.cfg == cfg && fresh(low_pass_filter)
      ensures |window| == cfg.maxWindowSize && last_timestamp == 0
      ensures Shifted(Initial(cfg), Value(), 0.0)
    {
      this.cfg := cfg;
      low_pass_filter := new LowPassFilter(1.0);
      last_value, last_value_scale, last_timestamp := 0.0, 1.0, 0;
      window := seq(cfg.maxWindowSize, i => WindowElement(0.0, 0));
    }

    method Apply(timestamp: int, value_scale: real, value: real) returns (result: real)
      requires Valid()
      modifies this, low_pass_filter
      ensures Valid()
      ensures (Value(), result) == Step(cfg, old(Value()), Frame(timestamp, value_scale, value))
      ensures old(last_timestamp) >= timestamp ==> result == value && Value() == old(Value())
      ensures old(last_timestamp) == 0 < timestamp ==> result == value && window == old(window)
      ensures 0 < old(last_timestamp) < timestamp ==>
        exists period, k, speed :: MovesTo(cfg, old(Value()), Frame(timestamp, value_scale, value), period, k, speed, Value(), result)
    {
      hide Cumulate, AlphaOf, Smooth, Pushed, MovesTo, Moves;
      ghost var st, f := Value(), Frame(timestamp, value_scale, value);
      if 0 < last_timestamp < timestamp {
        StepMoves(cfg, st, f);
      } else if last_timestamp == 0 < timestamp {
        FirstStep(cfg, st, f);
      }
      StepKeeps(cfg, Value(), Frame(timestamp, value_scale, value));
      if last_timestamp >= timestamp {
        return value;
      }
      var alpha := 1.0;
      if last_timestamp != 0 {
        alpha := TrackVelocity(timestamp, value_scale, value);
      }
      last_value := value;
      last_value_scale := value_scale;
      last_timestamp := timestamp;
      result := low_pass_filter.ApplyWithAlpha(value, alpha);
    }

    /** The smoothing factor for the velocity of late, to which this call has been added. */
    method TrackVelocity(timestamp: int, value_scale: real, value: real) returns (alpha: real)
      requires Valid() && 0 < last_timestamp < timestamp
      modifies this`window
      ensures alpha == Alpha(cfg, old(Value()), Frame(timestamp, value_scale, value))
      ensures window == Pushed(cfg, old(window), WindowElement(Distance(cfg.mode, old(Value()), Frame(timestamp, value_scale, value)),
                                                               timestamp - last_timestamp))
    {
      hide Cumulate, AlphaOf, Pushed;
      ghost var st, f := Value(), Frame(timestamp, value_scale, value);
      var distance := if cfg.mode == KLegacyTransition then value * value_scale - last_value * last_value_scale
                      else value_scale * (value - last_value);
      assert distance == Distance(cfg.mode, st, f);
      var duration := timestamp - last_timestamp;
      var cumulative_distance, cumulative_duration := CumulateWindow(distance, duration);
      assert (cumulative_distance, cumulative_duration) == Motion(cfg, st, f);
      MotionLonger(cfg, st, f);
      alpha := AlphaOf(cfg, cumulative_distance, cumulative_duration);
      PushElement(WindowElement(distance, duration));
    }

    /** Adds up the window from the latest element on, as far as the time covered stays within bounds. */
    method CumulateWindow(distance: real, duration: int) returns (cumulative_distance: real, cumulative_duration: int)
      requires cfg.Valid()
      ensures (cumulative_distance, cumulative_duration) == Cumulate(window, MaxDuration(cfg, window), distance, duration)
    {
      cumulative_distance, cumulative_duration := distance, duration;
      var max_cumulative_duration := MaxDuration(cfg, window);
      var i := 0;
      while i < |window|
        invariant i <= |window|
        invariant Cumulate(window, max_cumulative_duration, distance, duration)
               == Cumulate(window[i..], max_cumulative_duration, cumulative_distance, cumulative_duration)
      {
        var el := window[i];
        if cumulative_duration + el.duration > max_cumulative_duration {
          break;
        }
        cumulative_distance := cumulative_distance + el.distance;
        cumulative_duration := cumulative_duration + el.duration;
        assert window[i..][1..] == window[i + 1..];
        i := i + 1;
      }
    }

    method PushElement(el: WindowElement)
      modifies this`window
      ensures window == Pushed(cfg, old(window), el)
    {
      window := [el] + window;
      if |window| > cfg.maxWindowSize {
        window := window[..|window| - 1];
      }
    }
  }
}
