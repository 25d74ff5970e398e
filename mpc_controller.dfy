/**
 * `MPCController` of ACC_w_mpc_py/mpc_controller.py: the time-gap presets,
 * the keyed cost weights, the desired following distance and the
 * warm-start buffer kept between solver calls. The cost function and the
 * numerical optimiser are an oracle `solve` from the initial guess to the
 * solver's `(success, x)`.
 */
module MpcControl {
  import opened Wrappers

  /** `result.success` and `result.x` of the optimiser. */
  datatype SolverResult = SolverResult(success: bool, x: seq<real>)

  /** Time gap in seconds for each gap setting. */
  const GapSettings: map<string, real> := map["aggressive" := 1.0, "balanced" := 2.0, "conservative" := 3.0]

  /** The eight cost weights and their initial values. */
  const InitialWeights: map<string, real> := map[
    "q_velocity" := 1.0, "q_distance" := 2.0, "r_acceleration" := 0.1, "r_jerk" := 0.1,
    "q_close" := 10.0, "q_far" := 1.0, "q_safety" := 100.0, "q_jerk_violation" := 100.0]

  const WeightKeys: set<string> := {"q_velocity", "q_distance", "r_acceleration", "r_jerk",
                                    "q_close", "q_far", "q_safety", "q_jerk_violation"}

  /** The weights after calibration: known keys take the supplied value, unknown keys are ignored. */
  function Calibrated(w: map<string, real>, upd: map<string, real>): (r: map<string, real>)
    ensures r.Keys == w.Keys
    ensures forall k :: k in w && k in upd ==> r[k] == upd[k]
    ensures forall k :: k in w && k !in upd ==> r[k] == w[k]
  {
    map k | k in w :: if k in upd then upd[k] else w[k]
  }

  /** Calibrating twice with the same values changes nothing more. */
  lemma CalibratedIdempotent(w: map<string, real>, upd: map<string, real>)
    ensures Calibrated(Calibrated(w, upd), upd) == Calibrated(w, upd)
  {
    assert Calibrated(Calibrated(w, upd), upd).Keys == Calibrated(w, upd).Keys;
  }

  /** Entries for unknown keys have no effect: only the keys already present matter. */
  lemma CalibratedIgnoresUnknown(w: map<string, real>, upd: map<string, real>)
    ensures Calibrated(w, upd) == Calibrated(w, map k | k in upd && k in w :: upd[k])
  {
    var known := map k | k in upd && k in w :: upd[k];
    assert Calibrated(w, upd).Keys == Calibrated(w, known).Keys;
  }

  /** The gap setting chosen for a requested time gap. */
  function GapName(gapValue: real): (name: string)
    ensures name in GapSettings
    ensures name == "aggressive" <==> gapValue <= 1.0
    ensures name == "balanced" <==> 1.0 < gapValue <= 2.0
    ensures name == "conservative" <==> 2.0 < gapValue
  {
    if gapValue <= 1.0 then "aggressive" else if gapValue <= 2.0 then "balanced" else "conservative"
  }

  /** A larger requested gap never selects a shorter setting. */
  lemma GapNameMonotone(a: real, b: real)
    requires a <= b
    ensures GapSettings[GapName(a)] <= GapSettings[GapName(b)]
  {
  }

  /** Each setting's own time gap selects that setting again. */
  lemma GapNameRoundTrip(name: string)
    requires name in GapSettings
    ensures GapName(GapSettings[name]) == name
  {
  }

  /** `np.zeros(n)`. */
  function Zeros(n: nat): (r: seq<real>)
    ensures |r| == n && forall i :: 0 <= i < n ==> r[i] == 0.0
  {
    seq(n, _ => 0.0)
  }

  /** The buffer advanced by one control step: everything moves left and a 0.0 enters at the end. */
  function ShiftedLeft(s: seq<real>): (r: seq<real>)
    requires 1 <= |s|
    ensures |r| == |s| && r[|s| - 1] == 0.0
    ensures forall i :: 0 <= i < |s| - 1 ==> r[i] == s[i + 1]
  {
    s[1..] + [0.0]
  }

  /** The buffer after `k` consecutive solver failures. */
  ghost function ShiftedTimes(s: seq<real>, k: nat): seq<real>
    requires 1 <= |s|
    decreases k
  {
    if k == 0 then s else ShiftedLeft(ShiftedTimes(s, k - 1))
  }

  /** `k` failures drop the first `k` planned controls and append `k` zeros. */
  lemma {:induction false} ShiftedTimesDrops(s: seq<real>, k: nat)
    requires 1 <= |s| && k <= |s|
    ensures |ShiftedTimes(s, k)| == |s|
    ensures ShiftedTimes(s, k) == s[k..] + Zeros(k)
  {
    if k > 0 {
      ShiftedTimesDrops(s, k - 1);
      assert ShiftedTimes(s, k) == (s[k - 1..] + Zeros(k - 1))[1..] + [0.0];
      assert s[k - 1..][1..] == s[k..];
    }
  }

  /** After as many consecutive failures as the horizon, the warm start is all zeros. */
  lemma ShiftedTimesDrains(s: seq<real>)
    requires 1 <= |s|
    ensures ShiftedTimes(s, |s|) == Zeros(|s|)
  {
    ShiftedTimesDrops(s, |s|);
  }

  class MpcController {
    const horizon: nat
    const dt: real
    const minSafeDistance: real
    /** Maximum allowed jerk (m/s^3), used only by the cost function. */
    const maxJerk: real
    const gapSettings: map<string, real>

    var currentGap: string
    var desiredVelocity: real
    var weights: map<string, real>
    /** The control sequence kept for the next warm start; `None` before the first solve. */
    var lastControl: Option<seq<real>>

    /** The gap names a preset, the eight weights are present, and the buffer spans the horizon. */
    ghost predicate Valid()
      reads this
    {
      && gapSettings == GapSettings
      && currentGap in gapSettings
      && weights.Keys == WeightKeys
      && (lastControl.Some? ==> |lastControl.value| == horizon)
    }

    /** `__init__`, with the source's default horizon, time step and minimum safe distance. */
    constructor(horizon: nat := 10, dt: real := 0.1, minSafeDistance: real := 10.0)
      ensures this.horizon == horizon && this.dt == dt && this.minSafeDistance == minSafeDistance
      ensures maxJerk == 2.0 && gapSettings == GapSettings
      ensures currentGap == "balanced" && desiredVelocity == 15.0
      ensures weights == InitialWeights && lastControl == None
      ensures Valid()
    {
      this.horizon := horizon;
      this.dt := dt;
      this.minSafeDistance := minSafeDistance;
      maxJerk := 2.0;
      gapSettings := GapSettings;
      currentGap := "balanced";
      desiredVelocity := 15.0;
      weights := InitialWeights;
      lastControl := None;
    }

    /**
     * `calibrate_weights`: walks the supplied entries; a known key takes the
     * supplied value, an unknown key only produces a warning.
     */
    method CalibrateWeights(weightsDict: map<string, real>)
      modifies this`weights
      ensures weights == Calibrated(old(weights), weightsDict)
      ensures old(Valid()) ==> Valid()
    {
      var pending := weightsDict.Keys;
      while pending != {}
        invariant pending <= weightsDict.Keys
        invariant weights.Keys == old(weights).Keys
        invariant forall k :: k in weights ==>
                    weights[k] == if k in weightsDict && k !in pending then weightsDict[k] else old(weights)[k]
        decreases |pending|
      {
        var key :| key in pending;
        pending := pending - {key};
        if key in weights {
          weights := weights[key := weightsDict[key]];
        }
      }
      assert weights.Keys == Calibrated(old(weights), weightsDict).Keys;
    }

    /** `get_current_weights`: a copy of the weights. */
    method GetCurrentWeights() returns (w: map<string, real>)
      ensures w == weights && w.Keys == weights.Keys
    {
      w := weights;
    }

    /** `_get_desired_distance`: the time-gap distance, never below the minimum safe distance. */
    function DesiredDistance(egoVelocity: real): (d: real)
      reads this
      requires currentGap in gapSettings
      ensures minSafeDistance <= d && egoVelocity * gapSettings[currentGap] <= d
      ensures d == minSafeDistance || d == egoVelocity * gapSettings[currentGap]
    {
      var timeGap := gapSettings[currentGap];
      if minSafeDistance >= egoVelocity * timeGap then minSafeDistance else egoVelocity * timeGap
    }

    /** `set_gap`: picks the preset for the requested time gap. */
    method SetGap(gapValue: real)
      modifies this`currentGap
      ensures currentGap == GapName(gapValue)
      ensures old(Valid()) ==> Valid()
    {
      if gapValue <= 1.0 {
        currentGap := "aggressive";
      } else if gapValue <= 2.0 {
        currentGap := "balanced";
      } else {
        currentGap := "conservative";
      }
    }

    /**
     * The bookkeeping of `optimize` around the solver: warm start from the
     * kept buffer (or zeros), keep the solution on success and return its
     * first control; on failure return 0.0 and shift the kept buffer left
     * with a 0.0 at the end (or start from zeros).
     */
    method Optimize(solve: seq<real> -> SolverResult) returns (u: real)
      requires 1 <= horizon && (lastControl.Some? ==> 1 <= |lastControl.value|)
      requires forall guess :: |solve(guess).x| == |guess|
      modifies this`lastControl
      ensures var u0 := if old(lastControl).Some? then old(lastControl).value else Zeros(horizon);
              var result := solve(u0);
              if result.success then lastControl == Some(result.x) && u == result.x[0]
              else u == 0.0 && lastControl == Some(if old(lastControl).Some? then ShiftedLeft(old(lastControl).value) else Zeros(horizon))
      ensures old(Valid()) ==> Valid()
    {
      var u0: seq<real>;
      if lastControl.Some? {
        u0 := lastControl.value;
      } else {
        u0 := Zeros(horizon);
      }
      var result := solve(u0);
      if result.success {
        lastControl := Some(result.x);
      } else if lastControl.Some? {
        var buf := lastControl.value;
        buf := buf[1..] + [buf[0]];
        buf := buf[|buf| - 1 := 0.0];
        assert forall i :: 0 <= i < |buf| ==> buf[i] == ShiftedLeft(lastControl.value)[i];
        assert buf == ShiftedLeft(lastControl.value);
        lastControl := Some(buf);
      } else {
        lastControl := Some(Zeros(horizon));
      }
      u := if result.success then result.x[0] else 0.0;
    }
  }
}
