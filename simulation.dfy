/**
 * The driver-style presets of ACC_w_mpc_py/simulation.py and how they are
 * applied to a controller.
 */
module Simulation {
  import opened Wrappers
  import opened MpcControl

  /** One preset: the requested time gap, the speed factor and the weights it overrides. */
  datatype DriverSetting = DriverSetting(gap: real, desiredSpeedFactor: real, weights: map<string, real>)

  const DriverSettings: map<string, DriverSetting> := map[
    "aggressive" := DriverSetting(1.0, 1.2, map[
      "q_velocity" := 2.0, "q_distance" := 1.0, "q_close" := 5.0, "q_far" := 0.5,
      "r_acceleration" := 0.05, "r_jerk" := 0.05]),
    "balanced" := DriverSetting(2.0, 1.0, map[
      "q_velocity" := 1.0, "q_distance" := 2.0, "q_close" := 10.0, "q_far" := 1.0,
      "r_acceleration" := 0.1, "r_jerk" := 0.1]),
    "conservative" := DriverSetting(3.0, 0.9, map[
      "q_velocity" := 0.5, "q_distance" := 3.0, "q_close" := 20.0, "q_far" := 2.0,
      "r_acceleration" := 0.2, "r_jerk" := 0.2])]

  /** The six weights every preset sets. */
  const TabledWeights: set<string> := {"q_velocity", "q_distance", "q_close", "q_far", "r_acceleration", "r_jerk"}

  /**
   * `apply_driver_settings`: an unknown style is an error and leaves the
   * controller untouched; otherwise sets the gap, the desired speed and the
   * preset weights.
   */
  method ApplyDriverSettings(mpc: MpcController, driverStyle: string, baseSpeed: real) returns (outcome: Outcome)
    modifies mpc
    ensures driverStyle !in DriverSettings ==> outcome.Fail? && unchanged(mpc)
    ensures driverStyle in DriverSettings ==>
              var settings := DriverSettings[driverStyle];
              && outcome.Pass?
              && mpc.currentGap == GapName(settings.gap)
              && mpc.desiredVelocity == baseSpeed * settings.desiredSpeedFactor
              && mpc.weights == Calibrated(old(mpc.weights), settings.weights)
              && mpc.lastControl == old(mpc.lastControl)
    ensures old(mpc.Valid()) ==> mpc.Valid()
  {
    if driverStyle !in DriverSettings {
      return Fail("Unknown driver style: " + driverStyle);
    }
    var settings := DriverSettings[driverStyle];
    mpc.SetGap(settings.gap);
    mpc.desiredVelocity := baseSpeed * settings.desiredSpeedFactor;
    mpc.CalibrateWeights(settings.weights);
    return Pass;
  }

  /** Every preset's time gap selects the gap setting of the same name. */
  lemma PresetGapIsStyle(style: string)
    requires style in DriverSettings
    ensures GapName(DriverSettings[style].gap) == style
  {
  }

  /**
   * Applying a preset to a controller with the eight weights sets the six
   * tabled weights to the table's values and keeps `q_safety` and
   * `q_jerk_violation`.
   */
  lemma PresetWeights(style: string, w: map<string, real>)
    requires style in DriverSettings && w.Keys == WeightKeys
    ensures var r := Calibrated(w, DriverSettings[style].weights);
      && r.Keys == WeightKeys
      && (forall k :: k in TabledWeights ==> r[k] == DriverSettings[style].weights[k])
      && r["q_safety"] == w["q_safety"] && r["q_jerk_violation"] == w["q_jerk_violation"]
  {
    assert DriverSettings[style].weights.Keys == TabledWeights;
    assert "q_safety" !in TabledWeights && "q_jerk_violation" !in TabledWeights;
  }
}
