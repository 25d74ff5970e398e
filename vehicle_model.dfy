/**
 * `VehicleModel` of ACC_w_mpc_py/vehicle_model.py: a longitudinal model with
 * aerodynamic drag and rolling resistance. Its methods write no field, so
 * the model is a value and its methods are functions.
 */
module VehicleModels {
  import VehicleDynamics

  const Mass: real := 1500.0
  const DragCoef: real := 0.3
  const RollingResistance: real := 0.01
  const Gravity: real := 9.81
  const MaxAccel: real := 2.0
  const MaxDecel: real := -3.0

  /** Rolling resistance as a deceleration: `0.01 * 1500 * 9.81 / 1500`. */
  const RollingDecel: real := RollingResistance * Gravity

  datatype VehicleModel = VehicleModel(dt: real := 0.1)

  /**
   * The acceleration after clamping the control input and subtracting drag
   * and rolling resistance: always at least the rolling deceleration below
   * the clamped control, so below the maximum acceleration.
   */
  function Acceleration(vel: real, control: real): (a: real)
    ensures a <= VehicleDynamics.Clip(control, MaxDecel, MaxAccel) - RollingDecel
    ensures a < MaxAccel
  {
    var clamped := VehicleDynamics.Clip(control, MaxDecel, MaxAccel);
    var dragForce := DragCoef * vel * vel;
    var rollingForce := RollingResistance * Mass * Gravity;
    assert rollingForce / Mass == RollingDecel;
    assert 0.0 <= dragForce / Mass;
    clamped - (dragForce + rollingForce) / Mass
  }

  /**
   * `update`: returns the new `[position, velocity]`; the velocity is not
   * clamped and can become negative.
   */
  function Update(m: VehicleModel, state: seq<real>, control: real): (next: seq<real>)
    requires |state| == 2
    ensures |next| == 2
    ensures next[1] == state[1] + Acceleration(state[1], control) * m.dt
    ensures next[0] == state[0] + state[1] * m.dt + 0.5 * Acceleration(state[1], control) * m.dt * m.dt
  {
    var pos, vel := state[0], state[1];
    var accel := Acceleration(vel, control);
    [pos + vel * m.dt + 0.5 * accel * m.dt * m.dt, vel + accel * m.dt]
  }

  /** Over one step the position advances by the mean of the old and new velocity times `dt`. */
  lemma UpdateTrapezoid(m: VehicleModel, state: seq<real>, control: real)
    requires |state| == 2
    ensures Update(m, state, control)[0] == state[0] + (state[1] + Update(m, state, control)[1]) / 2.0 * m.dt
  {
    var a := Acceleration(state[1], control);
    calc {
      (state[1] + Update(m, state, control)[1]) / 2.0 * m.dt;
      (state[1] + state[1] + a * m.dt) / 2.0 * m.dt;
      state[1] * m.dt + 0.5 * a * m.dt * m.dt;
    }
  }

  /**
   * With a positive time step the new speed stays below what the maximum
   * acceleration would give, and a control input of zero or less always
   * slows the vehicle.
   */
  lemma UpdateSlowerThanControl(m: VehicleModel, state: seq<real>, control: real)
    requires |state| == 2 && 0.0 < m.dt
    ensures Update(m, state, control)[1] < state[1] + MaxAccel * m.dt
    ensures control <= 0.0 ==> Update(m, state, control)[1] < state[1]
  {
    var a := Acceleration(state[1], control);
    var next := Update(m, state, control);
    assert next[1] == state[1] + a * m.dt;
    ScaleStrict(a, MaxAccel, m.dt);
    if control <= 0.0 {
      ScaleStrict(a, 0.0, m.dt);
    }
  }

  lemma ScaleStrict(a: real, b: real, c: real)
    requires a < b && 0.0 < c
    ensures a * c < b * c
  {
    assert (b - a) * c > 0.0;
  }

  /** `get_safe_distance`: a two-second gap, but never under 5 m. */
  function GetSafeDistance(m: VehicleModel, velocity: real): (d: real)
    ensures 5.0 <= d && 2.0 * velocity <= d
    ensures d == 5.0 || d == 2.0 * velocity
  {
    if 5.0 >= 2.0 * velocity then 5.0 else 2.0 * velocity
  }
}
