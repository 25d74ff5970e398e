/**
 * The simulated vehicles of ACC_w_mpc_py/vehicle_dynamics.py: a clamped
 * kinematic ego vehicle and a lead vehicle that follows a sinusoidal speed
 * profile.
 */
module VehicleDynamics {

  function Min(a: real, b: real): real
  {
    if a <= b then a else b
  }

  function Max(a: real, b: real): real
  {
    if a >= b then a else b
  }

  /** `np.clip(v, lo, hi)`, that is `min(max(v, lo), hi)`. */
  function Clip(v: real, lo: real, hi: real): (r: real)
    ensures r <= hi
    ensures lo <= hi ==> lo <= r
    ensures lo <= v <= hi ==> r == v
    ensures hi < v ==> r == hi
    ensures v < lo && lo <= hi ==> r == lo
  {
    Min(Max(v, lo), hi)
  }

  /** 40 km/h in m/s: the lead vehicle's top speed. */
  const MaxLeadVelocity: real := 40.0 * 1000.0 / 3600.0
  const MinLeadVelocity: real := 0.0
  /** The period of the lead vehicle's speed profile, in seconds. */
  const LeadPeriod: real := 20.0

  /**
   * `get_lead_vehicle_velocity`, given `sinPhase`, the value of
   * `sin(2 * pi / 20 * time)`: the speed swings between the minimum and
   * maximum, rising with the sine.
   */
  function LeadVehicleVelocity(sinPhase: real): (v: real)
    ensures -1.0 <= sinPhase <= 1.0 ==> MinLeadVelocity <= v <= MaxLeadVelocity
    ensures sinPhase == 1.0 ==> v == MaxLeadVelocity
    ensures sinPhase == -1.0 ==> v == MinLeadVelocity
  {
    (MaxLeadVelocity - MinLeadVelocity) / 2.0 * (1.0 + sinPhase) + MinLeadVelocity
  }

  /** A higher sine value never gives a lower speed. */
  lemma LeadVehicleVelocityMonotone(s1: real, s2: real)
    requires s1 <= s2
    ensures LeadVehicleVelocity(s1) <= LeadVehicleVelocity(s2)
  {
    assert (MaxLeadVelocity - MinLeadVelocity) / 2.0 > 0.0;
  }

  class EgoVehicle {
    var position: real
    var velocity: real
    var acceleration: real
    const maxAcceleration: real
    const minAcceleration: real
    const maxVelocity: real

    /** `__init__`, with the source's default arguments. */
    constructor(initialPosition: real := 0.0, initialVelocity: real := 0.0, maxAcceleration: real := 2.0,
                minAcceleration: real := -3.0, maxVelocity: real := 30.0)
      ensures position == initialPosition && velocity == initialVelocity && acceleration == 0.0
      ensures this.maxAcceleration == maxAcceleration && this.minAcceleration == minAcceleration
      ensures this.maxVelocity == maxVelocity
    {
      position := initialPosition;
      velocity := initialVelocity;
      acceleration := 0.0;
      this.maxAcceleration := maxAcceleration;
      this.minAcceleration := minAcceleration;
      this.maxVelocity := maxVelocity;
    }

    /**
     * `update_state`: clamps and stores the acceleration, advances the
     * position with the old velocity and the clamped acceleration, then
     * clamps the new velocity to `[0, max_velocity]`.
     */
    method UpdateState(dt: real)
      modifies this`position, this`velocity, this`acceleration
      ensures acceleration == Clip(old(acceleration), minAcceleration, maxAcceleration)
      ensures minAcceleration <= maxAcceleration ==> minAcceleration <= acceleration <= maxAcceleration
      ensures position == old(position) + old(velocity) * dt + 0.5 * acceleration * dt * dt
      ensures velocity == Clip(old(velocity) + acceleration * dt, 0.0, maxVelocity)
      ensures 0.0 <= maxVelocity ==> 0.0 <= velocity <= maxVelocity
    {
      acceleration := Clip(acceleration, minAcceleration, maxAcceleration);
      position := position + velocity * dt + 0.5 * acceleration * dt * dt;
      velocity := velocity + acceleration * dt;
      velocity := Clip(velocity, 0.0, maxVelocity);
    }

    /** `get_state`: `[position, velocity]`. */
    method GetState() returns (state: seq<real>)
      ensures state == [position, velocity]
    {
      state := [position, velocity];
    }
  }

  class LeadVehicle {
    var position: real
    var velocity: real

    /** `__init__`, with the source's default arguments. */
    constructor(initialPosition: real := 50.0, initialVelocity: real := 15.0)
      ensures position == initialPosition && velocity == initialVelocity
    {
      position := initialPosition;
      velocity := initialVelocity;
    }

    /**
     * `update_state`: takes the profile speed for the current time, then
     * advances the position with that new speed.
     */
    method UpdateState(dt: real, sinPhase: real)
      modifies this`position, this`velocity
      ensures velocity == LeadVehicleVelocity(sinPhase)
      ensures position == old(position) + velocity * dt
      ensures -1.0 <= sinPhase <= 1.0 ==> MinLeadVelocity <= velocity <= MaxLeadVelocity
    {
      velocity := LeadVehicleVelocity(sinPhase);
      position := position + velocity * dt;
    }

    /** `get_state`: `[position, velocity]`. */
    method GetState() returns (state: seq<real>)
      ensures state == [position, velocity]
    {
      state := [position, velocity];
    }
  }
}
