/** Kinematic entities (`entity` in main.cpp): a position, a velocity and an
    acceleration, advanced by one semi-implicit Euler step per frame. */
module Entities {
  import opened Vectors

  /** The value of an entity; projectiles and the viewport camera hold one. */
  datatype EntityState = EntityState(pos: Vector3d, vel: Vector3d, acc: Vector3d)
  {
    /** entity::act: the position moves by the velocity held before the step,
        then the velocity moves by the acceleration; the acceleration stays. */
    function Act(dt: real): (r: EntityState)
      ensures r.acc == acc
      ensures r.pos.Sub(pos) == vel.Scale(dt)
      ensures r.vel.Sub(vel) == acc.Scale(dt)
      ensures dt == 0.0 ==> r == this
    {
      EntityState(pos.Add(vel.Scale(dt)), vel.Add(acc.Scale(dt)), acc)
    }
  }

  /** A default-constructed entity: everything zero. */
  const Still := EntityState(Zero, Zero, Zero)

  /** An entity the program updates in place (the player). */
  class Entity {
    var pos: Vector3d
    var vel: Vector3d
    var acc: Vector3d

    function State(): EntityState
      reads this
    {
      EntityState(pos, vel, acc)
    }

    constructor ()
      ensures State() == Still
    {
      pos, vel, acc := Zero, Zero, Zero;
    }

    /** entity::act */
    method Act(dt: real)
      modifies this
      ensures pos == old(pos).Add(old(vel).Scale(dt))
      ensures vel == old(vel).Add(old(acc).Scale(dt))
      ensures acc == old(acc)
      ensures State() == old(State()).Act(dt)
    {
      pos := pos.Add(vel.Scale(dt));
      vel := vel.Add(acc.Scale(dt));
    }
  }

  /** n consecutive steps of the same length. */
  function Steps(e: EntityState, dt: real, n: nat): EntityState
  {
    if n == 0 then e else Steps(e, dt, n - 1).Act(dt)
  }

  /** With no acceleration an entity coasts: its velocity stays and after n
      steps of dt it has moved by velocity times n * dt. */
  lemma {:induction false} CoastSteps(e: EntityState, dt: real, n: nat)
    requires e.acc == Zero
    ensures Steps(e, dt, n).acc == Zero
    ensures Steps(e, dt, n).vel == e.vel
    ensures Steps(e, dt, n).pos == e.pos.Add(e.vel.Scale(n as real * dt))
  {
    if n > 0 {
      CoastSteps(e, dt, n - 1);
      CoastNext(Steps(e, dt, n - 1), e, dt, n);
    }
  }

  /** The induction step of CoastSteps: one more coasting step from the
      state after n - 1 steps. */
  lemma CoastNext(prev: EntityState, e: EntityState, dt: real, n: nat)
    requires n > 0
    requires prev.acc == Zero && prev.vel == e.vel
    requires prev.pos == e.pos.Add(e.vel.Scale((n - 1) as real * dt))
    ensures prev.Act(dt).acc == Zero && prev.Act(dt).vel == e.vel
    ensures prev.Act(dt).pos == e.pos.Add(e.vel.Scale(n as real * dt))
  {
    AddScaledTwice(e.pos, e.vel, (n - 1) as real * dt, dt);
    StepCount(n, dt);
  }

  /** (n - 1) steps of dt and one more make n steps of dt. */
  lemma StepCount(n: nat, dt: real)
    requires n > 0
    ensures (n - 1) as real * dt + dt == n as real * dt
  {
  }

  /** From the origin with velocity (10, 0, 0), one step of one second ends at (10, 0, 0). */
  lemma ActFromOrigin()
    ensures EntityState(Zero, Vector3d(10.0, 0.0, 0.0), Zero).Act(1.0).pos == Vector3d(10.0, 0.0, 0.0)
  {
  }
}
