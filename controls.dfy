/** Player control: key state to control (key2ctrl), control to
    acceleration (handle_controls) and the velocity cap (cap_vel). */
module Controls {
  import opened Vectors
  import opened Entities

  /** enum control */
  datatype Control = CtrlNone | CtrlForward | CtrlBackward | CtrlTurnL | CtrlTurnR | CtrlFire

  /** Whether each key the game reads is held: W, S, A, D and SPACE. */
  datatype Keys = Keys(w: bool, s: bool, a: bool, d: bool, space: bool)

  /** key2ctrl: the first held key in the order W, S, A, D, SPACE decides. */
  function KeyToCtrl(k: Keys): (c: Control)
    ensures c == CtrlForward <==> k.w
    ensures c == CtrlBackward <==> !k.w && k.s
    ensures c == CtrlTurnL <==> !k.w && !k.s && k.a
    ensures c == CtrlTurnR <==> !k.w && !k.s && !k.a && k.d
    ensures c == CtrlFire <==> !k.w && !k.s && !k.a && !k.d && k.space
    ensures c == CtrlNone <==> !(k.w || k.s || k.a || k.d || k.space)
  {
    if k.w then CtrlForward
    else if k.s then CtrlBackward
    else if k.a then CtrlTurnL
    else if k.d then CtrlTurnR
    else if k.space then CtrlFire
    else CtrlNone
  }

  const ForwardAcc: real := 100.0   // F_ACC_MAG
  const BackwardAcc: real := 100.0  // B_ACC_MAG
  const TurnAcc: real := 10.0       // T_ACC_MAG

  /** The acceleration handle_controls gives an entity heading `heading`. */
  function ControlAcc(c: Control, heading: real, m: Libm): (a: Vector3d)
    ensures c == CtrlNone || c == CtrlFire ==> a == Zero
    ensures c == CtrlTurnL ==> a == Vector3d(0.0, 0.0, TurnAcc)
    ensures c == CtrlTurnR ==> a == Vector3d(0.0, 0.0, -TurnAcc)
    ensures c == CtrlForward ==> a == Vector3d(ForwardAcc * m.cos(heading), ForwardAcc * m.sin(heading), 0.0)
    ensures c == CtrlBackward ==> a == Vector3d(-BackwardAcc * m.cos(heading), -BackwardAcc * m.sin(heading), 0.0)
  {
    match c
    case CtrlForward => Zero.(x := ForwardAcc * m.cos(heading), y := ForwardAcc * m.sin(heading))
    case CtrlBackward => Zero.(x := -BackwardAcc * m.cos(heading), y := -BackwardAcc * m.sin(heading))
    case CtrlTurnL => Zero.(z := TurnAcc)
    case CtrlTurnR => Zero.(z := -TurnAcc)
    case _ => Zero
  }

  /** Forward thrust is the thrust along +x turned to the heading by the
      counter-clockwise rotation, and backward thrust its opposite. */
  lemma ThrustAlongHeading(heading: real, m: Libm)
    ensures ControlAcc(CtrlForward, heading, m) == Vector3d(ForwardAcc, 0.0, 0.0).Rotate(heading, m)
    ensures ControlAcc(CtrlBackward, heading, m) == Vector3d(-BackwardAcc, 0.0, 0.0).Rotate(heading, m)
  {
  }

  /** The entity after handle_controls: only the acceleration is replaced. */
  function Controlled(e: EntityState, c: Control, m: Libm): (r: EntityState)
    ensures r.pos == e.pos && r.vel == e.vel
    ensures r.acc == ControlAcc(c, e.pos.z, m)
  {
    e.(acc := ControlAcc(c, e.pos.z, m))
  }

  /** The acceleration is zeroed first, so the one held before has no effect. */
  lemma ControlForgetsAcc(e: EntityState, a: Vector3d, c: Control, m: Libm)
    ensures Controlled(e.(acc := a), c, m) == Controlled(e, c, m)
  {
  }

  /** Forward and backward thrust are opposite, as are the two turns. */
  lemma OppositeControls(heading: real, m: Libm)
    ensures ControlAcc(CtrlForward, heading, m).Add(ControlAcc(CtrlBackward, heading, m)) == Zero
    ensures ControlAcc(CtrlTurnL, heading, m).Add(ControlAcc(CtrlTurnR, heading, m)) == Zero
  {
  }

  /** handle_controls */
  method HandleControls(e: Entity, c: Control, m: Libm)
    modifies e
    ensures e.pos == old(e.pos) && e.vel == old(e.vel)
    ensures e.State() == Controlled(old(e.State()), c, m)
  {
    e.acc := Zero;
    match c {
      case CtrlForward =>
        e.acc := e.acc.(x := ForwardAcc * m.cos(e.pos.z));
        e.acc := e.acc.(y := ForwardAcc * m.sin(e.pos.z));
      case CtrlBackward =>
        e.acc := e.acc.(x := -BackwardAcc * m.cos(e.pos.z));
        e.acc := e.acc.(y := -BackwardAcc * m.sin(e.pos.z));
      case CtrlTurnL =>
        e.acc := e.acc.(z := TurnAcc);
      case CtrlTurnR =>
        e.acc := e.acc.(z := -TurnAcc);
      case _ =>
    }
  }

  const XVelCap: real := 400.0
  const YVelCap: real := 400.0
  const ZVelCap: real := 5.0

  /** Every velocity component lies within its cap. */
  predicate WithinCaps(v: Vector3d)
  {
    -XVelCap <= v.x <= XVelCap && -YVelCap <= v.y <= YVelCap && -ZVelCap <= v.z <= ZVelCap
  }

  /** The entity after cap_vel: the first of x-high, x-low, y-high, y-low,
      z-high, z-low that is exceeded is set to its cap, and nothing else. */
  function Capped(e: EntityState): (r: EntityState)
    ensures r.pos == e.pos && r.acc == e.acc
    ensures e.vel.x > XVelCap ==> r.vel == e.vel.(x := XVelCap)
    ensures e.vel.x < -XVelCap ==> r.vel == e.vel.(x := -XVelCap)
    ensures -XVelCap <= e.vel.x <= XVelCap && e.vel.y > YVelCap ==> r.vel == e.vel.(y := YVelCap)
    ensures -XVelCap <= e.vel.x <= XVelCap && e.vel.y < -YVelCap ==> r.vel == e.vel.(y := -YVelCap)
    ensures -XVelCap <= e.vel.x <= XVelCap && -YVelCap <= e.vel.y <= YVelCap && e.vel.z > ZVelCap
            ==> r.vel == e.vel.(z := ZVelCap)
    ensures -XVelCap <= e.vel.x <= XVelCap && -YVelCap <= e.vel.y <= YVelCap && e.vel.z < -ZVelCap
            ==> r.vel == e.vel.(z := -ZVelCap)
    ensures WithinCaps(e.vel) ==> r == e
  {
    var v := e.vel;
    if v.x > XVelCap then e.(vel := v.(x := XVelCap))
    else if v.x < -XVelCap then e.(vel := v.(x := -XVelCap))
    else if v.y > YVelCap then e.(vel := v.(y := YVelCap))
    else if v.y < -YVelCap then e.(vel := v.(y := -YVelCap))
    else if v.z > ZVelCap then e.(vel := v.(z := ZVelCap))
    else if v.z < -ZVelCap then e.(vel := v.(z := -ZVelCap))
    else e
  }

  /** How many velocity components lie outside their caps. */
  function Excess(v: Vector3d): (n: nat)
    ensures n <= 3
    ensures n == 0 <==> WithinCaps(v)
  {
    (if -XVelCap <= v.x <= XVelCap then 0 else 1)
    + (if -YVelCap <= v.y <= YVelCap then 0 else 1)
    + (if -ZVelCap <= v.z <= ZVelCap then 0 else 1)
  }

  /** Each cap_vel call brings exactly one exceeding component back, never
      pushes another one out, and is the identity once all are within. */
  lemma CappedReducesExcess(e: EntityState)
    ensures Excess(e.vel) > 0 ==> Excess(Capped(e).vel) == Excess(e.vel) - 1
    ensures Excess(e.vel) == 0 ==> Capped(e) == e
  {
  }

  /** Hence three calls always bring every component within its cap. */
  lemma CappedThriceWithinCaps(e: EntityState)
    ensures WithinCaps(Capped(Capped(Capped(e))).vel)
  {
  }

  /** One call does not suffice when two components exceed: with vx and vy both
      at 1000, vx becomes 400 and vy stays 1000. */
  lemma CappedOnceLeavesY()
    ensures var e := EntityState(Zero, Vector3d(1000.0, 1000.0, 0.0), Zero);
            Capped(e).vel == Vector3d(400.0, 1000.0, 0.0) && !WithinCaps(Capped(e).vel)
  {
  }

  /** cap_vel */
  method CapVel(e: Entity)
    modifies e
    ensures e.pos == old(e.pos) && e.acc == old(e.acc)
    ensures e.State() == Capped(old(e.State()))
  {
    if e.vel.x > XVelCap {
      e.vel := e.vel.(x := XVelCap);
    } else if e.vel.x < -XVelCap {
      e.vel := e.vel.(x := -XVelCap);
    } else if e.vel.y > YVelCap {
      e.vel := e.vel.(y := YVelCap);
    } else if e.vel.y < -YVelCap {
      e.vel := e.vel.(y := -YVelCap);
    } else if e.vel.z > ZVelCap {
      e.vel := e.vel.(z := ZVelCap);
    } else if e.vel.z < -ZVelCap {
      e.vel := e.vel.(z := -ZVelCap);
    }
  }
}
