/** One iteration of the frame loop of `main`: event, fire-rate gate,
    controls, spawning, integration, velocity cap and the projectile cull.
    Time, the pending event and the keyboard state are inputs. */
module FrameLoop {
  import opened Vectors
  import opened Entities
  import opened Controls
  import opened Projectiles

  /** The pending event SDL_PollEvent yields, if any, as far as the loop cares. */
  datatype Event = NoEvent | Quit | KeyDown | KeyUp | OtherEvent

  /** Minimum time in seconds between two shots. */
  const FireCooldown: real := 1.0

  /** The control after the event check: a key event re-reads the keys, any
      other event or none keeps the control the loop already held. */
  function ControlAfterEvent(ctrl: Control, ev: Event, keys: Keys): (c: Control)
    ensures ev == KeyDown || ev == KeyUp ==> c == KeyToCtrl(keys)
    ensures ev != KeyDown && ev != KeyUp ==> c == ctrl
  {
    match ev
    case KeyDown => KeyToCtrl(keys)
    case KeyUp => KeyToCtrl(keys)
    case _ => ctrl
  }

  /** The control and the last shot time after the fire gate. */
  datatype Gated = Gated(ctrl: Control, tFire: real)

  /** The fire timer: a FIRE passes only a full cooldown after the last shot,
      and then the shot time becomes t; too early it turns into NONE. Other
      controls pass unchanged. */
  function Gate(ctrl: Control, t: real, tFire: real): (g: Gated)
    ensures g.ctrl == CtrlFire <==> ctrl == CtrlFire && t - tFire >= FireCooldown
    ensures g.ctrl == CtrlFire ==> g.tFire == t
    ensures g.ctrl != CtrlFire ==> g.tFire == tFire
    ensures ctrl != CtrlFire ==> g.ctrl == ctrl
    ensures ctrl == CtrlFire && t - tFire < FireCooldown ==> g.ctrl == CtrlNone
  {
    if ctrl == CtrlFire then
      if t - tFire < FireCooldown then Gated(CtrlNone, tFire) else Gated(ctrl, t)
    else Gated(ctrl, tFire)
  }

  /** What one frame reads from outside: the time, the event and the keys. */
  datatype Input = Input(t: real, ev: Event, keys: Keys)

  /** The times of the frames whose control passes the gate as FIRE, from
      the given control and last shot time, up to the first quit. */
  function FireTimes(ins: seq<Input>, ctrl: Control, tFire: real): seq<real>
  {
    if ins == [] || ins[0].ev == Quit then []
    else
      var g := Gate(ControlAfterEvent(ctrl, ins[0].ev, ins[0].keys), ins[0].t, tFire);
      (if g.ctrl == CtrlFire then [ins[0].t] else []) + FireTimes(ins[1..], g.ctrl, g.tFire)
  }

  /** Shots are at least a cooldown apart, the first one a cooldown after the
      last shot before, whatever the times the clock reports. */
  lemma {:induction false} FireRateBounded(ins: seq<Input>, ctrl: Control, tFire: real)
    ensures var r := FireTimes(ins, ctrl, tFire);
            && (|r| > 0 ==> tFire + FireCooldown <= r[0])
            && forall i :: 0 <= i < |r| - 1 ==> r[i] + FireCooldown <= r[i + 1]
  {
    if ins != [] && ins[0].ev != Quit {
      var g := Gate(ControlAfterEvent(ctrl, ins[0].ev, ins[0].keys), ins[0].t, tFire);
      FireRateBounded(ins[1..], g.ctrl, g.tFire);
      var rest := FireTimes(ins[1..], g.ctrl, g.tFire);
      if g.ctrl == CtrlFire {
        var r := [ins[0].t] + rest;
        assert FireTimes(ins, ctrl, tFire) == r;
        forall i | 0 <= i < |r| - 1
          ensures r[i] + FireCooldown <= r[i + 1]
        {
          if i > 0 {
            assert r[i] == rest[i - 1] && r[i + 1] == rest[i];
          }
        }
      } else {
        assert FireTimes(ins, ctrl, tFire) == rest;
      }
    }
  }

  /** A suppressed FIRE is written back as NONE, so without a new key event
      no later frame fires, however much time passes. */
  lemma {:induction false} SuppressionPersists(ins: seq<Input>, tFire: real)
    requires forall i :: 0 <= i < |ins| ==> ins[i].ev != KeyDown && ins[i].ev != KeyUp
    ensures FireTimes(ins, CtrlNone, tFire) == []
  {
    if ins != [] && ins[0].ev != Quit {
      SuppressionPersists(ins[1..], tFire);
    }
  }

  /** Holding SPACE: pressed at 1.0 and at 1.5 gives one shot; pressed again
      at 2.5 gives a second. */
  lemma FireExamples()
    ensures var space := Keys(false, false, false, false, true);
            FireTimes([Input(1.0, KeyDown, space), Input(1.5, KeyDown, space)], CtrlNone, 0.0) == [1.0]
    ensures var space := Keys(false, false, false, false, true);
            FireTimes([Input(1.0, KeyDown, space), Input(2.5, KeyDown, space)], CtrlNone, 0.0) == [1.0, 2.5]
  {
    var space := Keys(false, false, false, false, true);
    assert KeyToCtrl(space) == CtrlFire;
    var a, b, c := Input(1.0, KeyDown, space), Input(1.5, KeyDown, space), Input(2.5, KeyDown, space);
    assert [a, b][1..] == [b] && [a, c][1..] == [c] && [b][1..] == [] && [c][1..] == [];
    assert FireTimes([b], CtrlFire, 1.0) == [];
    assert FireTimes([c], CtrlFire, 1.0) == [2.5];
  }

  /** What one frame does to the player holding control c: the control sets
      the acceleration, the player steps by dt, then the velocity is capped. */
  function PlayerFrame(e: EntityState, c: Control, dt: real, m: Libm): (r: EntityState)
    ensures r.acc == ControlAcc(c, e.pos.z, m)
    ensures r.pos == e.pos.Add(e.vel.Scale(dt))
    ensures WithinCaps(e.vel.Add(r.acc.Scale(dt))) ==> r.vel == e.vel.Add(r.acc.Scale(dt))
  {
    Capped(Controlled(e, c, m).Act(dt))
  }

  /** n frames of length dt with the same control held. */
  function PlayerFrames(e: EntityState, c: Control, dt: real, m: Libm, n: nat): EntityState
  {
    if n == 0 then e else PlayerFrame(PlayerFrames(e, c, dt, m, n - 1), c, dt, m)
  }

  /** One frame of FORWARD at heading 0 along the x axis, below the cap:
      the thrust is (100, 0, 0), so vx grows by 2 per 0.02 s frame. */
  lemma ForwardFrame(px: real, vx: real, acc: Vector3d, m: Libm)
    requires m.cos(0.0) == 1.0 && m.sin(0.0) == 0.0
    requires -XVelCap - 2.0 <= vx <= XVelCap - 2.0
    ensures PlayerFrame(EntityState(Vector3d(px, 0.0, 0.0), Vector3d(vx, 0.0, 0.0), acc), CtrlForward, 0.02, m)
            == EntityState(Vector3d(px + vx * 0.02, 0.0, 0.0), Vector3d(vx + 2.0, 0.0, 0.0), Vector3d(ForwardAcc, 0.0, 0.0))
  {
    ForwardAtHeadingZero(m);
    ForwardStep(px, vx);
    ForwardUncapped(px, vx);
  }

  /** At heading 0 the forward thrust points along +x. */
  lemma ForwardAtHeadingZero(m: Libm)
    requires m.cos(0.0) == 1.0 && m.sin(0.0) == 0.0
    ensures ControlAcc(CtrlForward, 0.0, m) == Vector3d(ForwardAcc, 0.0, 0.0)
  {
  }

  /** Below the cap the cap leaves the state after the step alone. */
  lemma ForwardUncapped(px: real, vx: real)
    requires -XVelCap - 2.0 <= vx <= XVelCap - 2.0
    ensures var s := EntityState(Vector3d(px + vx * 0.02, 0.0, 0.0), Vector3d(vx + 2.0, 0.0, 0.0), Vector3d(ForwardAcc, 0.0, 0.0));
            Capped(s) == s
  {
  }

  /** The step of a frame of 0.02 s under the forward thrust along +x. */
  lemma ForwardStep(px: real, vx: real)
    ensures EntityState(Vector3d(px, 0.0, 0.0), Vector3d(vx, 0.0, 0.0), Vector3d(ForwardAcc, 0.0, 0.0)).Act(0.02)
            == EntityState(Vector3d(px + vx * 0.02, 0.0, 0.0), Vector3d(vx + 2.0, 0.0, 0.0), Vector3d(ForwardAcc, 0.0, 0.0))
  {
  }

  /** The x position after n frames of 0.02 s from rest under the forward
      thrust: each frame moves by the velocity from before it, 2 * (n - 1). */
  function ForwardDistance(n: nat): real
  {
    if n == 0 then 0.0 else ForwardDistance(n - 1) + 0.04 * (n - 1) as real
  }

  /** The semi-implicit Euler sum 0.04 * (0 + 1 + ... + (n - 1)) in closed form. */
  lemma {:induction false} ForwardDistanceClosed(n: nat)
    ensures ForwardDistance(n) == 0.02 * n as real * (n as real - 1.0)
  {
    if n > 0 {
      ForwardDistanceClosed(n - 1);
    }
  }

  /** Holding FORWARD from rest at heading 0 with frames of 0.02 s: while the
      cap has not been reached (200 frames, 4 s) the velocity after n frames
      is (2n, 0, 0), within the caps, the heading stays 0 and the position is
      ForwardDistance(n) along x. */
  lemma {:induction false} ForwardFromRest(m: Libm, n: nat)
    requires m.cos(0.0) == 1.0 && m.sin(0.0) == 0.0
    requires n <= 200
    ensures var s := PlayerFrames(Still, CtrlForward, 0.02, m, n);
            && s.vel == Vector3d(2.0 * n as real, 0.0, 0.0)
            && WithinCaps(s.vel)
            && s.pos == Vector3d(ForwardDistance(n), 0.0, 0.0)
            && (n > 0 ==> s.acc == Vector3d(ForwardAcc, 0.0, 0.0))
  {
    if n > 0 {
      ForwardFromRest(m, n - 1);
      ForwardFromRestStep(PlayerFrames(Still, CtrlForward, 0.02, m, n - 1), m, n);
    }
  }

  /** The induction step: frame n from the state after n - 1 frames. */
  lemma ForwardFromRestStep(prev: EntityState, m: Libm, n: nat)
    requires m.cos(0.0) == 1.0 && m.sin(0.0) == 0.0
    requires 0 < n <= 200
    requires prev.vel == Vector3d(2.0 * (n - 1) as real, 0.0, 0.0)
    requires prev.pos == Vector3d(ForwardDistance(n - 1), 0.0, 0.0)
    ensures var s := PlayerFrame(prev, CtrlForward, 0.02, m);
            && s.vel == Vector3d(2.0 * n as real, 0.0, 0.0)
            && s.pos == Vector3d(ForwardDistance(n), 0.0, 0.0)
            && s.acc == Vector3d(ForwardAcc, 0.0, 0.0)
  {
    assert prev == EntityState(Vector3d(prev.pos.x, 0.0, 0.0), Vector3d(prev.vel.x, 0.0, 0.0), prev.acc);
    ForwardFrame(prev.pos.x, prev.vel.x, prev.acc, m);
  }

  /** FORWARD held for 2 s at dt = 0.02 from rest ends at x = 198 with vx = 200, below the cap of 400. (Direct
      integration of the continuous motion would give x = 200; the
      semi-implicit step moves with the velocity from before each step.) */
  lemma ForwardTwoSeconds(m: Libm)
    requires m.cos(0.0) == 1.0 && m.sin(0.0) == 0.0
    ensures PlayerFrames(Still, CtrlForward, 0.02, m, 100)
            == EntityState(Vector3d(198.0, 0.0, 0.0), Vector3d(200.0, 0.0, 0.0), Vector3d(ForwardAcc, 0.0, 0.0))
  {
    ForwardFromRestClosed(m, 100);
  }

  /** ForwardFromRest with the position in closed form. */
  lemma ForwardFromRestClosed(m: Libm, n: nat)
    requires m.cos(0.0) == 1.0 && m.sin(0.0) == 0.0
    requires 0 < n <= 200
    ensures PlayerFrames(Still, CtrlForward, 0.02, m, n)
            == EntityState(Vector3d(0.02 * n as real * (n as real - 1.0), 0.0, 0.0),
                           Vector3d(2.0 * n as real, 0.0, 0.0), Vector3d(ForwardAcc, 0.0, 0.0))
  {
    ForwardFromRest(m, n);
    ForwardDistanceClosed(n);
  }

  /** The first-match cap corrects one component per frame, so thrusting on a
      heading with a positive cosine keeps pushing vx over its cap and the cap
      never reaches vy: started with vx at its cap and vy above it, vx stays
      at the cap, vy never decreases, and the velocity is never within the
      caps again. */
  lemma {:induction false} DiagonalThrustKeepsVyOverCap(e: EntityState, dt: real, m: Libm, n: nat)
    requires 0.0 < dt && 0.0 < m.cos(e.pos.z) && 0.0 <= m.sin(e.pos.z)
    requires e.vel.x == XVelCap && e.vel.y > YVelCap && e.vel.z == 0.0
    ensures var s := PlayerFrames(e, CtrlForward, dt, m, n);
            && s.pos.z == e.pos.z && s.vel.x == XVelCap && s.vel.z == 0.0
            && e.vel.y <= s.vel.y && !WithinCaps(s.vel)
  {
    if n > 0 {
      DiagonalThrustKeepsVyOverCap(e, dt, m, n - 1);
      DiagonalFrame(PlayerFrames(e, CtrlForward, dt, m, n - 1), dt, m);
    }
  }

  /** One frame of that thrust. */
  lemma DiagonalFrame(e: EntityState, dt: real, m: Libm)
    requires 0.0 < dt && 0.0 < m.cos(e.pos.z) && 0.0 <= m.sin(e.pos.z)
    requires e.vel.x == XVelCap && e.vel.z == 0.0
    ensures var s := PlayerFrame(e, CtrlForward, dt, m);
            s.pos.z == e.pos.z && s.vel.x == XVelCap && s.vel.z == 0.0 && e.vel.y <= s.vel.y
  {
    var a := ControlAcc(CtrlForward, e.pos.z, m);
    assert 0.0 < a.x * dt && 0.0 <= a.y * dt by {
      PositiveProducts(ForwardAcc * m.cos(e.pos.z), ForwardAcc * m.sin(e.pos.z), dt);
    }
  }

  lemma PositiveProducts(a: real, b: real, dt: real)
    requires 0.0 < a && 0.0 <= b && 0.0 < dt
    ensures 0.0 < a * dt && 0.0 <= b * dt
  {
  }

  /** The state `main` keeps across frames. */
  class Game {
    const player: Entity
    const projectiles: ProjectileList
    var playerCtrl: Control
    var t: real
    var tFire: real

    ghost predicate Valid()
      reads this, projectiles
    {
      projectiles.Valid()
    }

    /** The state before the first frame, with the clock reading t0. */
    constructor (t0: real)
      ensures Valid() && fresh(player) && fresh(projectiles)
      ensures player.State() == Still && projectiles.projs == []
      ensures playerCtrl == CtrlNone && t == t0 && tFire == 0.0
    {
      player := new Entity();
      projectiles := new ProjectileList();
      playerCtrl := CtrlNone;
      t := t0;
      tFire := 0.0;
    }

    /** The fire timer of the loop. */
    method GateFire()
      modifies this
      ensures t == old(t)
      ensures Gated(playerCtrl, tFire) == Gate(old(playerCtrl), t, old(tFire))
    {
      if playerCtrl == CtrlFire {
        if t - tFire < FireCooldown {
          playerCtrl := CtrlNone;
        } else {
          tFire := t;
        }
      }
    }

    /** One frame at clock reading tNew. Returns whether the loop quits. */
    method Frame(tNew: real, ev: Event, keys: Keys, m: Libm) returns (quit: bool)
      requires Valid()
      modifies this, player, projectiles
      ensures Valid()
      ensures t == tNew && quit == (ev == Quit)
      ensures quit ==> && playerCtrl == old(playerCtrl) && tFire == old(tFire)
                       && player.State() == old(player.State())
                       && projectiles.projs == old(projectiles.projs)
      ensures !quit ==>
        var g := Gate(ControlAfterEvent(old(playerCtrl), ev, keys), tNew, old(tFire));
        var dt := tNew - old(t);
        var spawned := if g.ctrl == CtrlFire then [Spawned(old(player.State()), m)] else [];
        && playerCtrl == g.ctrl && tFire == g.tFire
        && player.State() == PlayerFrame(old(player.State()), g.ctrl, dt, m)
        && projectiles.projs == Culled(old(projectiles.projs) + spawned, dt, m)
    {
      var dt := tNew - t;
      t := tNew;
      if ev == Quit {
        return true;
      }
      if ev == KeyDown || ev == KeyUp {
        playerCtrl := KeyToCtrl(keys);
      }
      GateFire();
      Simulate(dt, m);
      return false;
    }

    /** The part of a frame after the fire timer: the control sets the
        player's acceleration, a FIRE that passed spawns a projectile, the
        player steps and is capped, then every projectile steps and the
        expired ones are culled. */
    method Simulate(dt: real, m: Libm)
      requires Valid()
      modifies player, projectiles
      ensures Valid()
      ensures player.State() == PlayerFrame(old(player.State()), playerCtrl, dt, m)
      ensures projectiles.projs
              == Culled(old(projectiles.projs) + if playerCtrl == CtrlFire then [Spawned(old(player.State()), m)] else [], dt, m)
    {
      HandleControls(player, playerCtrl, m);
      ghost var before := projectiles.projs;
      if playerCtrl == CtrlFire {
        projectiles.Spawn(player, m);
      }
      assert projectiles.projs == before + if playerCtrl == CtrlFire then [Spawned(old(player.State()), m)] else [];
      player.Act(dt);
      CapVel(player);
      projectiles.ActAll(dt, m);
    }
  }
}
