/** The projectile lifecycle: spawn_projectile, projectile::act and the
    cull loop of the frame, over the projectile list and the parallel list
    of projectile renderables. */
module Projectiles {
  import opened Vectors
  import opened Entities

  /** A projectile is removed once it has travelled farther than this. */
  const Range: real := 400.0
  /** The muzzle speed added along the shooter's heading: the literal 100.0 of
      spawn_projectile (the macro FIRE_VEL has the same value but is not used). */
  const MuzzleSpeed: real := 100.0

  /** struct projectile: an entity and the planar distance it has travelled. */
  datatype Projectile = Projectile(e: EntityState, d: real)
  {
    /** projectile::act: the distance grows by the length of the planar part
        of the velocity held before the step, times dt; then the entity steps. */
    function Act(dt: real, m: Libm): (r: Projectile)
      ensures r.e == e.Act(dt)
      ensures d <= r.d
      ensures r.d - d == e.vel.(z := 0.0).Scale(dt).Mag(m)
    {
      Projectile(e.Act(dt), d + e.vel.(z := 0.0).Scale(dt).Mag(m))
    }

    predicate Expired()
    {
      d > Range
    }
  }

  /** The shape a renderable is drawn with. */
  datatype Shape = PlayerShape | ProjectileShape

  /** struct renderable, with the entity it draws named by its index in the
      projectile list instead of by address. */
  datatype Renderable = Renderable(target: nat, shape: Shape)

  /** The projectile spawn_projectile makes from the state of `src`. */
  function Spawned(src: EntityState, m: Libm): (p: Projectile)
    ensures p.d == 0.0
    ensures p.e.pos == src.pos && p.e.acc == Zero
    ensures p.e.vel == Vector3d(src.vel.x + MuzzleSpeed * m.cos(src.pos.z),
                                src.vel.y + MuzzleSpeed * m.sin(src.pos.z), 0.0)
  {
    var add := Zero.(x := MuzzleSpeed * m.cos(src.pos.z), y := MuzzleSpeed * m.sin(src.pos.z));
    Projectile(src.(vel := src.vel.(z := 0.0), acc := Zero).(vel := src.vel.(z := 0.0).Add(add)), 0.0)
  }

  /** From a resting shooter with heading 0 a projectile leaves at
      (MuzzleSpeed, 0, 0), that is (100, 0, 0). */
  lemma SpawnedAtRest(src: EntityState, m: Libm)
    requires src.vel == Zero && src.pos.z == 0.0
    requires m.cos(0.0) == 1.0 && m.sin(0.0) == 0.0
    ensures Spawned(src, m).e.vel == Vector3d(MuzzleSpeed, 0.0, 0.0)
  {
  }

  /** n consecutive projectile steps of the same length. */
  function Flights(p: Projectile, dt: real, m: Libm, n: nat): Projectile
  {
    if n == 0 then p else Flights(p, dt, m, n - 1).Act(dt, m)
  }

  /** A projectile does not accelerate, so over n frames its velocity,
      heading and acceleration stay. */
  lemma {:induction false} FlightKeepsVelocity(p: Projectile, dt: real, m: Libm, n: nat)
    requires p.e.acc == Zero && p.e.vel.z == 0.0
    ensures Flights(p, dt, m, n).e.acc == Zero
    ensures Flights(p, dt, m, n).e.vel == p.e.vel
    ensures Flights(p, dt, m, n).e.pos.z == p.e.pos.z
  {
    if n > 0 {
      FlightKeepsVelocity(p, dt, m, n - 1);
      CoastStep(Flights(p, dt, m, n - 1).e, dt);
    }
  }

  /** One step without acceleration or turning keeps velocity and heading. */
  lemma CoastStep(e: EntityState, dt: real)
    requires e.acc == Zero && e.vel.z == 0.0
    ensures e.Act(dt).acc == Zero && e.Act(dt).vel == e.vel && e.Act(dt).pos.z == e.pos.z
  {
  }

  /** A step of a projectile moving with planar velocity v adds |v·dt| to its distance. */
  lemma DistanceStep(q: Projectile, v: Vector3d, dt: real, m: Libm)
    requires q.e.vel == v && v.z == 0.0
    ensures q.Act(dt, m).d == q.d + v.Scale(dt).Mag(m)
  {
    assert q.e.vel.(z := 0.0) == v;
  }

  /** The distance d after n frames of dt. */
  function Travelled(p: Projectile, dt: real, m: Libm, n: nat): real
  {
    Flights(p, dt, m, n).d
  }

  /** Every frame of such a flight adds the same distance. */
  lemma FlightIncrements(p: Projectile, dt: real, m: Libm)
    requires p.e.acc == Zero && p.e.vel.z == 0.0
    ensures forall k: nat, l: nat :: l == k + 1 ==>
              Travelled(p, dt, m, l) == Travelled(p, dt, m, k) + p.e.vel.Scale(dt).Mag(m)
  {
    forall k: nat, l: nat | l == k + 1
      ensures Travelled(p, dt, m, l) == Travelled(p, dt, m, k) + p.e.vel.Scale(dt).Mag(m)
    {
      FlightKeepsVelocity(p, dt, m, k);
      DistanceStep(Flights(p, dt, m, k), p.e.vel, dt, m);
    }
  }

  /** Hence over n frames of dt its distance grows by n times the distance
      of one frame. */
  lemma FlightDistance(p: Projectile, dt: real, m: Libm, n: nat)
    requires p.e.acc == Zero && p.e.vel.z == 0.0
    ensures Flights(p, dt, m, n).d == p.d + n as real * p.e.vel.Scale(dt).Mag(m)
  {
    LinearTravel(p, dt, m);
    assert Travelled(p, dt, m, n) == Flights(p, dt, m, n).d;
  }

  /** The same for every number of frames at once. */
  lemma LinearTravel(p: Projectile, dt: real, m: Libm)
    requires p.e.acc == Zero && p.e.vel.z == 0.0
    ensures forall n: nat :: Travelled(p, dt, m, n) == p.d + n as real * p.e.vel.Scale(dt).Mag(m)
  {
    FlightIncrements(p, dt, m);
    forall n: nat
      ensures Travelled(p, dt, m, n) == p.d + n as real * p.e.vel.Scale(dt).Mag(m)
    {
      LinearGrowth((k: nat) => Travelled(p, dt, m, k), p.e.vel.Scale(dt).Mag(m), n);
    }
  }

  /** A quantity that grows by the same step every time has grown by n steps
      after n times. */
  lemma {:induction false} LinearGrowth(f: nat -> real, step: real, n: nat)
    requires forall k: nat, l: nat :: l == k + 1 ==> f(l) == f(k) + step
    ensures f(n) == f(0) + n as real * step
  {
    if n > 0 {
      LinearGrowth(f, step, n - 1);
      assert f(n) == f(n - 1) + step;
    }
  }

  /** Every projectile spawned is of that kind. */
  lemma SpawnedCoasts(src: EntityState, m: Libm)
    ensures Spawned(src, m).e.acc == Zero && Spawned(src, m).e.vel.z == 0.0
  {
  }

  /** The projectile list after the cull loop: every projectile steps once,
      and those that then lie beyond the range are dropped, the others kept
      in their order. */
  function Culled(ps: seq<Projectile>, dt: real, m: Libm): (r: seq<Projectile>)
    ensures |r| <= |ps|
    ensures forall q :: q in r ==> !q.Expired()
  {
    if ps == [] then []
    else
      var p := ps[|ps| - 1].Act(dt, m);
      Culled(ps[..|ps| - 1], dt, m) + (if p.Expired() then [] else [p])
  }

  /** A projectile survives the cull exactly when it is one of the old ones
      after its step and is then within range. */
  lemma {:induction false} CulledMembers(ps: seq<Projectile>, dt: real, m: Libm, q: Projectile)
    ensures q in Culled(ps, dt, m) <==> !q.Expired() && exists i :: 0 <= i < |ps| && q == ps[i].Act(dt, m)
  {
    if ps != [] {
      var init := ps[..|ps| - 1];
      CulledMembers(init, dt, m, q);
      if q in Culled(ps, dt, m) && q !in Culled(init, dt, m) {
        assert q == ps[|ps| - 1].Act(dt, m);
      }
      if !q.Expired() && exists i :: 0 <= i < |ps| && q == ps[i].Act(dt, m) {
        var i :| 0 <= i < |ps| && q == ps[i].Act(dt, m);
        if i < |ps| - 1 {
          assert q == init[i].Act(dt, m);
        }
      }
    }
  }

  /** The cull works piece by piece: culling a concatenation is culling each
      part, so the survivors keep their relative order. */
  lemma {:induction false} CulledAppend(a: seq<Projectile>, b: seq<Projectile>, dt: real, m: Libm)
    ensures Culled(a + b, dt, m) == Culled(a, dt, m) + Culled(b, dt, m)
  {
    if b != [] {
      var b' := b[..|b| - 1];
      assert (a + b)[..|a + b| - 1] == a + b';
      CulledAppend(a, b', dt, m);
    } else {
      assert a + b == a;
    }
  }

  /** When no projectile is out of range after its step, all are kept, stepped. */
  lemma {:induction false} CulledNoneExpired(ps: seq<Projectile>, dt: real, m: Libm)
    requires forall i :: 0 <= i < |ps| ==> !ps[i].Act(dt, m).Expired()
    ensures |Culled(ps, dt, m)| == |ps|
    ensures forall i :: 0 <= i < |ps| ==> Culled(ps, dt, m)[i] == ps[i].Act(dt, m)
  {
    if ps != [] {
      CulledNoneExpired(ps[..|ps| - 1], dt, m);
    }
  }

  /** The projectile render list pairs with the projectile list: entry k
      draws projectile k. */
  ghost predicate Paired(ps: seq<Projectile>, rs: seq<Renderable>)
  {
    |rs| == |ps| && forall k :: 0 <= k < |rs| ==> rs[k] == Renderable(k, ProjectileShape)
  }

  /** Where a renderable points after slot `erased` of the projectile list is
      erased: entries for later slots move down by one. */
  function Repointed(r: Renderable, erased: nat): (r': Renderable)
    ensures r'.shape == r.shape
    ensures r.target < erased ==> r' == r
    ensures r.target > erased ==> r'.target + 1 == r.target
  {
    if r.target > erased then r.(target := r.target - 1) else r
  }

  /** Erases render entry i together with projectile i and re-points the
      rest: the entries before i stay where they are, those after i move
      down one place, and each target above i drops by one. */
  function EraseRenderable(rs: seq<Renderable>, i: nat): (rs': seq<Renderable>)
    requires i < |rs|
    ensures |rs'| == |rs| - 1
    ensures forall j :: 0 <= j < i ==> rs'[j] == Repointed(rs[j], i)
    ensures forall j :: i <= j < |rs'| ==> rs'[j] == Repointed(rs[j + 1], i)
  {
    seq(|rs| - 1, j requires 0 <= j < |rs| - 1 => Repointed(rs[if j < i then j else j + 1], i))
  }

  /** Erasing a projectile and its render entry together keeps them paired. */
  lemma ErasePreservesPaired(ps: seq<Projectile>, rs: seq<Renderable>, i: nat)
    requires Paired(ps, rs) && i < |ps|
    ensures Paired(ps[..i] + ps[i + 1..], EraseRenderable(rs, i))
  {
    var rs' := EraseRenderable(rs, i);
    forall j | 0 <= j < |rs'|
      ensures rs'[j] == Renderable(j, ProjectileShape)
    {
      if j < i {
        assert rs'[j] == Repointed(rs[j], i);
        assert rs[j] == Renderable(j, ProjectileShape);
      } else {
        assert rs'[j] == Repointed(rs[j + 1], i);
        assert rs[j + 1] == Renderable(j + 1, ProjectileShape);
      }
    }
  }

  /** One turn of the cull loop: with the first i entries culled from the
      first k old projectiles and the rest untouched, stepping entry i and
      erasing it if expired extends that by one old projectile. */
  lemma CullTurn(ps: seq<Projectile>, orig: seq<Projectile>, i: nat, k: nat, dt: real, m: Libm)
    requires i < |ps| && k < |orig|
    requires ps[..i] == Culled(orig[..k], dt, m) && ps[i..] == orig[k..]
    ensures var ps' := ps[i := ps[i].Act(dt, m)];
            if ps'[i].Expired()
            then (ps'[..i] + ps'[i + 1..])[..i] == Culled(orig[..k + 1], dt, m)
                 && (ps'[..i] + ps'[i + 1..])[i..] == orig[k + 1..]
            else ps'[..i + 1] == Culled(orig[..k + 1], dt, m) && ps'[i + 1..] == orig[k + 1..]
  {
    assert ps[i] == orig[k];
    assert orig[..k + 1][..k] == orig[..k];
    var ps' := ps[i := ps[i].Act(dt, m)];
    assert ps'[..i] == ps[..i];
    assert ps'[i + 1..] == orig[k + 1..];
    if !ps'[i].Expired() {
      assert ps'[..i + 1] == ps[..i] + [ps'[i]];
    }
  }

  /** The projectile list and the projectile render list of the frame loop. */
  class ProjectileList {
    var projs: seq<Projectile>
    var renders: seq<Renderable>

    ghost predicate Valid()
      reads this
    {
      Paired(projs, renders)
    }

    constructor ()
      ensures Valid() && projs == [] && renders == []
    {
      projs, renders := [], [];
    }

    /** spawn_projectile: one projectile made from `src` and one renderable
        for it are appended; nothing before them changes. */
    method Spawn(src: Entity, m: Libm)
      requires Valid()
      modifies this
      ensures Valid()
      ensures projs == old(projs) + [Spawned(src.State(), m)]
      ensures renders == old(renders) + [Renderable(|old(projs)|, ProjectileShape)]
    {
      var add := Zero.(x := MuzzleSpeed * m.cos(src.pos.z), y := MuzzleSpeed * m.sin(src.pos.z));
      var e := src.State();
      e := e.(vel := e.vel.(z := 0.0));
      e := e.(acc := Zero);
      e := e.(vel := e.vel.Add(add));
      projs := projs + [Projectile(e, 0.0)];
      renders := renders + [Renderable(|projs| - 1, ProjectileShape)];
    }

    /** The cull loop of the frame: each projectile steps once, in place; one
        beyond the range is erased together with its render entry. */
    method ActAll(dt: real, m: Libm)
      requires Valid()
      modifies this
      ensures Valid()
      ensures projs == Culled(old(projs), dt, m)
    {
      ghost var orig := projs;
      ghost var k := 0;
      var i := 0;
      while i < |projs|
        invariant Paired(projs, renders)
        invariant 0 <= i <= |projs| && 0 <= k <= |orig|
        invariant projs[..i] == Culled(orig[..k], dt, m)
        invariant projs[i..] == orig[k..]
        decreases |projs| - i
      {
        CullTurn(projs, orig, i, k, dt, m);
        projs := projs[i := projs[i].Act(dt, m)];
        if projs[i].Expired() {
          ErasePreservesPaired(projs, renders, i);
          projs := projs[..i] + projs[i + 1..];
          renders := EraseRenderable(renders, i);
        } else {
          i := i + 1;
        }
        k := k + 1;
      }
      assert orig[..k] == orig;
    }
  }

  /** The positions in the old list of the projectiles the cull keeps, in
      increasing order. */
  function Kept(ps: seq<Projectile>, dt: real, m: Libm): (ks: seq<nat>)
    ensures forall j :: 0 <= j < |ks| ==> ks[j] < |ps|
    ensures forall j, l :: 0 <= j < l < |ks| ==> ks[j] < ks[l]
  {
    if ps == [] then []
    else
      var n := |ps| - 1;
      Kept(ps[..n], dt, m) + (if ps[n].Act(dt, m).Expired() then [] else [n])
  }

  /** The cull keeps, in order, the projectiles at the Kept positions after their step. */
  lemma {:induction false} KeptCulled(ps: seq<Projectile>, dt: real, m: Libm)
    ensures |Kept(ps, dt, m)| == |Culled(ps, dt, m)|
    ensures forall j :: 0 <= j < |Kept(ps, dt, m)| ==> Culled(ps, dt, m)[j] == ps[Kept(ps, dt, m)[j]].Act(dt, m)
  {
    if ps != [] {
      var n := |ps| - 1;
      KeptCulled(ps[..n], dt, m);
      var ks, cs := Kept(ps[..n], dt, m), Culled(ps[..n], dt, m);
      forall j | 0 <= j < |ks|
        ensures Culled(ps, dt, m)[j] == ps[Kept(ps, dt, m)[j]].Act(dt, m)
      {
        assert Culled(ps, dt, m)[j] == cs[j] && Kept(ps, dt, m)[j] == ks[j];
        assert ps[..n][ks[j]] == ps[ks[j]];
      }
    }
  }

  /** The cull loop as main.cpp writes it, on values: the render entry is
      erased in lockstep, and the entries kept are the old ones unchanged,
      each still holding the slot it was given at spawn time. */
  function LockstepCull(ps: seq<Projectile>, rs: seq<Renderable>, dt: real, m: Libm): (r: (seq<Projectile>, seq<Renderable>))
    requires |rs| == |ps|
    ensures r.0 == Culled(ps, dt, m)
    ensures |r.1| == |Kept(ps, dt, m)|
    ensures forall j :: 0 <= j < |r.1| ==> r.1[j] == rs[Kept(ps, dt, m)[j]]
    decreases |ps|
  {
    if ps == [] then ([], [])
    else
      var n := |ps| - 1;
      var p := ps[n].Act(dt, m);
      var (qs, ts) := LockstepCull(ps[..n], rs[..n], dt, m);
      if p.Expired() then (qs, ts) else (qs + [p], ts + [rs[n]])
  }

  /** Hence, as written, the render list stays paired exactly when every
      survivor keeps its slot, i.e. nothing before a survivor is culled. */
  lemma LockstepCullPairedIff(ps: seq<Projectile>, rs: seq<Renderable>, dt: real, m: Libm)
    requires Paired(ps, rs)
    ensures var r := LockstepCull(ps, rs, dt, m);
            Paired(r.0, r.1) <==> forall j :: 0 <= j < |Kept(ps, dt, m)| ==> Kept(ps, dt, m)[j] == j
  {
    KeptCulled(ps, dt, m);
    var r := LockstepCull(ps, rs, dt, m);
    var ks := Kept(ps, dt, m);
    assert forall j :: 0 <= j < |r.1| ==> r.1[j] == Renderable(ks[j], ProjectileShape);
  }

  /** As written, culling the first of two projectiles leaves the remaining
      render entry pointing at slot 1 of a one-element list. */
  lemma LockstepCullLeavesStaleTarget(m: Libm)
    requires m.sqrt(0.0) == 0.0
    ensures var ps := [Projectile(Still, 401.0), Projectile(Still, 0.0)];
            var rs := [Renderable(0, ProjectileShape), Renderable(1, ProjectileShape)];
            var r := LockstepCull(ps, rs, 1.0, m);
            Paired(ps, rs) && |r.0| == 1 && r.1 == [Renderable(1, ProjectileShape)] && !Paired(r.0, r.1)
  {
  }
}
