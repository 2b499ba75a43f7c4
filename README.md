# triangle-shooter: a Dafny model of the simulation step

This project models the simulation core of triangle-shooter, a small SDL game in one C++ file
(`main.cpp`). The player steers a triangle ship and fires projectiles. The model covers:

- the 3-vector type `vector3d`, where z is the heading;
- the entity integration step `entity::act`;
- the key-to-control mapping `key2ctrl`;
- the control-to-acceleration mapping `handle_controls`;
- the first-match velocity cap `cap_vel`;
- the projectile lifecycle: `spawn_projectile`, `projectile::act`, and the cull loop of the frame;
- the fire-rate timer of the frame loop;
- the world-to-screen transform `cart2sdl`.

Doubles are modelled as reals. `cos`, `sin` and `sqrt` are uninterpreted functions gathered in the
datatype `Vectors.Libm`. The only thing known about `sqrt` is that its result is never negative,
which its type `real -> NonNegReal` carries.

Layout, one module per component:

- `vectors.dfy` (`Vectors`): `Vector3d` and its operators.
- `entities.dfy` (`Entities`): the entity value `EntityState` and the class `Entity`. The class is
  the player, whose fields the game updates in place.
- `controls.dfy` (`Controls`): `Control`, `key2ctrl`, `handle_controls` and `cap_vel`. The spec
  functions `Controlled` and `Capped` describe the effect; the methods `HandleControls` and
  `CapVel` mutate an `Entity` and are proved against them.
- `viewport.dfy` (`Viewports`): the viewport and `cart2sdl`.
- `projectiles.dfy` (`Projectiles`): projectiles, renderables and the class `ProjectileList`. The
  class holds the projectile vector and the projectile render vector as `seq` fields. Its methods
  `Spawn` and `ActAll` (the cull loop) update those fields in place.
- `frame.dfy` (`FrameLoop`): the state `main` keeps across frames (class `Game`) and one loop
  iteration (`Game.Frame`). The loop takes the clock reading, the pending event and the key state
  as inputs.

A `renderable` in the C++ code holds a raw `const entity*`. Here it holds `target`, the index of
its projectile in the projectile list. The intended invariant is `Projectiles.Paired`: render
entry k draws projectile k.

Behaviours of the code that are easy to misread:

- **Fire suppression.** A FIRE that comes too soon is written back into the held control as NONE
  (main.cpp:357). It stays NONE until the next key event, not for one frame only.
  `FrameLoop.SuppressionPersists` states this.
- **Muzzle speed.** `spawn_projectile` uses the literal `100.0`, not the macro `FIRE_VEL`. Both
  have the same value, which the model names `MuzzleSpeed`.
- **Semi-implicit step.** `entity::act` moves the position with the velocity from before the step
  (main.cpp:90-91). Holding FORWARD from rest at heading 0 for 2 s in frames of 0.02 s ends at
  x = 198 with vx = 200, not at the x = 200 that integrating the continuous motion would give.
  `FrameLoop.ForwardTwoSeconds` states this.
- **First-match cap.** `cap_vel` corrects only the first out-of-cap component per call
  (main.cpp:298-303). Thrusting on a heading between 0 and 90 degrees with vx already at its cap
  keeps pushing vx over the cap, so the cap never reaches vy, which can stay above 400 for good.
  `FrameLoop.DiagonalThrustKeepsVyOverCap` states this.

## Model

| member | source | states |
|---|---|---|
| `Vectors.Vector3d.Add` | main.cpp:22-29 | componentwise sum: subtracting v from the result gives each original component back |
| `Vectors.Vector3d.Sub` | main.cpp:31-38 | componentwise difference: adding v to the result gives each original component back |
| `Vectors.Vector3d.Scale` | main.cpp:40-48 | scaling by 1 keeps every component; scaling by 0 gives the zero vector |
| `Vectors.Vector3d.Dot` | main.cpp:59-63 | the dot product of a vector with itself is never negative |
| `Vectors.Vector3d.Div` | main.cpp:50-57 | division by a non-zero scalar is undone by scaling back; a zero divisor gives no vector |
| `Vectors.Vector3d.Mag` | main.cpp:65-69 | the magnitude is never negative |
| `Vectors.Vector3d.Rotate` | main.cpp:71-79 | rotation keeps the z component (heading); `RotateAxes` and `RotateQuarterTurn` state that it turns counter-clockwise |
| `Vectors.RotateAxes` | main.cpp:71-79 | the rotation is counter-clockwise: the x axis turns onto (cos θ, sin θ) and the y axis onto (−sin θ, cos θ), z kept |
| `Vectors.RotateQuarterTurn` | main.cpp:71-79 | a quarter turn (cos = 0, sin = 1) takes +x to +y and +y to −x |
| `Vectors.MagIsSqrtDot` | main.cpp:59-69 | the magnitude is sqrt of the vector's dot product with itself, and that product sums x², y² and z², heading included |
| `Vectors.AddSubInverse` | main.cpp:22-38 | subtracting b undoes adding b |
| `Vectors.ScaleSum` | main.cpp:40-48 | scaling by s and by t and adding equals scaling by s + t |
| `Vectors.AddScaledTwice` | main.cpp:40-48 | moving a point along v by s and then by t lands where one move by s + t does |
| `Vectors.RotateInverse` | main.cpp:71-79 | where cos and sin form a Pythagorean pair and are even and odd, rotating by theta then by -theta gives the vector back |
| `Vectors.RotatePreservesMag` | main.cpp:59-79 | with cos² + sin² = 1, rotation keeps the dot product of a vector with itself, and so its magnitude |
| `Entities.EntityState.Act` | main.cpp:88-92 | the position moves by the old velocity times dt and the velocity by the acceleration times dt; the acceleration stays; dt = 0 changes nothing |
| `Entities.Entity.constructor` | main.cpp:17-20 | a default entity has position, velocity and acceleration all zero |
| `Entities.Entity.Act` | main.cpp:88-92 | the in-place step: pos' = pos + vel·dt uses the velocity from before the step, then vel' = vel + acc·dt; acc is unchanged |
| `Entities.CoastSteps` | main.cpp:88-92 | with zero acceleration, n steps of dt keep the velocity and move the position by vel·(n·dt) |
| `Entities.ActFromOrigin` | main.cpp:88-92 | from the origin with velocity (10,0,0), one step of 1 s ends at (10,0,0) |
| `Controls.KeyToCtrl` | main.cpp:232-242 | each control results exactly when its key is the first held one in the order W, S, A, D, SPACE; NONE exactly when none is held |
| `Controls.ControlAcc` | main.cpp:266-291 | NONE and FIRE give zero acceleration; TURN_L/TURN_R give only z = +10/-10; FORWARD/BACKWARD give ±100·(cos, sin) of the heading with z = 0 |
| `Controls.Controlled` | main.cpp:269-291 | handle_controls replaces only the acceleration, with the one for the control and heading; position and velocity are untouched |
| `Controls.ThrustAlongHeading` | main.cpp:274-281 | forward thrust is (100, 0, 0) turned to the heading by `rotate`, and backward thrust is (−100, 0, 0) turned the same way |
| `Controls.ControlForgetsAcc` | main.cpp:271 | the acceleration held before has no effect, because it is zeroed first |
| `Controls.OppositeControls` | main.cpp:274-287 | forward and backward thrust cancel, and so do the two turns |
| `Controls.HandleControls` | main.cpp:269-291 | the in-place version leaves pos and vel unchanged and yields the `Controlled` entity |
| `Controls.Capped` | main.cpp:293-304 | only the first exceeded bound in the order x>400, x<-400, y>400, y<-400, z>5, z<-5 is set to exactly its cap; pos, acc and the other components stay; an entity within the caps is unchanged |
| `Controls.CappedReducesExcess` | main.cpp:296-304 | each call brings exactly one out-of-cap component back and pushes none out |
| `Controls.CappedThriceWithinCaps` | main.cpp:296-304 | three calls always leave every component within its cap |
| `Controls.CappedOnceLeavesY` | main.cpp:298-301 | with vx = vy = 1000, one call sets vx to 400 and leaves vy at 1000 |
| `Controls.CapVel` | main.cpp:296-304 | the in-place version leaves pos and acc unchanged and yields the `Capped` entity |
| `Viewports.TruncToInt` | main.cpp:124-125 | the (int) conversion truncates toward zero: for v ≥ 0, n ≤ v < n+1; for v < 0, n-1 < v ≤ n |
| `Viewports.TruncMonotone` | main.cpp:124-125 | truncation is monotone |
| `Viewports.Cart2Sdl` | main.cpp:120-126 | each pixel coordinate lies within one pixel of the exact offset from the camera, x to the right of w/2 and y upward from h/2; the camera's own position maps to the centre pixel (w/2, h/2) |
| `Viewports.Cart2SdlExamples` | main.cpp:120-126 | camera at the origin, 800×600: (0,0) maps to (400,300) and (0,100) maps to (400,200) |
| `Viewports.Cart2SdlOrientation` | main.cpp:120-126 | screen x does not decrease as world x grows; screen y does not increase as world y grows |
| `Viewports.Cart2SdlTranslation` | main.cpp:123 | moving the camera and the point by the same offset leaves the pixel unchanged |
| `Viewports.Cart2SdlOnScreen` | main.cpp:120-126 | a point within half a screen of the camera maps inside [0,w)×[0,h) |
| `Projectiles.Projectile.Act` | main.cpp:185-192 | the entity steps as in entity::act; d grows by the magnitude of (vx, vy, 0)·dt of the old velocity, so d never decreases |
| `Projectiles.Spawned` | main.cpp:250-264 | the new projectile has d = 0, the source position, zero acceleration, vel.z = 0, and vel.xy = source vel.xy + 100·(cos, sin)(heading) |
| `Projectiles.SpawnedAtRest` | main.cpp:253-261 | from a resting source with heading 0, the projectile velocity is (100, 0, 0) |
| `Projectiles.SpawnedCoasts` | main.cpp:259-260 | a spawned projectile has no acceleration and no turning rate |
| `Projectiles.CoastStep` | main.cpp:88-92 | one step with no acceleration and no turning rate keeps velocity, heading and (zero) acceleration |
| `Projectiles.FlightKeepsVelocity` | main.cpp:185-192 | for such a projectile, n steps of dt keep its velocity, heading and zero acceleration |
| `Projectiles.DistanceStep` | main.cpp:185-192 | one step of a projectile with planar velocity v adds the length of v·dt to d |
| `Projectiles.FlightIncrements` | main.cpp:185-192 | for such a projectile, every further step of dt adds the same distance, the length of v·dt, to d |
| `Projectiles.LinearTravel` | main.cpp:185-192 | for such a projectile, for every n, d after n steps is the starting d plus n times one step's distance |
| `Projectiles.FlightDistance` | main.cpp:185-192 | for such a projectile, n steps of dt add exactly n times one step's distance to d |
| `Projectiles.Culled` | main.cpp:373-385 | the cull never lengthens the list, and no survivor has d > 400 |
| `Projectiles.CulledMembers` | main.cpp:373-385 | q survives exactly when q is some old projectile after its step and q.d ≤ 400 |
| `Projectiles.CulledAppend` | main.cpp:373-385 | culling a concatenation is culling each part, so survivors keep their relative order |
| `Projectiles.CulledNoneExpired` | main.cpp:373-385 | when nothing exceeds the range, every projectile is kept, stepped once, in its place |
| `Projectiles.Repointed` | main.cpp:379 | after slot `erased` is erased, a render entry pointing below it stays and one pointing above it moves down by one; this re-pointing is the correction named under "## Findings", because main.cpp:379 as written does not re-point |
| `Projectiles.EraseRenderable` | main.cpp:379 | the corrected lockstep erase (see "## Findings"; line 379 as written does not re-point): the list shrinks by one, the entries before i keep their place, those after i move down one place, and every entry is `Repointed`, so targets above i drop by one |
| `Projectiles.ErasePreservesPaired` | main.cpp:378-379 | erasing a projectile and its render entry at the same index, with re-pointing, keeps the lists paired |
| `Projectiles.CullTurn` | main.cpp:375-384 | one turn of the loop extends the processed prefix by one old projectile, whether it is erased or kept |
| `Projectiles.ProjectileList.constructor` | main.cpp:321-324 | both lists start empty and paired |
| `Projectiles.ProjectileList.Spawn` | main.cpp:251-264 | exactly one projectile and one renderable for it are appended; earlier entries are unchanged and the lists stay paired |
| `Projectiles.ProjectileList.ActAll` | main.cpp:373-385 | the in-place loop acts on each projectile once and leaves exactly `Culled` of the old list; render entries are erased in lockstep and the lists stay paired |
| `Projectiles.Kept` | main.cpp:375-384 | the positions the cull keeps are indices of the old list, in strictly increasing order |
| `Projectiles.KeptCulled` | main.cpp:375-384 | the cull keeps exactly the projectiles at the `Kept` positions, in order, each after its step |
| `Projectiles.LockstepCull` | main.cpp:373-385 | the loop as written: the projectiles left are `Culled`, and the render list left is the subsequence of the old render list at the `Kept` positions, each entry unchanged |
| `Projectiles.LockstepCullPairedIff` | main.cpp:375-384 | as written, the two lists stay paired exactly when every survivor keeps its old index, i.e. nothing before a survivor was culled |
| `Projectiles.LockstepCullLeavesStaleTarget` | main.cpp:375-384 | as written, culling the first of two projectiles leaves the remaining render entry naming slot 1 of a one-element list |
| `FrameLoop.ControlAfterEvent` | main.cpp:343-352 | a key-down or key-up event re-reads the keys with key2ctrl; any other event, or none, keeps the held control |
| `FrameLoop.Gate` | main.cpp:355-361 | FIRE passes exactly when t − t_fire ≥ 1, and then t_fire := t; otherwise it becomes NONE with t_fire unchanged; other controls pass with t_fire unchanged |
| `FrameLoop.FireRateBounded` | main.cpp:355-361 | over any sequence of frames, shots are at least 1 s apart and the first is at least 1 s after the previous shot time, whatever the clock reports |
| `FrameLoop.SuppressionPersists` | main.cpp:343-361 | after a suppression has written NONE, no frame fires until a key event |
| `FrameLoop.FireExamples` | main.cpp:355-361 | pressing FIRE at 1.0 s and 1.5 s yields one shot; at 1.0 s and 2.5 s, two |
| `FrameLoop.PlayerFrame` | main.cpp:364-371 | one player frame (handle_controls, act, cap_vel): the acceleration is the control's for the heading, the position moves by the velocity from before the step times dt, and the velocity is vel + acc·dt whenever that is within the caps |
| `FrameLoop.ForwardAtHeadingZero` | main.cpp:274-277 | with cos 0 = 1 and sin 0 = 0, FORWARD at heading 0 gives the thrust (100, 0, 0) |
| `FrameLoop.ForwardStep` | main.cpp:88-92 | a step of 0.02 s under the thrust (100, 0, 0) along x moves x by vx·0.02 and adds 2 to vx |
| `FrameLoop.ForwardUncapped` | main.cpp:296-304 | with vx + 2 within ±400 and no other motion, the cap leaves the state unchanged |
| `FrameLoop.ForwardFrame` | main.cpp:364-371 | below the cap, one FORWARD frame of 0.02 s at heading 0 moves x by vx·0.02, adds 2 to vx and sets the acceleration to (100, 0, 0) |
| `FrameLoop.ForwardDistanceClosed` | main.cpp:90 | the x distance after n such frames from rest, summed frame by frame, is 0.02·n·(n − 1) |
| `FrameLoop.ForwardFromRest` | main.cpp:364-371 | holding FORWARD from rest at heading 0 in frames of 0.02 s, for n ≤ 200: the velocity is (2n, 0, 0) and within the caps, the heading stays 0, x is the frame-by-frame sum and the acceleration is (100, 0, 0) |
| `FrameLoop.ForwardFromRestClosed` | main.cpp:364-371 | the same run for 0 < n ≤ 200 with the state in closed form: position (0.02·n·(n − 1), 0, 0), velocity (2n, 0, 0) |
| `FrameLoop.ForwardTwoSeconds` | main.cpp:364-371 | 100 frames (2 s) end at x = 198 with vx = 200, below the cap of 400 |
| `FrameLoop.DiagonalFrame` | main.cpp:296-304 | one FORWARD frame on a heading with cos > 0 and sin ≥ 0, with vx at its cap: vx stays at the cap, the z velocity stays 0, the heading is kept and vy does not decrease |
| `FrameLoop.DiagonalThrustKeepsVyOverCap` | main.cpp:296-304 | holding that thrust from vx at its cap and vy above its cap: after any number of frames vx is still 400, vy has not decreased and the velocity is never within the caps |
| `FrameLoop.Game.constructor` | main.cpp:318-332 | the initial state: a resting player, no projectiles, control NONE, t_fire = 0 |
| `FrameLoop.Game.GateFire` | main.cpp:355-361 | the in-place fire timer updates player_ctrl and t_fire as `Gate` says |
| `FrameLoop.Game.Frame` | main.cpp:337-386 | one iteration: t advances; a quit event changes nothing else; otherwise control, t_fire, player and projectiles follow event → gate → controls → spawn → step → cap → cull; the render list stays paired only because the cull uses the corrected, re-pointing erase named under "## Findings" (main.cpp:379 as written does not re-point) |
| `FrameLoop.Game.Simulate` | main.cpp:363-385 | the player is controlled, stepped and capped; the projectile list gains the spawned projectile on FIRE and is then culled; the render list stays paired only because the cull uses the corrected, re-pointing erase named under "## Findings" (main.cpp:379 as written does not re-point) |

## Findings

| source | as written | input that shows it | evidently intended | confidence | as-written member | corrected member |
|---|---|---|---|---|---|---|
| main.cpp:263 | Each renderable keeps the address of its projectile's slot. The erase at line 378 shifts later projectiles down a slot, and the lockstep erase at line 379 does not re-point their renderables. | Two live projectiles, the first of which expires. The remaining render entry names slot 1, but the list has one element. | Each render entry keeps designating its own projectile. | high; not executed | `Projectiles.LockstepCullLeavesStaleTarget` | `Projectiles.ProjectileList.ActAll` |

## Left out

- Window and renderer setup and teardown are not modelled (main.cpp:1-9, 306-316, 394-399). Neither
  are `SDL_PollEvent`, `SDL_GetKeyboardState`, `get_time` and `SDL_Delay`. These are platform I/O.
  The event, the five key states and the clock reading are parameters of `FrameLoop.Game.Frame`
  instead.
- Drawing is not modelled: `render`, `render_clear`, `render_background`, `render_player`,
  `render_projectile`, `render_flip`, and the initial render (main.cpp:128-173, 212-230, 327).
  These are foreign calls with no result to state. This also leaves out the drawing-only slip at
  main.cpp:165, where the points are written into `t` and `b` stays zero.
- The ship render list (main.cpp:322-326) is not modelled. It is only ever read by drawing.
- The viewport is not part of `Game`, because main only uses it for drawing. Its constructor
  (main.cpp:101-105) is the datatype constructor of `Viewports.Viewport`.
- Doubles are exact reals, so IEEE-754 rounding is not modelled.
- NaN and infinity are not modelled. Division by zero returns `None` instead of non-finite
  components.
- `cos`, `sin` and `sqrt` are uninterpreted, so facts about their values are not modelled.
  `Vectors.RotateInverse` and `Vectors.RotatePreservesMag` take the trigonometric identities
  they need as requirements.
- `Vectors.Vector3d.Mag`: states only that the magnitude is not negative, because `sqrt` is
  uninterpreted.
- `Viewports.TruncToInt`: the conversion is over unbounded integers. A C++ cast of a double
  outside the `int` range is undefined behaviour and is not modelled.
- Renderables hold an index instead of an address. This means the model does not capture pointer
  identity. It also does not capture the reallocation at `push_back` (main.cpp:262), which moves
  every projectile and leaves all earlier renderable pointers dangling. Indices are unaffected by
  reallocation.
- C++ iterator invalidation is not modelled.
