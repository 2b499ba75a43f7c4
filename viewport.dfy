/** The viewport and the world-to-screen transform (cart2sdl). */
module Viewports {
  import opened Vectors
  import opened Entities

  const WindowW: int := 800  // WINDOW_W
  const WindowH: int := 600  // WINDOW_H

  /** struct viewport: a camera entity (only its position matters) and the
      screen size in pixels. */
  datatype Viewport = Viewport(e: EntityState, w: int, h: int)

  /** A point in screen pixels. */
  datatype ScreenPoint = ScreenPoint(x: int, y: int)

  /** The C++ conversion of a double to int: truncation toward zero. */
  function TruncToInt(v: real): (n: int)
    ensures 0.0 <= v ==> 0 <= n && n as real <= v < n as real + 1.0
    ensures v < 0.0 ==> n <= 0 && n as real - 1.0 < v <= n as real
  {
    if 0.0 <= v then v.Floor else -((-v).Floor)
  }

  /** Truncation never decreases along increasing arguments. */
  lemma TruncMonotone(a: real, b: real)
    requires a <= b
    ensures TruncToInt(a) <= TruncToInt(b)
  {
  }

  /** cart2sdl: the position relative to the camera, with x measured to the
      right of the screen centre and y upward from it, truncated to pixels. */
  function Cart2Sdl(vp: Viewport, pos: Vector3d): (p: ScreenPoint)
    ensures -1.0 < p.x as real - (pos.x - vp.e.pos.x + vp.w as real / 2.0) < 1.0
    ensures -1.0 < p.y as real - (vp.h as real / 2.0 - (pos.y - vp.e.pos.y)) < 1.0
    ensures 0 <= vp.w && 0 <= vp.h && pos.x == vp.e.pos.x && pos.y == vp.e.pos.y
            ==> p == ScreenPoint(vp.w / 2, vp.h / 2)
  {
    var rel := pos.Sub(vp.e.pos);
    ScreenPoint(TruncToInt(rel.x + vp.w as real / 2.0), TruncToInt(vp.h as real / 2.0 - rel.y))
  }

  /** With the camera at the origin on an 800 by 600 screen, world (0, 0) is
      pixel (400, 300) and world (0, 100) is pixel (400, 200): y points down. */
  lemma Cart2SdlExamples()
    ensures var vp := Viewport(Still, WindowW, WindowH);
            && Cart2Sdl(vp, Vector3d(0.0, 0.0, 0.0)) == ScreenPoint(400, 300)
            && Cart2Sdl(vp, Vector3d(0.0, 100.0, 0.0)) == ScreenPoint(400, 200)
  {
    assert Vector3d(0.0, 0.0, 0.0).Sub(Zero) == Zero;
    assert Vector3d(0.0, 100.0, 0.0).Sub(Zero) == Vector3d(0.0, 100.0, 0.0);
    assert TruncToInt(400.0) == 400;
    assert TruncToInt(300.0) == 300;
    assert TruncToInt(200.0) == 200;
  }

  /** Screen x grows with world x and screen y shrinks as world y grows. */
  lemma Cart2SdlOrientation(vp: Viewport, p: Vector3d, q: Vector3d)
    ensures p.x <= q.x ==> Cart2Sdl(vp, p).x <= Cart2Sdl(vp, q).x
    ensures p.y <= q.y ==> Cart2Sdl(vp, q).y <= Cart2Sdl(vp, p).y
  {
  }

  /** Only the offset from the camera matters: moving the camera and the
      point together leaves the pixel where it was; the point's heading and
      the camera's velocity, acceleration and heading play no part. */
  lemma Cart2SdlTranslation(vp: Viewport, pos: Vector3d, off: Vector3d)
    ensures Cart2Sdl(vp.(e := vp.e.(pos := vp.e.pos.Add(off))), pos.Add(off)) == Cart2Sdl(vp, pos)
  {
  }

  /** A point half a screen or less from the camera lands on the screen. */
  lemma Cart2SdlOnScreen(vp: Viewport, pos: Vector3d)
    requires 0 <= vp.w && 0 <= vp.h
    requires -(vp.w as real) / 2.0 <= pos.x - vp.e.pos.x < vp.w as real / 2.0
    requires -(vp.h as real) / 2.0 < pos.y - vp.e.pos.y <= vp.h as real / 2.0
    ensures 0 <= Cart2Sdl(vp, pos).x < vp.w
    ensures 0 <= Cart2Sdl(vp, pos).y < vp.h
  {
  }
}
