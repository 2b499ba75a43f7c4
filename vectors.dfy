/** Three-component vectors of the simulation (`vector3d` in main.cpp).
    x and y are the plane; z is the heading angle in a position and the
    turning rate in a velocity. Doubles are modelled as reals. */
module Vectors {

  datatype Option<T> = None | Some(value: T)

  /** A real that is not negative. */
  type NonNegReal = r: real | 0.0 <= r

  /** The <cmath> functions the simulation calls. Their values are left
      uninterpreted; all that is known of `sqrt` is that it is not negative. */
  datatype Libm = Libm(cos: real -> real, sin: real -> real, sqrt: real -> NonNegReal)

  datatype Vector3d = Vector3d(x: real, y: real, z: real)
  {
    /** operator +; subtracting v again gives this vector back. */
    function Add(v: Vector3d): (r: Vector3d)
      ensures r.x - v.x == x && r.y - v.y == y && r.z - v.z == z
    {
      Vector3d(x + v.x, y + v.y, z + v.z)
    }

    /** operator -; adding v back gives this vector. */
    function Sub(v: Vector3d): (r: Vector3d)
      ensures r.x + v.x == x && r.y + v.y == y && r.z + v.z == z
    {
      Vector3d(x - v.x, y - v.y, z - v.z)
    }

    /** operator * by a scalar; 1 keeps the vector and 0 gives the zero vector. */
    function Scale(s: real): (r: Vector3d)
      ensures s == 1.0 ==> r.x == x && r.y == y && r.z == z
      ensures s == 0.0 ==> r.x == 0.0 && r.y == 0.0 && r.z == 0.0
    {
      Vector3d(x * s, y * s, z * s)
    }

    /** operator / by a scalar. A zero divisor gives no vector: the C++ code
        produces non-finite components there, which reals cannot hold. */
    function Div(s: real): (r: Option<Vector3d>)
      ensures r.Some? <==> s != 0.0
      ensures r.Some? ==> r.value.Scale(s) == this
    {
      if s == 0.0 then None else Some(Vector3d(x / s, y / s, z / s))
    }

    /** operator * between two vectors: the dot product over all three
        components; a vector's product with itself is never negative. */
    function Dot(v: Vector3d): (r: real)
      ensures v == this ==> 0.0 <= r
    {
      x * v.x + y * v.y + z * v.z
    }

    /** Euclidean norm over all three components */
    function Mag(m: Libm): (r: real)
      ensures 0.0 <= r
    {
      m.sqrt(x * x + y * y + z * z)
    }

    /** Counter-clockwise rotation of the (x, y) plane by theta; z is kept. */
    function Rotate(theta: real, m: Libm): (r: Vector3d)
      ensures r.z == z
    {
      Vector3d(x * m.cos(theta) - y * m.sin(theta), x * m.sin(theta) + y * m.cos(theta), z)
    }
  }

  /** The default-constructed vector3d. */
  const Zero := Vector3d(0.0, 0.0, 0.0)

  /** Subtraction undoes addition. */
  lemma AddSubInverse(a: Vector3d, b: Vector3d)
    ensures a.Add(b).Sub(b) == a
  {
  }

  /** Scaling distributes over a sum of scalars; with it n equal steps add up. */
  lemma ScaleSum(v: Vector3d, s: real, t: real)
    ensures v.Scale(s).Add(v.Scale(t)) == v.Scale(s + t)
  {
  }

  /** Two moves along the same vector add up to one move by the summed factor. */
  lemma AddScaledTwice(a: Vector3d, v: Vector3d, s: real, t: real)
    ensures a.Add(v.Scale(s)).Add(v.Scale(t)) == a.Add(v.Scale(s + t))
  {
    ScaleSum(v, s, t);
  }

  /** The facts about cos and sin that rotation needs: a Pythagorean pair,
      cos even and sin odd at theta. */
  ghost predicate TrigAt(m: Libm, theta: real)
  {
    && m.cos(theta) * m.cos(theta) + m.sin(theta) * m.sin(theta) == 1.0
    && m.cos(-theta) == m.cos(theta)
    && m.sin(-theta) == -m.sin(theta)
  }

  /** Rotating by theta and then by -theta gives the vector back. */
  lemma RotateInverse(v: Vector3d, theta: real, m: Libm)
    requires TrigAt(m, theta)
    ensures v.Rotate(theta, m).Rotate(-theta, m) == v
  {
  }

  /** The rotation is counter-clockwise: the x axis turns onto the direction
      (cos theta, sin theta) and the y axis onto (-sin theta, cos theta). */
  lemma RotateAxes(z: real, theta: real, m: Libm)
    ensures Vector3d(1.0, 0.0, z).Rotate(theta, m) == Vector3d(m.cos(theta), m.sin(theta), z)
    ensures Vector3d(0.0, 1.0, z).Rotate(theta, m) == Vector3d(-m.sin(theta), m.cos(theta), z)
  {
  }

  /** A quarter turn (cos = 0, sin = 1) takes +x to +y and +y to -x. */
  lemma RotateQuarterTurn(z: real, theta: real, m: Libm)
    requires m.cos(theta) == 0.0 && m.sin(theta) == 1.0
    ensures Vector3d(1.0, 0.0, z).Rotate(theta, m) == Vector3d(0.0, 1.0, z)
    ensures Vector3d(0.0, 1.0, z).Rotate(theta, m) == Vector3d(-1.0, 0.0, z)
  {
  }

  /** The magnitude is the square root of the vector's dot product with
      itself; both sum over all three components. */
  lemma MagIsSqrtDot(v: Vector3d, m: Libm)
    ensures v.Mag(m) == m.sqrt(v.Dot(v))
    ensures v.Dot(v) == v.x * v.x + v.y * v.y + v.z * v.z
  {
  }

  /** Rotation keeps the squared length, hence the magnitude. */
  lemma RotatePreservesMag(v: Vector3d, theta: real, m: Libm)
    requires m.cos(theta) * m.cos(theta) + m.sin(theta) * m.sin(theta) == 1.0
    ensures v.Rotate(theta, m).Dot(v.Rotate(theta, m)) == v.Dot(v)
    ensures v.Rotate(theta, m).Mag(m) == v.Mag(m)
  {
  }
}
