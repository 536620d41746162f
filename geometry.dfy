// Vectors, rays and transform matrices of the skeleton editor (glm::vec3, Ray, glm::mat4).
//
// Vector components are reals rather than IEEE floats. A 4x4 matrix is kept as a formal
// product of elementary transforms: the product of two matrices is the concatenation of
// their factor lists, so the product is associative with the empty list as identity,
// and nothing about matrix entries, trigonometry or inverses is assumed.
module Geometry {

  datatype Vec3 = Vec3(x: real, y: real, z: real)
  {
    function Plus(o: Vec3): Vec3 { Vec3(x + o.x, y + o.y, z + o.z) }
    function Minus(o: Vec3): Vec3 { Vec3(x - o.x, y - o.y, z - o.z) }
    function Neg(): Vec3 { Vec3(-x, -y, -z) }
    /** Component-wise product with a scalar, `v * k`. */
    function Times(k: real): Vec3 { Vec3(x * k, y * k, z * k) }
    /** Component-wise division by a non-zero scalar, `v / k`. */
    function Over(k: real): Vec3 requires k != 0.0 { Vec3(x / k, y / k, z / k) }
    /** Component-wise product of two vectors (how a scale matrix acts on a point). */
    function Hadamard(o: Vec3): Vec3 { Vec3(x * o.x, y * o.y, z * o.z) }
  }

  const Zero := Vec3(0.0, 0.0, 0.0)
  const Ones := Vec3(1.0, 1.0, 1.0)

  /** Squared Euclidean length; glm::length is its square root. */
  function SquaredLength(v: Vec3): real
  {
    v.x * v.x + v.y * v.y + v.z * v.z
  }

  /** A ray: origin `p` and direction `d` (not necessarily of unit length). */
  datatype Ray = Ray(p: Vec3, d: Vec3)

  /** Ray::evalPoint: the point at parameter `t` along the ray. */
  function EvalPoint(ray: Ray, t: real): (q: Vec3)
    ensures q.Minus(ray.p) == ray.d.Times(t)
    ensures t == 0.0 ==> q == ray.p
  {
    ray.p.Plus(ray.d.Times(t))
  }

  /** One elementary transform: glm::translate, glm::eulerAngleYXZ (angles in degrees) or glm::scale. */
  datatype Elem = Translate(offset: Vec3) | EulerYXZ(degrees: Vec3) | Scale(factors: Vec3)

  /** A transform matrix as the product of its elementary factors, leftmost first. */
  type Mat = seq<Elem>

  /** glm::mat4(1.0). */
  const Identity: Mat := []

  /** The matrix product `a * b`. */
  function Mul(a: Mat, b: Mat): Mat
  {
    a + b
  }

  /**
   * How a rotation acts on a point: `rotate(degrees, q)` is eulerAngleYXZ(radians(degrees.y),
   * radians(degrees.x), radians(degrees.z)) applied to `q`. The trigonometry is the library's,
   * so the model takes it as a parameter.
   */
  type Rotator = (Vec3, Vec3) -> Vec3

  /** `m * vec4(q, 1)` for one elementary factor. */
  function ApplyElem(e: Elem, q: Vec3, rotate: Rotator): Vec3
  {
    match e
    case Translate(t) => q.Plus(t)
    case EulerYXZ(a) => rotate(a, q)
    case Scale(s) => q.Hadamard(s)
  }

  /** `m * vec4(q, 1)`: the rightmost factor acts first. */
  function Apply(m: Mat, q: Vec3, rotate: Rotator): Vec3
    decreases |m|
  {
    if m == [] then q else ApplyElem(m[0], Apply(m[1..], q, rotate), rotate)
  }

  /** Applying a product is applying its factors in turn: (a * b) q == a (b q). */
  lemma {:induction false} ApplyMul(a: Mat, b: Mat, q: Vec3, rotate: Rotator)
    ensures Apply(Mul(a, b), q, rotate) == Apply(a, Apply(b, q, rotate), rotate)
    decreases |a|
  {
    if a != [] {
      assert Mul(a, b)[1..] == Mul(a[1..], b);
      ApplyMul(a[1..], b, q, rotate);
    } else {
      assert Mul(a, b) == b;
    }
  }
}
