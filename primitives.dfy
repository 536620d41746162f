// Scene objects with hierarchical transforms (SceneObject and its shape subclasses),
// their intersection decisions, and the heap that owns them.
//
// Every `new SceneObject` of the program is an entry of an arena; a pointer is an index
// into it. The program never deletes a scene object, so the arena only grows and an
// index, once handed out, stays valid.
module Primitives {
  import opened Common
  import opened Geometry

  /** The concrete subclass of a scene object, with the fields that subclass adds. */
  datatype Shape =
    | Cone(radius: real, height: real)
    | Cube(width: real, height: real, depth: real)
    | Sphere(radius: real)
    | Joint(radius: real)
    | Plane(normal: Vec3, width: real, height: real)
    | Mesh(meshName: string)   // Mesh::name, which hides SceneObject::name

  /** The state of one SceneObject (colours and renderer handles are left out). */
  datatype SceneObject = SceneObject(
    shape: Shape,
    parent: Option<nat>,       // None is the NULL parent of a root
    childList: seq<nat>,
    position: Vec3,
    rotation: Vec3,            // Euler angles in degrees
    scale: Vec3,
    pivot: Vec3,
    isSelectable: bool,
    name: string)

  // ---------------------------------------------------------------- constructors

  /** The field initialisers of SceneObject, for an object of the given subclass. */
  function Initial(shape: Shape): SceneObject
  {
    SceneObject(shape, None, [], Zero, Zero, Ones, Zero, true, "SceneObject")
  }

  /** Cone(color) */
  function NewCone(): SceneObject { Initial(Cone(1.0, 2.0)) }

  /** Cone(tran, rot, sc, color) */
  function NewConeWith(tran: Vec3, rot: Vec3, sc: Vec3): SceneObject
  {
    Initial(Cone(1.0, 2.0)).(position := tran, rotation := rot, scale := sc)
  }

  /** Cube(color) */
  function NewCube(): SceneObject { Initial(Cube(2.0, 2.0, 2.0)) }

  /** Cube(tran, rot, sc, color) */
  function NewCubeWith(tran: Vec3, rot: Vec3, sc: Vec3): SceneObject
  {
    Initial(Cube(2.0, 2.0, 2.0)).(position := tran, rotation := rot, scale := sc)
  }

  /** Sphere() */
  function NewSphere(): SceneObject { Initial(Sphere(1.0)) }

  /** Sphere(p, r, diffuse) */
  function NewSphereAt(p: Vec3, r: real): SceneObject
  {
    Initial(Sphere(r)).(position := p)
  }

  /** Joint(): the default constructor does not rename the object. */
  function NewJoint(): SceneObject { Initial(Joint(1.0)) }

  /** Joint(p, r, diffuse) */
  function NewJointAt(p: Vec3, r: real): SceneObject
  {
    Initial(Joint(r)).(position := p, name := "joint")
  }

  /** Mesh(model, n): `n` goes to Mesh::name; SceneObject::name keeps its initialiser. */
  function NewMesh(n: string): SceneObject
  {
    Initial(Mesh(n))
  }

  /** Plane() */
  function NewPlane(): SceneObject
  {
    Initial(Plane(Vec3(0.0, 1.0, 0.0), 20.0, 20.0)).(isSelectable := false)
  }

  /** Plane(p, n, diffuse, w, h) */
  function NewPlaneAt(p: Vec3, n: Vec3, w: real, h: real): SceneObject
  {
    Initial(Plane(n, w, h)).(position := p, isSelectable := false)
  }

  /** The ground plane the editor puts at scene[0]: Plane(vec3(0, -2, 0), vec3(0, 1, 0)). */
  function GroundPlane(): SceneObject
  {
    NewPlaneAt(Vec3(0.0, -2.0, 0.0), Vec3(0.0, 1.0, 0.0), 20.0, 20.0)
  }

  /** A root without children and without a pivot offset: how every constructor leaves an object. */
  predicate Unlinked(o: SceneObject)
  {
    o.parent == None && o.childList == [] && o.pivot == Zero
  }

  /** No translation, rotation or scaling. */
  predicate AtRest(o: SceneObject)
  {
    o.position == Zero && o.rotation == Zero && o.scale == Ones
  }

  /** What every constructor leaves in the base-class fields. */
  lemma ConstructorDefaults(tran: Vec3, rot: Vec3, sc: Vec3, p: Vec3, r: real, n: string, nv: Vec3, w: real, h: real)
    ensures Unlinked(NewCone()) && AtRest(NewCone()) && NewCone().isSelectable
    ensures Unlinked(NewCube()) && AtRest(NewCube()) && NewCube().isSelectable
    ensures Unlinked(NewSphere()) && AtRest(NewSphere()) && NewSphere().isSelectable
    ensures Unlinked(NewJoint()) && AtRest(NewJoint()) && NewJoint().isSelectable
    ensures Unlinked(NewMesh(n)) && AtRest(NewMesh(n)) && NewMesh(n).isSelectable
    ensures Unlinked(NewPlane()) && AtRest(NewPlane()) && !NewPlane().isSelectable
    ensures Unlinked(NewConeWith(tran, rot, sc)) && NewConeWith(tran, rot, sc).isSelectable
    ensures Unlinked(NewCubeWith(tran, rot, sc)) && NewCubeWith(tran, rot, sc).isSelectable
    ensures Unlinked(NewSphereAt(p, r)) && NewSphereAt(p, r).isSelectable
    ensures Unlinked(NewJointAt(p, r)) && NewJointAt(p, r).isSelectable
    ensures Unlinked(NewPlaneAt(p, nv, w, h)) && !NewPlaneAt(p, nv, w, h).isSelectable
    ensures NewJointAt(p, r).name == "joint" && NewJointAt(p, r).position == p && NewJointAt(p, r).shape == Joint(r)
    ensures NewJointAt(p, r).rotation == Zero && NewJointAt(p, r).scale == Ones
    ensures NewJoint().name == "SceneObject" && NewMesh(n).name == "SceneObject" && NewMesh(n).shape.meshName == n
  {
  }

  // ---------------------------------------------------------------- transforms

  /**
   * getLocalMatrix: trans * post * rotate * pre * scale, where post and pre translate by
   * +pivot and -pivot, so the rotation turns about the pivot point.
   */
  function LocalMatrix(o: SceneObject): (m: Mat)
    ensures |m| == 5
    ensures m[0] == Translate(o.position) && m[2] == EulerYXZ(o.rotation) && m[4] == Scale(o.scale)
    ensures m[1] == Translate(o.pivot) && m[3] == Translate(o.pivot.Neg())
  {
    Mul(Mul(Mul(Mul([Translate(o.position)], [Translate(o.pivot)]), [EulerYXZ(o.rotation)]),
            [Translate(o.pivot.Neg())]), [Scale(o.scale)])
  }

  /**
   * With no rotation, no pivot and unit scale, the local matrix only translates by the
   * position (given that a rotation by zero angles leaves a point where it is).
   */
  lemma LocalOfUnrotated(o: SceneObject, q: Vec3, rotate: Rotator)
    requires o.rotation == Zero && o.pivot == Zero && o.scale == Ones
    requires rotate(Zero, q) == q
    ensures Apply(LocalMatrix(o), q, rotate) == q.Plus(o.position)
  {
    var m := LocalMatrix(o);
    assert Apply(m[4..], q, rotate) == q;
    assert m[3..][1..] == m[4..];
    assert Apply(m[3..], q, rotate) == q;
    assert m[2..][1..] == m[3..];
    assert Apply(m[2..], q, rotate) == q;
    assert m[1..][1..] == m[2..];
    assert Apply(m[1..], q, rotate) == q;
  }

  /** Every parent pointer leads to a lower arena index. */
  predicate ParentsBelow(nodes: seq<SceneObject>)
  {
    forall i | 0 <= i < |nodes| :: nodes[i].parent.Some? ==> nodes[i].parent.value < i
  }

  /** Every child-list entry is a valid index above its owner's. */
  predicate ChildrenAbove(nodes: seq<SceneObject>)
  {
    forall i, k | 0 <= i < |nodes| && 0 <= k < |nodes[i].childList| :: i < nodes[i].childList[k] < |nodes|
  }

  /**
   * The heap is ordered by creation: a node is only ever linked under an older one. This is
   * what keeps the parent chains acyclic (addChild itself checks nothing).
   */
  predicate Topological(nodes: seq<SceneObject>)
  {
    ParentsBelow(nodes) && ChildrenAbove(nodes)
  }

  /**
   * getMatrix: the local matrix of a root, and parent->getMatrix() * getLocalMatrix() otherwise.
   */
  function WorldMatrix(nodes: seq<SceneObject>, i: nat): Mat
    requires i < |nodes| && ParentsBelow(nodes)
    decreases i
  {
    match nodes[i].parent
    case None => LocalMatrix(nodes[i])
    case Some(p) => Mul(WorldMatrix(nodes, p), LocalMatrix(nodes[i]))
  }

  /** The chain of nodes from the root of `i`'s tree down to `i`, following parent pointers. */
  function Lineage(nodes: seq<SceneObject>, i: nat): (path: seq<nat>)
    requires i < |nodes| && ParentsBelow(nodes)
    ensures |path| >= 1 && path[|path| - 1] == i
    ensures forall k | 0 <= k < |path| :: path[k] < |nodes|
    ensures nodes[path[0]].parent == None
    ensures forall k | 0 <= k < |path| - 1 :: nodes[path[k + 1]].parent == Some(path[k])
    decreases i
  {
    match nodes[i].parent
    case None => [i]
    case Some(p) => Lineage(nodes, p) + [i]
  }

  /** The product of the local matrices of the nodes along `path`, first node leftmost. */
  function LocalsProduct(nodes: seq<SceneObject>, path: seq<nat>): Mat
    requires forall k | 0 <= k < |path| :: path[k] < |nodes|
    decreases |path|
  {
    if path == [] then Identity else Mul(LocalMatrix(nodes[path[0]]), LocalsProduct(nodes, path[1..]))
  }

  lemma {:induction false} LocalsProductSnoc(nodes: seq<SceneObject>, path: seq<nat>, i: nat)
    requires forall k | 0 <= k < |path| :: path[k] < |nodes|
    requires i < |nodes|
    ensures LocalsProduct(nodes, path + [i]) == Mul(LocalsProduct(nodes, path), LocalMatrix(nodes[i]))
    decreases |path|
  {
    if path == [] {
      assert LocalsProduct(nodes, [i][1..]) == Identity;
    } else {
      assert (path + [i])[1..] == path[1..] + [i];
      LocalsProductSnoc(nodes, path[1..], i);
    }
  }

  /** The world matrix of a node is the product of the local matrices from its root down to it. */
  lemma {:induction false} WorldIsLineageProduct(nodes: seq<SceneObject>, i: nat)
    requires i < |nodes| && ParentsBelow(nodes)
    ensures WorldMatrix(nodes, i) == LocalsProduct(nodes, Lineage(nodes, i))
    decreases i
  {
    match nodes[i].parent
    case None =>
      assert LocalsProduct(nodes, [i][1..]) == Identity;
    case Some(p) =>
      WorldIsLineageProduct(nodes, p);
      LocalsProductSnoc(nodes, Lineage(nodes, p), i);
  }

  /** getPosition: the world matrix applied to the homogeneous origin. */
  function WorldPosition(nodes: seq<SceneObject>, i: nat, rotate: Rotator): Vec3
    requires i < |nodes| && ParentsBelow(nodes)
  {
    Apply(WorldMatrix(nodes, i), Zero, rotate)
  }

  /** A child's world position is its local origin carried through its parent's world matrix. */
  lemma ChildWorldPosition(nodes: seq<SceneObject>, i: nat, rotate: Rotator)
    requires i < |nodes| && ParentsBelow(nodes) && nodes[i].parent.Some?
    ensures WorldPosition(nodes, i, rotate)
         == Apply(WorldMatrix(nodes, nodes[i].parent.value), Apply(LocalMatrix(nodes[i]), Zero, rotate), rotate)
  {
    ApplyMul(WorldMatrix(nodes, nodes[i].parent.value), LocalMatrix(nodes[i]), Zero, rotate);
  }

  /** The fields getLocalMatrix and getMatrix read agree on the first `n` nodes of two heaps. */
  predicate SamePlacement(a: seq<SceneObject>, b: seq<SceneObject>, n: nat)
  {
    && n <= |a| && n <= |b|
    && forall k | 0 <= k < n ::
         && a[k].parent == b[k].parent && a[k].position == b[k].position && a[k].rotation == b[k].rotation
         && a[k].scale == b[k].scale && a[k].pivot == b[k].pivot
  }

  /** A world matrix depends only on the placement of the node and its ancestors, not on child lists or names. */
  lemma {:induction false} WorldMatrixOfSamePlacement(a: seq<SceneObject>, b: seq<SceneObject>, i: nat)
    requires ParentsBelow(a) && ParentsBelow(b) && SamePlacement(a, b, i + 1)
    ensures WorldMatrix(a, i) == WorldMatrix(b, i)
    decreases i
  {
    assert LocalMatrix(a[i]) == LocalMatrix(b[i]);
    match a[i].parent
    case None =>
    case Some(p) =>
      WorldMatrixOfSamePlacement(a, b, p);
  }

  /** No rotation, no pivot offset and unit scale. */
  predicate Unrotated(o: SceneObject)
  {
    o.rotation == Zero && o.pivot == Zero && o.scale == Ones
  }

  /** The node and all its ancestors are unrotated. */
  predicate UnrotatedChain(nodes: seq<SceneObject>, i: nat)
    requires i < |nodes| && ParentsBelow(nodes)
    decreases i
  {
    Unrotated(nodes[i]) && (nodes[i].parent.Some? ==> UnrotatedChain(nodes, nodes[i].parent.value))
  }

  /** Along an unrotated chain the world matrix only translates, by the node's world position. */
  lemma {:induction false} TranslationOnly(nodes: seq<SceneObject>, i: nat, q: Vec3, rotate: Rotator)
    requires i < |nodes| && ParentsBelow(nodes) && UnrotatedChain(nodes, i)
    requires forall v: Vec3 :: rotate(Zero, v) == v
    ensures Apply(WorldMatrix(nodes, i), q, rotate) == q.Plus(WorldPosition(nodes, i, rotate))
    decreases i
  {
    var o := nodes[i];
    LocalOfUnrotated(o, q, rotate);
    LocalOfUnrotated(o, Zero, rotate);
    match o.parent
    case None =>
    case Some(p) =>
      var w := WorldMatrix(nodes, p);
      ApplyMul(w, LocalMatrix(o), q, rotate);
      ApplyMul(w, LocalMatrix(o), Zero, rotate);
      TranslationOnly(nodes, p, q.Plus(o.position), rotate);
      TranslationOnly(nodes, p, Zero.Plus(o.position), rotate);
  }

  // ---------------------------------------------------------------- intersection

  /** An axis-aligned box of box.h, from its two corners. */
  datatype Box = Box(min: Vec3, max: Vec3)

  /**
   * The library routines the intersection tests call, taken as given: glm::inverse,
   * glm::normalize, the Euler rotation, Box::intersect (box.h), glm::intersectRaySphere
   * (hit point and normal, if any) and glm::intersectRayPlane (hit distance, if any).
   */
  datatype Library = Library(
    inverse: Mat -> Mat,
    normalize: Vec3 -> Vec3,
    rotate: Rotator,
    boxHit: (Box, Ray, real, real) -> bool,
    sphereHit: (Vec3, Vec3, Vec3, real) -> Option<(Vec3, Vec3)>,
    planeHit: (Vec3, Vec3, Vec3, Vec3) -> Option<real>)

  /**
   * The outcome of `intersect(ray, point, normal)`: the returned flag and, for each
   * out-parameter, the value written to it or None when the call leaves it untouched.
   */
  datatype Hit = Hit(hit: bool, point: Option<Vec3>, normal: Option<Vec3>)

  /** The world ray carried into the object's space by the inverse of its world matrix. */
  function ObjectRay(nodes: seq<SceneObject>, i: nat, ray: Ray, lib: Library): Ray
    requires i < |nodes| && ParentsBelow(nodes)
  {
    var inv := lib.inverse(WorldMatrix(nodes, i));
    var p := Apply(inv, ray.p, lib.rotate);
    var p1 := Apply(inv, ray.p.Plus(ray.d), lib.rotate);
    Ray(p, lib.normalize(p1.Minus(p)))
  }

  /** The box Cube::intersect tests: centred on the origin, `width` by `height` by `depth`. */
  function CubeBox(width: real, height: real, depth: real): (b: Box)
    ensures b.min == b.max.Neg()
    ensures b.max.Minus(b.min) == Vec3(width, height, depth)
  {
    Box(Vec3(-width / 2.0, -height / 2.0, -depth / 2.0), Vec3(width / 2.0, height / 2.0, depth / 2.0))
  }

  /** The box Cone::intersect tests: the cone's bounding box, base at z = 0, apex side at z = height. */
  function ConeBox(radius: real, height: real): (b: Box)
    ensures b.min.x == -b.max.x && b.min.y == -b.max.y && b.max.x == b.max.y == radius
    ensures b.min.z == 0.0 && b.max.z == height
  {
    Box(Vec3(-radius, -radius, 0.0), Vec3(radius, radius, height))
  }

  /** The strict rectangle test of Plane::intersect: open in x and z, y not looked at. */
  predicate InsideRectangle(position: Vec3, width: real, height: real, q: Vec3)
  {
    var xrange := (position.x - width / 2.0, position.x + width / 2.0);
    var zrange := (position.z - height / 2.0, position.z + height / 2.0);
    q.x < xrange.1 && q.x > xrange.0 && q.z < zrange.1 && q.z > zrange.0
  }

  /** Plane::intersect, on the world ray, with the plane's own position and normal. */
  function PlaneIntersect(o: SceneObject, ray: Ray, lib: Library): (h: Hit)
    requires o.shape.Plane?
    ensures lib.planeHit(ray.p, ray.d, o.position, o.shape.normal).None? ==> h == Hit(false, None, None)
    ensures lib.planeHit(ray.p, ray.d, o.position, o.shape.normal).Some? ==>
              var t := lib.planeHit(ray.p, ray.d, o.position, o.shape.normal).value;
              && h.point == Some(EvalPoint(ray, t))
              && h.normal == Some(o.shape.normal)
              && (h.hit <==> InsideRectangle(o.position, o.shape.width, o.shape.height, EvalPoint(ray, t)))
  {
    match lib.planeHit(ray.p, ray.d, o.position, o.shape.normal)
    case None => Hit(false, None, None)
    case Some(dist) =>
      var point := EvalPoint(ray, dist);
      Hit(InsideRectangle(o.position, o.shape.width, o.shape.height, point), Some(point), Some(o.shape.normal))
  }

  /** A point on the rectangle's border, or outside it, is never accepted; y does not matter. */
  lemma RectangleIsOpen(position: Vec3, width: real, height: real, q: Vec3, y: real)
    ensures InsideRectangle(position, width, height, q) ==
            InsideRectangle(position, width, height, Vec3(q.x, y, q.z))
    ensures q.x == position.x + width / 2.0 || q.x == position.x - width / 2.0 ||
            q.z == position.z + height / 2.0 || q.z == position.z - height / 2.0
            ==> !InsideRectangle(position, width, height, q)
    ensures InsideRectangle(position, width, height, q) ==> width > 0.0 && height > 0.0
  {
  }

  /** The virtual `intersect` of the node at index `i`, dispatched on its subclass. */
  function Intersect(nodes: seq<SceneObject>, i: nat, ray: Ray, lib: Library): (h: Hit)
    requires i < |nodes| && ParentsBelow(nodes)
    ensures nodes[i].shape.Mesh? ==> h == Hit(false, None, None)
    ensures nodes[i].shape.Cube? || nodes[i].shape.Cone? ==> h.point == None && h.normal == None
    ensures h.hit && (nodes[i].shape.Sphere? || nodes[i].shape.Joint?) ==> h.point.Some? && h.normal.Some?
  {
    var o := nodes[i];
    match o.shape
    case Mesh(_) => Hit(false, None, None)
    case Plane(_, _, _) => PlaneIntersect(o, ray, lib)
    case Cube(w, ht, d) =>
      Hit(lib.boxHit(CubeBox(w, ht, d), ObjectRay(nodes, i, ray, lib), -1000.0, 1000.0), None, None)
    case Cone(r, ht) =>
      Hit(lib.boxHit(ConeBox(r, ht), ObjectRay(nodes, i, ray, lib), -1000.0, 1000.0), None, None)
    case _ =>
      var objRay := ObjectRay(nodes, i, ray, lib);
      match lib.sphereHit(objRay.p, objRay.d, Zero, o.shape.radius)
      case None => Hit(false, None, None)
      case Some(hit) => Hit(true, Some(hit.0), Some(hit.1))
  }

  /** Sphere and Joint test a sphere centred at the object-space origin with the node's radius. */
  lemma SphereTestsOriginWithRadius(nodes: seq<SceneObject>, i: nat, ray: Ray, lib: Library)
    requires i < |nodes| && ParentsBelow(nodes)
    requires nodes[i].shape.Sphere? || nodes[i].shape.Joint?
    ensures var objRay := ObjectRay(nodes, i, ray, lib);
            Intersect(nodes, i, ray, lib).hit == lib.sphereHit(objRay.p, objRay.d, Zero, nodes[i].shape.radius).Some?
  {
  }

  /**
   * A plane is tested on the world ray itself, not the ray carried into object space,
   * with its own position and normal.
   */
  lemma PlaneTestsWorldRay(nodes: seq<SceneObject>, i: nat, ray: Ray, lib: Library)
    requires i < |nodes| && ParentsBelow(nodes) && nodes[i].shape.Plane?
    ensures Intersect(nodes, i, ray, lib) == PlaneIntersect(nodes[i], ray, lib)
  {
  }

  /**
   * A cube is tested in object space against the box centred on its origin, with the
   * parameter range -1000 to 1000, and reports only whether the box is hit.
   */
  lemma CubeTestsItsBox(nodes: seq<SceneObject>, i: nat, ray: Ray, lib: Library)
    requires i < |nodes| && ParentsBelow(nodes) && nodes[i].shape.Cube?
    ensures var s := nodes[i].shape;
            Intersect(nodes, i, ray, lib)
            == Hit(lib.boxHit(CubeBox(s.width, s.height, s.depth), ObjectRay(nodes, i, ray, lib), -1000.0, 1000.0),
                   None, None)
  {
  }

  /**
   * A cone is tested in object space against its bounding box, with the parameter range
   * -1000 to 1000, and reports only whether the box is hit.
   */
  lemma ConeTestsItsBox(nodes: seq<SceneObject>, i: nat, ray: Ray, lib: Library)
    requires i < |nodes| && ParentsBelow(nodes) && nodes[i].shape.Cone?
    ensures var s := nodes[i].shape;
            Intersect(nodes, i, ray, lib)
            == Hit(lib.boxHit(ConeBox(s.radius, s.height), ObjectRay(nodes, i, ray, lib), -1000.0, 1000.0), None, None)
  {
  }

  /**
   * The heap after `p->addChild(c)`: `c` is appended to `p`'s child list and its parent
   * becomes `p`; nothing else changes, and linking a newer node under an older one keeps
   * the heap ordered.
   */
  function Linked(nodes: seq<SceneObject>, p: nat, c: nat): (r: seq<SceneObject>)
    requires p < |nodes| && c < |nodes|
    ensures |r| == |nodes|
    ensures r[p].childList == nodes[p].childList + [c]
    ensures r[c].parent == Some(p)
    ensures p != c ==> r[p] == nodes[p].(childList := nodes[p].childList + [c])
    ensures p != c ==> r[c] == nodes[c].(parent := Some(p))
    ensures forall k | 0 <= k < |r| && k != p && k != c :: r[k] == nodes[k]
    ensures p < c && Topological(nodes) ==> Topological(r)
  {
    var n := nodes[p := nodes[p].(childList := nodes[p].childList + [c])];
    n[c := n[c].(parent := Some(p))]
  }

  // ---------------------------------------------------------------- the heap

  /** All scene objects the program has allocated; pointers are indices into `nodes`. */
  class Arena {
    var nodes: seq<SceneObject>

    constructor ()
      ensures nodes == []
    {
      nodes := [];
    }

    /** `new`: the object goes at the end and its index is returned. */
    method Allocate(o: SceneObject) returns (i: nat)
      modifies this
      ensures nodes == old(nodes) + [o] && i == |old(nodes)|
    {
      i := |nodes|;
      nodes := nodes + [o];
    }

    /**
     * SceneObject::addChild: `c` goes at the end of `p`'s child list and its parent becomes
     * `p`. The old parent's list keeps its entry for `c`, and there is no cycle check.
     */
    method AddChild(p: nat, c: nat)
      requires p < |nodes| && c < |nodes|
      modifies this
      ensures nodes == Linked(old(nodes), p, c)
    {
      nodes := nodes[p := nodes[p].(childList := nodes[p].childList + [c])];
      nodes := nodes[c := nodes[c].(parent := Some(p))];
    }
  }
}
