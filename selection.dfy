// The rules behind mouse selection and editing (ofApp::mousePressed, mouseDragged and
// dragEvent): which objects a click can pick, which of them wins, how a drag edits the
// selected joint, and the file name a dropped model is known by.
module Selection {
  import opened Common
  import opened Geometry
  import opened Primitives

  // ---------------------------------------------------------------- picking

  /** A click can pick the object: it is selectable and its intersect reports a hit. */
  predicate Picks(nodes: seq<SceneObject>, x: nat, ray: Ray, lib: Library)
    requires x < |nodes| && ParentsBelow(nodes)
  {
    nodes[x].isSelectable && Intersect(nodes, x, ray, lib).hit
  }

  /** The `hits` vector of mousePressed: the pickable objects of the scene, in scene order. */
  function Candidates(nodes: seq<SceneObject>, scene: seq<nat>, ray: Ray, lib: Library): (hits: seq<nat>)
    requires ParentsBelow(nodes) && forall k | 0 <= k < |scene| :: scene[k] < |nodes|
    ensures |hits| <= |scene| && forall k | 0 <= k < |hits| :: hits[k] < |nodes|
    decreases |scene|
  {
    if scene == [] then []
    else
      var init, x := scene[..|scene| - 1], scene[|scene| - 1];
      assert forall k | 0 <= k < |init| :: init[k] == scene[k];
      Candidates(nodes, init, ray, lib) + (if Picks(nodes, x, ray, lib) then [x] else [])
  }

  /** The hits are exactly the pickable scene objects: each hit is one, and each one is a hit. */
  lemma {:induction false} CandidatesExact(nodes: seq<SceneObject>, scene: seq<nat>, ray: Ray, lib: Library)
    requires ParentsBelow(nodes) && forall k | 0 <= k < |scene| :: scene[k] < |nodes|
    ensures var hits := Candidates(nodes, scene, ray, lib);
            && (forall k | 0 <= k < |hits| :: hits[k] in scene && Picks(nodes, hits[k], ray, lib))
            && (forall k {:trigger Picks(nodes, scene[k], ray, lib)} | 0 <= k < |scene| ::
                  Picks(nodes, scene[k], ray, lib) ==> scene[k] in hits)
    decreases |scene|
  {
    if scene != [] {
      var init, x := scene[..|scene| - 1], scene[|scene| - 1];
      assert forall k | 0 <= k < |init| :: init[k] == scene[k];
      CandidatesExact(nodes, init, ray, lib);
      var hits, before := Candidates(nodes, scene, ray, lib), Candidates(nodes, init, ray, lib);
      assert hits == before + (if Picks(nodes, x, ray, lib) then [x] else []);
      forall k | 0 <= k < |hits| ensures hits[k] in scene && Picks(nodes, hits[k], ray, lib) {
        if k < |before| {
          assert hits[k] == before[k] && before[k] in init;
          var j :| 0 <= j < |init| && init[j] == before[k];
          assert scene[j] == hits[k];
        } else {
          assert hits[k] == x == scene[|scene| - 1];
        }
      }
      forall k | 0 <= k < |scene| && Picks(nodes, scene[k], ray, lib) ensures scene[k] in hits {
        if k < |init| {
          assert Picks(nodes, init[k], ray, lib);
          assert scene[k] in before;
        } else {
          assert hits[|hits| - 1] == scene[k];
        }
      }
    }
  }

  /** Scanning one more scene entry appends it to the hits exactly when it is picked. */
  lemma CandidatesSnoc(nodes: seq<SceneObject>, scene: seq<nat>, i: nat, ray: Ray, lib: Library)
    requires ParentsBelow(nodes) && i < |scene| && forall k | 0 <= k < |scene| :: scene[k] < |nodes|
    ensures Candidates(nodes, scene[..i + 1], ray, lib)
            == Candidates(nodes, scene[..i], ray, lib) + (if Picks(nodes, scene[i], ray, lib) then [scene[i]] else [])
  {
    assert scene[..i + 1][..i] == scene[..i];
  }

  /**
   * The squared distance from the camera to the object's `position` field. The program
   * compares lengths; squaring is strictly monotone on lengths, so the comparisons agree.
   */
  function CameraDistance(nodes: seq<SceneObject>, x: nat, camera: Vec3): real
    requires x < |nodes|
  {
    SquaredLength(nodes[x].position.Minus(camera))
  }

  function Distances(nodes: seq<SceneObject>, hits: seq<nat>, camera: Vec3): (ds: seq<real>)
    requires forall k | 0 <= k < |hits| :: hits[k] < |nodes|
    ensures |ds| == |hits| && forall k | 0 <= k < |hits| :: ds[k] == CameraDistance(nodes, hits[k], camera)
  {
    seq(|hits|, k requires 0 <= k < |hits| => CameraDistance(nodes, hits[k], camera))
  }

  /** `k` is the first position holding the least value of `ds`. */
  predicate IsFirstLeast(ds: seq<real>, k: nat)
  {
    && k < |ds|
    && (forall j | 0 <= j < k :: ds[j] > ds[k])
    && (forall j | k <= j < |ds| :: ds[j] >= ds[k])
  }

  /**
   * The winner of the nearest-hit scan: a later candidate replaces the current one only
   * when it is strictly nearer, so of equally near candidates the first one wins.
   */
  function FirstLeast(ds: seq<real>): (k: nat)
    requires ds != []
    ensures IsFirstLeast(ds, k)
    decreases |ds|
  {
    if |ds| == 1 then 0
    else
      var init := ds[..|ds| - 1];
      var k := FirstLeast(init);
      assert forall j | 0 <= j < |init| :: init[j] == ds[j];
      if ds[|ds| - 1] < ds[k] then |ds| - 1 else k
  }

  /** There is only one first least position. */
  lemma FirstLeastUnique(ds: seq<real>, k: nat, m: nat)
    requires IsFirstLeast(ds, k) && IsFirstLeast(ds, m)
    ensures k == m
  {
    var least, other := ds[k], ds[m];
    assert (k < m ==> least > other) && (m <= k ==> least >= other);
    assert (m < k ==> other > least) && (k <= m ==> other >= least);
  }

  // ---------------------------------------------------------------- dragging

  /**
   * One mouseDragged step on the selected object, from the previous drag point `last` to
   * `point`: with the x key held the rotation about x grows by 20 times the horizontal
   * motion; otherwise with y held the rotation about y, otherwise with z held the rotation
   * about z; with none held the position follows the motion.
   */
  function Dragged(o: SceneObject, rotX: bool, rotY: bool, rotZ: bool, point: Vec3, last: Vec3): (r: SceneObject)
    ensures r == o.(position := r.position, rotation := r.rotation)
    ensures rotX ==> r.position == o.position && r.rotation == o.rotation.Plus(Vec3((point.x - last.x) * 20.0, 0.0, 0.0))
    ensures !rotX && rotY ==>
              r.position == o.position && r.rotation == o.rotation.Plus(Vec3(0.0, (point.x - last.x) * 20.0, 0.0))
    ensures !rotX && !rotY && rotZ ==>
              r.position == o.position && r.rotation == o.rotation.Plus(Vec3(0.0, 0.0, (point.x - last.x) * 20.0))
    ensures !rotX && !rotY && !rotZ ==> r.rotation == o.rotation && r.position.Minus(o.position) == point.Minus(last)
  {
    var dx := (point.x - last.x) * 20.0;
    if rotX then o.(rotation := o.rotation.Plus(Vec3(dx, 0.0, 0.0)))
    else if rotY then o.(rotation := o.rotation.Plus(Vec3(0.0, dx, 0.0)))
    else if rotZ then o.(rotation := o.rotation.Plus(Vec3(0.0, 0.0, dx)))
    else o.(position := o.position.Plus(point.Minus(last)))
  }

  /**
   * Because each step starts where the previous one ended, two drag steps with the same
   * keys held edit the object as one step over the whole motion.
   */
  lemma DragStepsCompose(o: SceneObject, rotX: bool, rotY: bool, rotZ: bool, a: Vec3, b: Vec3, c: Vec3)
    ensures Dragged(Dragged(o, rotX, rotY, rotZ, b, a), rotX, rotY, rotZ, c, b) == Dragged(o, rotX, rotY, rotZ, c, a)
  {
    assert (b.x - a.x) * 20.0 + (c.x - b.x) * 20.0 == (c.x - a.x) * 20.0;
  }

  // ---------------------------------------------------------------- dropped files

  /** The number of characters after the last backslash of a path (all of them when there is none). */
  function TailLength(path: string): (n: nat)
    ensures n <= |path|
    ensures forall k | |path| - n <= k < |path| :: path[k] != '\\'
    ensures n < |path| ==> path[|path| - n - 1] == '\\'
    decreases |path|
  {
    if path == [] || path[|path| - 1] == '\\' then 0 else 1 + TailLength(path[..|path| - 1])
  }

  /** The file name of a path: what follows its last backslash (all of it when there is none). */
  function Basename(path: string): string
  {
    path[|path| - TailLength(path)..]
  }

  /**
   * The only suffix length whose characters hold no backslash and which is either the whole
   * path or preceded by a backslash is the one Basename takes: what dragEvent's backward
   * scan for the first backslash finds.
   */
  lemma BasenameUnique(path: string, n: nat)
    requires n <= |path| && forall k | |path| - n <= k < |path| :: path[k] != '\\'
    requires n < |path| ==> path[|path| - n - 1] == '\\'
    ensures path[|path| - n..] == Basename(path)
  {
    assert n == TailLength(path);
  }

  /** A name without backslashes dropped from any folder is known by that name. */
  lemma BasenameOfFileInFolder(folder: string, name: string)
    requires forall k | 0 <= k < |name| :: name[k] != '\\'
    ensures Basename(folder + "\\" + name) == name
  {
    var path := folder + "\\" + name;
    assert forall k | |path| - |name| <= k < |path| :: path[k] == name[k - (|path| - |name|)];
    BasenameUnique(path, |name|);
    assert path[|path| - |name|..] == name;
  }

}
