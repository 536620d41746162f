// The skeleton editor itself (class ofApp): the scene list, the selection, the keyframe
// animator, the joint counter and the models bound to joints, with the operations the
// keys and the mouse trigger.
//
// Rendering, the GUI, lights and cameras are left out. What the camera and the library
// compute (the pick ray, the point under the mouse on the drag plane, the easing
// coefficient, number formatting and parsing, whether a model file loads) comes in as
// parameters.
module Editor {
  import opened Common
  import opened Geometry
  import opened Primitives
  import opened Keyframes
  import opened SkeletonText
  import opened Hierarchy
  import opened SceneFile
  import opened Selection

  /**
   * The heap after createJoint: a new joint named `name`, placed at `point` when nothing
   * is selected, and otherwise at `point` minus the selected joint's world position and
   * added to the selected joint's children. setPosition runs on the fresh joint before it
   * is linked, when its own matrix acts as the identity, so it stores its argument.
   */
  function CreatedHeap(nodes: seq<SceneObject>, sel: Option<nat>, point: Vec3, radius: real, name: string,
                       rotate: Rotator): (r: seq<SceneObject>)
    requires ParentsBelow(nodes) && (sel.Some? ==> sel.value < |nodes|)
    ensures |r| == |nodes| + 1
    ensures r[|nodes|].name == name && r[|nodes|].parent == sel && r[|nodes|].childList == []
    ensures r[|nodes|].shape == Joint(radius) && Unrotated(r[|nodes|])
    ensures r[|nodes|].position
            == if sel.None? then point else point.Minus(WorldPosition(nodes, sel.value, rotate))
    ensures sel.Some? ==> r[sel.value] == nodes[sel.value].(childList := nodes[sel.value].childList + [|nodes|])
    ensures forall k | 0 <= k < |nodes| && Some(k) != sel :: r[k] == nodes[k]
    ensures Topological(nodes) ==> Topological(r)
  {
    var j := NewJointAt(Zero, radius).(name := name);
    match sel
    case None => nodes + [j.(position := point)]
    case Some(s) => Linked(nodes + [j.(position := point.Minus(WorldPosition(nodes, s, rotate)))], s, |nodes|)
  }

  /**
   * The fresh joint's own matrix acts as the identity (given that rotating by zero angles
   * leaves a point in place), which is why setPosition on it stores its argument unchanged.
   */
  lemma FreshJointMatrixIsIdentity(radius: real, q: Vec3, rotate: Rotator)
    requires rotate(Zero, q) == q
    ensures Apply(LocalMatrix(NewJointAt(Zero, radius)), q, rotate) == q
  {
    LocalOfUnrotated(NewJointAt(Zero, radius), q, rotate);
  }

  /**
   * A created joint sits at the clicked point, at any depth of the tree, when the
   * selected joint and its ancestors are unrotated; the subtraction of the parent's world
   * position does not undo a rotation.
   */
  lemma CreatedJointLandsOnPoint(nodes: seq<SceneObject>, sel: Option<nat>, point: Vec3, radius: real,
                                 name: string, rotate: Rotator)
    requires Topological(nodes) && (sel.Some? ==> sel.value < |nodes|)
    requires sel.Some? ==> UnrotatedChain(nodes, sel.value)
    requires forall v: Vec3 :: rotate(Zero, v) == v
    ensures var after := CreatedHeap(nodes, sel, point, radius, name, rotate);
            Topological(after) && WorldPosition(after, |nodes|, rotate) == point
  {
    var after := CreatedHeap(nodes, sel, point, radius, name, rotate);
    match sel
    case None =>
      LocalOfUnrotated(after[|nodes|], Zero, rotate);
    case Some(s) =>
      CreatedUnderLandsOnPoint(nodes, s, point, radius, name, rotate);
  }

  lemma CreatedUnderLandsOnPoint(nodes: seq<SceneObject>, s: nat, point: Vec3, radius: real, name: string,
                                 rotate: Rotator)
    requires Topological(nodes) && s < |nodes| && UnrotatedChain(nodes, s)
    requires forall v: Vec3 :: rotate(Zero, v) == v
    ensures WorldPosition(CreatedHeap(nodes, Some(s), point, radius, name, rotate), |nodes|, rotate) == point
  {
    var c, w := |nodes|, WorldPosition(nodes, s, rotate);
    var o := NewJointAt(Zero, radius).(name := name, position := point.Minus(w));
    var after := Linked(nodes + [o], s, c);
    assert after == CreatedHeap(nodes, Some(s), point, radius, name, rotate);
    assert LocalMatrix(after[c]) == LocalMatrix(o);
    assert WorldMatrix(after, c) == Mul(WorldMatrix(after, s), LocalMatrix(o));
    assert SamePlacement(after, nodes, s + 1);
    WorldMatrixOfSamePlacement(after, nodes, s);
    var v := Zero.Plus(point.Minus(w));
    LocalOfUnrotated(o, Zero, rotate);
    ApplyMul(WorldMatrix(nodes, s), LocalMatrix(o), Zero, rotate);
    TranslationOnly(nodes, s, v, rotate);
    assert v.Plus(w) == point;
  }

  class App {
    const arena: Arena
    const animation: Keyframe

    var scene: seq<nat>        // scene[0] is the ground plane
    var selected: seq<nat>     // at most one object
    var models: seq<SceneObject>
    var mods: seq<nat>         // mods[k] is the joint models[k] is bound to
    var jointNumber: nat
    const radius: real := 0.2

    var bDrag: bool
    var bRotateX: bool
    var bRotateY: bool
    var bRotateZ: bool
    var playing: bool
    var lastPoint: Vec3

    ghost predicate Valid()
      reads this, arena, animation
    {
      && animation.Valid() && animation.TracksWithin(arena)
      && Topological(arena.nodes)
      && |scene| >= 1 && InHeap(arena.nodes, scene) && Increasing(scene)
      && |selected| <= 1 && (forall k | 0 <= k < |selected| :: selected[k] < |arena.nodes|)
      && |models| == |mods| && Distinct(mods)
    }

    /** objSelected */
    predicate ObjSelected(): (r: bool)
      reads this
      ensures r <==> selected != []
    {
      |selected| > 0
    }

    /** The editor after setup: a scene holding only the ground plane. */
    constructor ()
      ensures Valid() && fresh(arena) && fresh(animation)
      ensures arena.nodes == [GroundPlane()] && scene == [0]
      ensures selected == [] && models == [] && mods == [] && jointNumber == 0
      ensures !bDrag && !bRotateX && !bRotateY && !bRotateZ && !playing
      ensures animation.addedNodes == [] && animation.deltaPos == [] && animation.deltaRot == []
    {
      arena := new Arena();
      animation := new Keyframe();
      scene, selected, models, mods := [], [], [], [];
      jointNumber := 0;
      bDrag, bRotateX, bRotateY, bRotateZ, playing := false, false, false, false, false;
      lastPoint := Zero;
      new;
      var plane := arena.Allocate(GroundPlane());
      scene := [plane];
    }

    /**
     * createJoint, with `point` the pick point on the drag plane: a new joint named after
     * the counter, under the selected joint if there is one, appended to the scene.
     */
    method CreateJoint(point: Vec3, rotate: Rotator)
      requires Valid()
      modifies this`scene, this`jointNumber, arena
      ensures Valid()
      ensures arena.nodes
              == CreatedHeap(old(arena.nodes), if selected == [] then None else Some(selected[0]), point, radius,
                             JointName(old(jointNumber)), rotate)
      ensures scene == old(scene) + [|old(arena.nodes)|]
      ensures jointNumber == old(jointNumber) + 1
    {
      var created := PlaceJoint(point, rotate);
      IncreasingSnoc(scene, created);
      scene := scene + [created];
      jointNumber := jointNumber + 1;
    }

    /** The heap part of createJoint: allocate the joint, position it and link it under the selection. */
    method PlaceJoint(point: Vec3, rotate: Rotator) returns (created: nat)
      requires Topological(arena.nodes) && |selected| <= 1 && (selected != [] ==> selected[0] < |arena.nodes|)
      modifies arena
      ensures created == old(|arena.nodes|)
      ensures arena.nodes
              == CreatedHeap(old(arena.nodes), if selected == [] then None else Some(selected[0]), point, radius,
                             JointName(jointNumber), rotate)
    {
      created := arena.Allocate(NewJointAt(Zero, radius).(name := JointName(jointNumber)));
      var j := arena.nodes[created];
      if ObjSelected() {
        ghost var before := arena.nodes;
        var p := WorldPosition(arena.nodes, selected[0], rotate);
        assert p == WorldPosition(old(arena.nodes), selected[0], rotate) by {
          assert SamePlacement(before, old(arena.nodes), selected[0] + 1);
          WorldMatrixOfSamePlacement(before, old(arena.nodes), selected[0]);
        }
        arena.nodes := arena.nodes[created := j.(position := point.Minus(p))];
        assert arena.nodes == old(arena.nodes) + [j.(position := point.Minus(p))];
        arena.AddChild(selected[0], created);
      } else {
        arena.nodes := arena.nodes[created := j.(position := point)];
        assert arena.nodes == old(arena.nodes) + [j.(position := point)];
      }
    }

    /**
     * The link surgery of removeJoint on the selected node `s`: with a parent, every child
     * of `s` is added to the parent (`re` becomes their number) and the entry at the
     * computed index is erased from the parent's list; without one, every child becomes a
     * root.
     */
    method Detach(s: nat)
      requires Topological(arena.nodes) && s < |arena.nodes|
      requires arena.nodes[s].parent.Some? ==> |arena.nodes[arena.nodes[s].parent.value].childList| >= 1
      modifies arena
      ensures arena.nodes == Detached(old(arena.nodes), s)
    {
      var o := arena.nodes[s];
      var cl := o.childList;
      assert forall k | 0 <= k < |cl| :: s < cl[k] < |arena.nodes|;
      match o.parent {
        case Some(g) =>
          var re := AdoptChildren(g, cl);
          var gl := arena.nodes[g].childList;
          var at := if |cl| == 0 then |gl| - re - 2 else |gl| - re - 1;
          assert at == EraseIndex(|old(arena.nodes)[g].childList|, |cl|);
          arena.nodes := arena.nodes[g := arena.nodes[g].(childList := EraseAt(gl, at))];
        case None =>
          OrphanChildren(cl);
      }
    }

    /** `parent->addChild(childList[j])` for every child, recording their number in `re`. */
    method AdoptChildren(g: nat, cl: seq<nat>) returns (re: int)
      requires g < |arena.nodes| && forall k | 0 <= k < |cl| :: g < cl[k] < |arena.nodes|
      modifies arena
      ensures arena.nodes == AdoptAll(old(arena.nodes), g, cl)
      ensures re == if cl == [] then -1 else |cl|
    {
      re := -1;
      for j := 0 to |cl|
        invariant arena.nodes == AdoptAll(old(arena.nodes), g, cl[..j])
        invariant re == if j == 0 then -1 else |cl|
      {
        assert cl[..j + 1][..j] == cl[..j];
        arena.AddChild(g, cl[j]);
        re := |cl|;
      }
      assert cl[..|cl|] == cl;
    }

    /** `childList[j]->parent = NULL` for every child. */
    method OrphanChildren(cl: seq<nat>)
      requires forall k | 0 <= k < |cl| :: cl[k] < |arena.nodes|
      modifies arena
      ensures arena.nodes == OrphanAll(old(arena.nodes), cl)
    {
      for j := 0 to |cl|
        invariant arena.nodes == OrphanAll(old(arena.nodes), cl[..j])
      {
        assert cl[..j + 1][..j] == cl[..j];
        arena.nodes := arena.nodes[cl[j] := arena.nodes[cl[j]].(parent := None)];
      }
      assert cl[..|cl|] == cl;
    }

    /**
     * removeJoint: the selected joint's links are undone (see Detach), it leaves the scene,
     * and the selection, the keyframes and the models are all dropped. The deleted object
     * stays in the heap, unreachable from the scene.
     */
    method RemoveJoint()
      requires Valid()
      requires selected != [] ==> selected[0] in scene[1..]
      requires selected != [] && arena.nodes[selected[0]].parent.Some? ==>
                 |arena.nodes[arena.nodes[selected[0]].parent.value].childList| >= 1
      modifies this`scene, this`selected, this`models, this`mods, arena
      modifies animation`addedNodes, animation`nStartPos, animation`nEndPos, animation`nStartRot, animation`nEndRot
      ensures Valid()
      ensures old(selected) == [] ==>
                && scene == old(scene) && arena.nodes == old(arena.nodes) && models == old(models) && mods == old(mods)
                && animation.addedNodes == old(animation.addedNodes)
      ensures old(selected) != [] ==>
                var s := old(selected[0]);
                && arena.nodes == Detached(old(arena.nodes), s)
                && scene == EraseAt(old(scene), IndexOf(old(scene), s)) && s !in scene
                && selected == [] && models == [] && mods == []
                && animation.addedNodes == [] && animation.nStartPos == [] && animation.nEndPos == []
                && animation.nStartRot == [] && animation.nEndRot == []
    {
      if !ObjSelected() {
        return;
      }
      var s := selected[0];
      var eraseIndex := DetachFromScene(s);
      EraseKeepsIncreasing(scene, eraseIndex);
      scene := EraseAt(scene, eraseIndex);
      assert Topological(arena.nodes) && InHeap(arena.nodes, scene) && |scene| >= 1;
      selected := [];
      DropTracksAndModels();
    }

    /** The clears removeJoint and loadFromFile share: the keyframe tracks, then the models. */
    method DropTracksAndModels()
      modifies this`models, this`mods
      modifies animation`addedNodes, animation`nStartPos, animation`nEndPos, animation`nStartRot, animation`nEndRot
      ensures animation.addedNodes == [] && animation.nStartPos == [] && animation.nEndPos == []
      ensures animation.nStartRot == [] && animation.nEndRot == []
      ensures animation.Valid() && animation.TracksWithin(arena)
      ensures models == [] && mods == [] && Distinct(mods)
    {
      animation.addedNodes, animation.nStartPos, animation.nEndPos, animation.nStartRot, animation.nEndRot
        := [], [], [], [], [];
      models, mods := [], [];
    }
  
    /**
     * The scan of removeJoint: the scene position of `s`, whose links are undone (see
     * Detach) when the scan reaches it. The scene lists `s` once, so acting on the first
     * match only is the program's scan.
     */
    method DetachFromScene(s: nat) returns (eraseIndex: nat)
      requires Topological(arena.nodes) && InHeap(arena.nodes, scene) && |scene| >= 1 && s in scene[1..]
      requires arena.nodes[s].parent.Some? ==> |arena.nodes[arena.nodes[s].parent.value].childList| >= 1
      modifies arena
      ensures 1 <= eraseIndex < |scene| && scene[eraseIndex] == s && s !in scene[1..eraseIndex]
      ensures arena.nodes == Detached(old(arena.nodes), s)
    {
      var found := false;
      eraseIndex := 0;
      for i := 1 to |scene|
        invariant !found ==> s !in scene[1..i] && arena.nodes == old(arena.nodes)
        invariant found ==>
                    && 1 <= eraseIndex < i && scene[eraseIndex] == s && s !in scene[1..eraseIndex]
                    && arena.nodes == Detached(old(arena.nodes), s)
      {
        if s == scene[i] && !found {
          found := true;
          eraseIndex := i;
          Detach(scene[i]);
        }
      }
      assert scene[1..|scene|] == scene[1..];
    }

    /**
     * saveToFile: refuses (None) unless some scene object after the ground plane is a
     * root; otherwise the text of model.txt, one line per scene object after the ground
     * plane, with no newline after the last.
     */
    method SaveToFile(fmt: real -> string) returns (file: Option<string>)
      requires Valid()
      ensures file == SavedFile(arena.nodes, scene, fmt)
    {
      var rootExists := RootExists();
      if !rootExists {
        return None;
      }
      var text := SavedText(fmt);
      file := Some(text);
    }

    /** The root check of saveToFile: the scan stops at the first root after the ground plane. */
    method RootExists() returns (rootExists: bool)
      requires Valid()
      ensures rootExists == HasRoot(arena.nodes, scene)
    {
      rootExists := false;
      var i := 1;
      while i < |scene|
        invariant 1 <= i <= |scene|
        invariant !rootExists && forall k | 1 <= k < i :: arena.nodes[scene[k]].parent.Some?
      {
        if arena.nodes[scene[i]].parent.None? {
          rootExists := true;
          break;
        }
        i := i + 1;
      }
    }

    /** The writing loop of saveToFile: a line per object, a newline after every line but the last. */
    method SavedText(fmt: real -> string) returns (text: string)
      requires ParentsBelow(arena.nodes) && InHeap(arena.nodes, scene) && |scene| >= 2
      ensures text == JoinLines(SavedLines(arena.nodes, scene, fmt))
    {
      text := "";
      for i := 1 to |scene|
        invariant text == SavedPrefix(arena.nodes, scene, i, fmt)
      {
        var o := arena.nodes[scene[i]];
        var parentName := "";
        if o.parent.Some? {
          parentName := arena.nodes[o.parent.value].name;
        }
        assert parentName == ParentName(arena.nodes, scene[i]);
        var line := SaveLine(o.name, o.rotation, o.position, parentName, fmt);
        SavedPrefixStep(arena.nodes, scene, i, fmt);
        text := text + line;
        if i != |scene| - 1 {
          text := text + "\n";
        }
      }
      SavedPrefixWhole(arena.nodes, scene, fmt);
    }

    /**
     * loadFromFile, with `fileExists` telling whether model.txt exists and `lines` what
     * getNextLine returns, line after line. The scene restarts from a new ground plane,
     * keyframes and models are dropped, and every line up to the first empty one becomes a
     * joint linked under each earlier joint carrying its parent's name. The counter ends one
     * above the largest of its old value and the last digits of the names read. The
     * selection is left as it was.
     */
    method LoadFromFile(fileExists: bool, lines: seq<string>, stof: string -> real)
      requires Valid()
      requires forall k | 0 <= k < LoadCount(lines) :: Readable(lines[k])
      modifies this`scene, this`models, this`mods, this`jointNumber, arena
      modifies animation`addedNodes, animation`nStartPos, animation`nEndPos, animation`nStartRot, animation`nEndRot
      ensures Valid()
      ensures !fileExists ==> unchanged(this) && unchanged(arena) && unchanged(animation)
      ensures fileExists ==>
                var recs, base := Records(lines, LoadCount(lines), stof), |old(arena.nodes)|;
                && arena.nodes == old(arena.nodes) + [GroundPlane()] + LoadedNodes(recs, base, radius)
                && scene == LoadedScene(base, |recs|)
                && jointNumber == CounterAfterLoad(old(jointNumber), Names(recs))
                && models == [] && mods == []
                && animation.addedNodes == [] && animation.nStartPos == [] && animation.nEndPos == []
                && animation.nStartRot == [] && animation.nEndRot == []
    {
      if fileExists {
        Reload(lines, stof);
      }
    }

    /** loadFromFile once the file is open: clear the scene, then read the joints. */
    method Reload(lines: seq<string>, stof: string -> real)
      requires Valid()
      requires forall k | 0 <= k < LoadCount(lines) :: Readable(lines[k])
      modifies this`scene, this`models, this`mods, this`jointNumber, arena
      modifies animation`addedNodes, animation`nStartPos, animation`nEndPos, animation`nStartRot, animation`nEndRot
      ensures Valid()
      ensures var recs, base := Records(lines, LoadCount(lines), stof), |old(arena.nodes)|;
              && arena.nodes == old(arena.nodes) + [GroundPlane()] + LoadedNodes(recs, base, radius)
              && scene == LoadedScene(base, |recs|)
              && jointNumber == CounterAfterLoad(old(jointNumber), Names(recs))
              && models == [] && mods == []
              && animation.addedNodes == [] && animation.nStartPos == [] && animation.nEndPos == []
              && animation.nStartRot == [] && animation.nEndRot == []
    {
      var base := ClearScene();
      ReadJoints(lines, stof, base);
      jointNumber := jointNumber + 1;
      LoadedSceneFits(old(arena.nodes), Records(lines, LoadCount(lines), stof), radius);
    }

    /** The start of loadFromFile: a new ground plane is the whole scene, with no keyframes and no models. */
    method ClearScene() returns (base: nat)
      requires Valid()
      modifies this`scene, this`models, this`mods, arena
      modifies animation`addedNodes, animation`nStartPos, animation`nEndPos, animation`nStartRot, animation`nEndRot
      ensures Valid()
      ensures base == |old(arena.nodes)| && arena.nodes == old(arena.nodes) + [GroundPlane()] && scene == [base]
      ensures models == [] && mods == []
      ensures animation.addedNodes == [] && animation.nStartPos == [] && animation.nEndPos == []
      ensures animation.nStartRot == [] && animation.nEndRot == []
    {
      base := arena.Allocate(GroundPlane());
      scene := [base];
      DropTracksAndModels();
    }

    /** The reading loop of loadFromFile: one joint per line, until the first empty line. */
    method ReadJoints(lines: seq<string>, stof: string -> real, base: nat)
      requires forall k | 0 <= k < LoadCount(lines) :: Readable(lines[k])
      requires base == |arena.nodes| - 1 && arena.nodes[base] == GroundPlane() && scene == [base]
      modifies this`scene, this`jointNumber, arena
      ensures var recs := Records(lines, LoadCount(lines), stof);
              && arena.nodes == old(arena.nodes) + LoadedNodes(recs, base, radius)
              && scene == LoadedScene(base, |recs|)
              && jointNumber == MaxLastDigit(old(jointNumber), Names(recs))
    {
      ghost var recs := Records(lines, LoadCount(lines), stof);
      ghost var prefix := arena.nodes[..base];
      ghost var counter := jointNumber;
      assert old(arena.nodes) == prefix + [GroundPlane()];
      assert Names(recs)[..0] == [];
      var n := 0;
      while n < |lines| && lines[n] != []
        invariant n <= LoadCount(lines) && |recs| == LoadCount(lines)
        invariant Loading(recs, prefix, counter, n)
        decreases |lines| - n
      {
        ReadJoint(lines, stof, recs, prefix, counter, n, base);
        n := n + 1;
      }
      assert recs[..n] == recs && Names(recs)[..n] == Names(recs);
    }

    /**
     * After `n` records have been loaded above `prefix`: the ground plane, then the joints,
     * and the counter raised by the last digit of each name read.
     */
    ghost predicate Loading(recs: seq<JointRecord>, prefix: seq<SceneObject>, counter: nat, n: nat)
      reads this, arena
    {
      && n <= |recs|
      && arena.nodes == prefix + [GroundPlane()] + LoadedPrefix(recs, n, |prefix|, radius)
      && scene == LoadedScene(|prefix|, n)
      && (forall k | 0 <= k < |recs| :: EndsInDigit(recs[k].name))
      && jointNumber == MaxLastDigit(counter, Names(recs)[..n])
    }

    /** `jointNumber = max(jointNumber, stoi(lastChar))` for the name just read. */
    method BumpCounter(name: string, ghost counter: nat, ghost names: seq<string>, n: nat)
      requires n < |names| && names[n] == name && forall k | 0 <= k < |names| :: EndsInDigit(names[k])
      requires jointNumber == MaxLastDigit(counter, names[..n])
      modifies this`jointNumber
      ensures jointNumber == MaxLastDigit(counter, names[..n + 1])
    {
      MaxLastDigitExtend(counter, names, n);
      jointNumber := Max(jointNumber, LastDigit(name));
    }

    /** One line of loadFromFile's loop: split, parse, and load the joint it describes. */
    method ReadJoint(lines: seq<string>, stof: string -> real, ghost recs: seq<JointRecord>, ghost prefix: seq<SceneObject>,
                     ghost counter: nat, n: nat, base: nat)
      requires forall k | 0 <= k < LoadCount(lines) :: Readable(lines[k])
      requires n < LoadCount(lines) && recs == Records(lines, LoadCount(lines), stof) && base == |prefix|
      requires Loading(recs, prefix, counter, n)
      modifies this`scene, this`jointNumber, arena
      ensures Loading(recs, prefix, counter, n + 1)
    {
      assert Readable(lines[n]) && recs[n] == ParseLine(lines[n], stof);
      var splitted := SplitWords(lines[n]);
      assert |splitted| >= 13 && forall k | 0 <= k < |splitted| :: IsWord(splitted[k]);
      var rec := ParseWords(splitted, stof);
      LoadJoint(rec, recs, prefix, n, base);
      BumpCounter(rec.name, counter, Names(recs), n);
    }

    /** The body of loadFromFile's loop for one record: a new joint, linked, pushed onto the scene. */
    method LoadJoint(rec: JointRecord, ghost recs: seq<JointRecord>, ghost prefix: seq<SceneObject>, n: nat, base: nat)
      requires n < |recs| && rec == recs[n] && base == |prefix|
      requires arena.nodes == prefix + [GroundPlane()] + LoadedPrefix(recs, n, base, radius)
      requires scene == LoadedScene(base, n)
      modifies this`scene, arena
      ensures arena.nodes == prefix + [GroundPlane()] + LoadedPrefix(recs, n + 1, base, radius)
      ensures scene == LoadedScene(base, n + 1)
    {
      var loaded := arena.Allocate(FreshJoint(rec, radius));
      assert loaded == base + 1 + n;
      MidwayStart(prefix, recs, n, radius);
      LinkLoaded(rec, recs, prefix, n, base, loaded);
      LoadedSceneSnoc(base, n);
      scene := scene + [loaded];
    }

    /** The link loop of loadFromFile: the new joint becomes a child of every scene joint carrying its parent's name. */
    method LinkLoaded(rec: JointRecord, ghost recs: seq<JointRecord>, ghost prefix: seq<SceneObject>, n: nat, base: nat,
                      loaded: nat)
      requires n < |recs| && rec == recs[n] && base == |prefix| && loaded == base + 1 + n
      requires arena.nodes == Midway(prefix, recs, n, 1, radius)
      requires scene == LoadedScene(base, n)
      modifies arena
      ensures arena.nodes == prefix + [GroundPlane()] + LoadedPrefix(recs, n + 1, base, radius)
    {
      var pName := rec.parentName;
      if pName != [] {
        for j := 1 to |scene|
          invariant arena.nodes == LinkedUnder(Midway(prefix, recs, n, 1, radius), scene, j, loaded, pName)
        {
          if arena.nodes[scene[j]].name == pName {
            arena.AddChild(scene[j], loaded);
          }
        }
        LinkedUnderMidway(prefix, recs, n, n + 1, radius);
        MidwayEnd(prefix, recs, n, radius);
      } else {
        LoadWithoutParent(prefix, recs, n, radius);
      }
    }

    /**
     * mousePressed, with `ray` the pick ray through the mouse, `camera` the camera position
     * and `dragPoint` what mouseToDragPlane finds (None when the ray misses the drag
     * plane, which leaves lastPoint as it was). While the camera takes the mouse nothing
     * happens; otherwise the selection becomes the nearest pickable object, the first of
     * equally near ones, or nothing.
     */
    method MousePressed(cameraTakesMouse: bool, ray: Ray, camera: Vec3, lib: Library, dragPoint: Option<Vec3>)
      requires Valid()
      modifies this`selected, this`bDrag, this`lastPoint
      ensures Valid()
      ensures cameraTakesMouse ==> selected == old(selected) && bDrag == old(bDrag) && lastPoint == old(lastPoint)
      ensures !cameraTakesMouse ==>
                var hits := Candidates(arena.nodes, scene, ray, lib);
                && (hits == [] ==> selected == [] && bDrag == old(bDrag) && lastPoint == old(lastPoint))
                && (hits != [] ==>
                      && selected == [hits[FirstLeast(Distances(arena.nodes, hits, camera))]]
                      && bDrag
                      && lastPoint == (if dragPoint.Some? then dragPoint.value else old(lastPoint)))
    {
      if cameraTakesMouse {
        return;
      }
      var hits := PickHits(ray, lib);
      SelectNearest(hits, camera, dragPoint);
    }

    /**
     * The end of mousePressed: the selection is cleared, then the nearest hit, if any,
     * becomes the selection and a drag starts. The program clears the selection before the
     * hit test; the hit test does not read it, so clearing it here comes to the same.
     */
    method SelectNearest(hits: seq<nat>, camera: Vec3, dragPoint: Option<Vec3>)
      requires forall k | 0 <= k < |hits| :: hits[k] < |arena.nodes|
      modifies this`selected, this`bDrag, this`lastPoint
      ensures |selected| <= 1 && forall k | 0 <= k < |selected| :: selected[k] < |arena.nodes|
      ensures hits == [] ==> selected == [] && bDrag == old(bDrag) && lastPoint == old(lastPoint)
      ensures hits != [] ==>
                && selected == [hits[FirstLeast(Distances(arena.nodes, hits, camera))]]
                && bDrag
                && lastPoint == (if dragPoint.Some? then dragPoint.value else old(lastPoint))
    {
      selected := [];
      if hits != [] {
        var selectedObj := Nearest(hits, camera);
        selected := [selectedObj];
        bDrag := true;
        if dragPoint.Some? {
          lastPoint := dragPoint.value;
        }
      }
    }

    /** The hit test of mousePressed: every selectable scene object whose intersect reports a hit, in scene order. */
    method PickHits(ray: Ray, lib: Library) returns (hits: seq<nat>)
      requires ParentsBelow(arena.nodes) && InHeap(arena.nodes, scene)
      ensures hits == Candidates(arena.nodes, scene, ray, lib)
    {
      ghost var nodes := arena.nodes;
      hits := [];
      for i := 0 to |scene|
        invariant hits == Candidates(nodes, scene[..i], ray, lib)
      {
        CandidatesSnoc(nodes, scene, i, ray, lib);
        if arena.nodes[scene[i]].isSelectable && Intersect(arena.nodes, scene[i], ray, lib).hit {
          hits := hits + [scene[i]];
        }
      }
      assert scene[..|scene|] == scene;
    }

    /**
     * The nearest-hit scan of mousePressed: the running nearest distance starts at
     * infinity (None) and a hit replaces the current choice only when strictly nearer.
     */
    method Nearest(hits: seq<nat>, camera: Vec3) returns (selectedObj: nat)
      requires hits != [] && forall k | 0 <= k < |hits| :: hits[k] < |arena.nodes|
      ensures selectedObj == hits[FirstLeast(Distances(arena.nodes, hits, camera))] && selectedObj < |arena.nodes|
    {
      ghost var ds := Distances(arena.nodes, hits, camera);
      selectedObj := hits[0];
      var nearestDist: Option<real> := None;
      for n := 0 to |hits|
        invariant n == 0 ==> nearestDist == None
        invariant n > 0 ==> var k := FirstLeast(ds[..n]); nearestDist == Some(ds[k]) && selectedObj == hits[k]
      {
        var dist := CameraDistance(arena.nodes, hits[n], camera);
        assert ds[..n + 1][..n] == ds[..n];
        if nearestDist.None? || dist < nearestDist.value {
          nearestDist := Some(dist);
          selectedObj := hits[n];
        }
      }
      assert ds[..|hits|] == ds;
    }

    /**
     * mouseDragged, with `point` the point under the mouse on the drag plane: while an
     * object is selected and a drag is on, the selected object is rotated or moved by the
     * motion since the last drag point (see Dragged), and `point` becomes the last drag point.
     */
    method MouseDragged(point: Vec3)
      requires Valid()
      modifies this`lastPoint, arena
      ensures Valid()
      ensures !(selected != [] && bDrag) ==> arena.nodes == old(arena.nodes) && lastPoint == old(lastPoint)
      ensures selected != [] && bDrag ==>
                && arena.nodes == old(arena.nodes)[selected[0] := Dragged(old(arena.nodes[selected[0]]), bRotateX,
                                                                         bRotateY, bRotateZ, point, old(lastPoint))]
                && lastPoint == point
    {
      if ObjSelected() && bDrag {
        var s := selected[0];
        arena.nodes := arena.nodes[s := Dragged(arena.nodes[s], bRotateX, bRotateY, bRotateZ, point, lastPoint)];
        lastPoint := point;
      }
    }

    /** mouseReleased: the drag ends. */
    method MouseReleased()
      modifies this`bDrag
      ensures !bDrag
    {
      bDrag := false;
    }

    /** The x, y and z keys: pressing one turns its rotation mode on, releasing it turns it off. */
    method RotateKey(axis: char, down: bool)
      modifies this`bRotateX, this`bRotateY, this`bRotateZ
      ensures bRotateX == (if axis == 'x' || axis == 'X' then down else old(bRotateX))
      ensures bRotateY == (if axis == 'y' || axis == 'Y' then down else old(bRotateY))
      ensures bRotateZ == (if axis == 'z' || axis == 'Z' then down else old(bRotateZ))
    {
      if axis == 'x' || axis == 'X' {
        bRotateX := down;
      } else if axis == 'y' || axis == 'Y' {
        bRotateY := down;
      } else if axis == 'z' || axis == 'Z' {
        bRotateZ := down;
      }
    }

    /**
     * dragEvent, with `path` the first dropped file and `loads` whether the model loader
     * accepts it: with a joint selected that has no model yet, a model named after the
     * file's base name is bound to it. A joint never gets a second model.
     */
    method DragEvent(path: string, loads: bool)
      requires Valid()
      modifies this`models, this`mods
      ensures Valid()
      ensures selected == [] || selected[0] in old(mods) || !loads ==> models == old(models) && mods == old(mods)
      ensures selected != [] && selected[0] !in old(mods) && loads ==>
                models == old(models) + [NewMesh(Basename(path))] && mods == old(mods) + [selected[0]]
    {
      if !ObjSelected() {
        return;
      }
      for i := 0 to |mods|
        invariant selected[0] !in mods[..i]
      {
        if selected[0] == mods[i] {
          return;
        }
      }
      assert mods[..|mods|] == mods;
      if loads {
        var temp := FileName(path);
        BindModel(NewMesh(temp), selected[0]);
      }
    }

    /** `models.push_back(mesh); mods.push_back(objSelected)`: the model is bound to a joint that had none. */
    method BindModel(mesh: SceneObject, joint: nat)
      requires |models| == |mods| && Distinct(mods) && joint !in mods
      modifies this`models, this`mods
      ensures models == old(models) + [mesh] && mods == old(mods) + [joint]
      ensures |models| == |mods| && Distinct(mods)
    {
      models := models + [mesh];
      mods := mods + [joint];
    }

    /** The backward scan of dragEvent: count the characters after the last backslash. */
    static method FileName(path: string) returns (temp: string)
      ensures temp == Basename(path)
    {
      var slash := 0;
      var i := |path| - 1;
      while i >= 0
        invariant -1 <= i < |path| && slash == |path| - 1 - i
        invariant forall k | i < k < |path| :: path[k] != '\\'
      {
        if path[i] == '\\' {
          break;
        }
        slash := slash + 1;
        i := i - 1;
      }
      BasenameUnique(path, slash);
      temp := path[|path| - slash..];
    }

    /** Key '1': with an object selected, its current pose becomes its start pose. */
    method RecordStart()
      requires Valid()
      modifies animation`addedNodes, animation`nStartPos, animation`nStartRot, animation`nEndPos, animation`nEndRot
      ensures Valid()
      ensures selected == [] ==> unchanged(animation)
      ensures selected != [] && old(selected[0] !in animation.addedNodes) ==>
                var o := arena.nodes[selected[0]];
                && animation.addedNodes == old(animation.addedNodes) + [selected[0]]
                && animation.nStartPos == old(animation.nStartPos) + [o.position]
                && animation.nStartRot == old(animation.nStartRot) + [o.rotation]
                && animation.nEndPos == old(animation.nEndPos) + [o.position]
                && animation.nEndRot == old(animation.nEndRot) + [o.rotation]
      ensures selected != [] && old(selected[0] in animation.addedNodes) ==>
                && animation.addedNodes == old(animation.addedNodes)
                && (forall k | 0 <= k < |animation.addedNodes| && animation.addedNodes[k] != selected[0] ::
                      && animation.nStartPos[k] == old(animation.nStartPos[k])
                      && animation.nStartRot[k] == old(animation.nStartRot[k]))
                && animation.nEndPos == old(animation.nEndPos) && animation.nEndRot == old(animation.nEndRot)
      ensures selected != [] ==> selected[0] in animation.addedNodes
      ensures selected != [] ==>
                var k := IndexOf(animation.addedNodes, selected[0]);
                animation.nStartPos[k] == arena.nodes[selected[0]].position
                && animation.nStartRot[k] == arena.nodes[selected[0]].rotation
    {
      if ObjSelected() {
        animation.SetStartValues(selected[0], arena);
      }
    }

    /** Key '2': with an object selected, its current pose becomes its end pose. */
    method RecordEnd()
      requires Valid()
      modifies animation`addedNodes, animation`nStartPos, animation`nStartRot, animation`nEndPos, animation`nEndRot
      ensures Valid()
      ensures selected == [] ==> unchanged(animation)
      ensures selected != [] && old(selected[0] !in animation.addedNodes) ==>
                var o := arena.nodes[selected[0]];
                && animation.addedNodes == old(animation.addedNodes) + [selected[0]]
                && animation.nStartPos == old(animation.nStartPos) + [o.position]
                && animation.nStartRot == old(animation.nStartRot) + [o.rotation]
                && animation.nEndPos == old(animation.nEndPos) + [o.position]
                && animation.nEndRot == old(animation.nEndRot) + [o.rotation]
      ensures selected != [] && old(selected[0] in animation.addedNodes) ==>
                && animation.addedNodes == old(animation.addedNodes)
                && (forall k | 0 <= k < |animation.addedNodes| && animation.addedNodes[k] != selected[0] ::
                      && animation.nEndPos[k] == old(animation.nEndPos[k])
                      && animation.nEndRot[k] == old(animation.nEndRot[k]))
                && animation.nStartPos == old(animation.nStartPos) && animation.nStartRot == old(animation.nStartRot)
      ensures selected != [] ==> selected[0] in animation.addedNodes
      ensures selected != [] ==>
                var k := IndexOf(animation.addedNodes, selected[0]);
                animation.nEndPos[k] == arena.nodes[selected[0]].position
                && animation.nEndRot[k] == arena.nodes[selected[0]].rotation
    {
      if ObjSelected() {
        animation.SetEndValues(selected[0], arena);
      }
    }

    /**
     * Keys 'p' (forward) and 'r' (reverse): unless a playback is running, start one over
     * `dur` / 2 seconds, `dur` being the duration slider (0.5 to 3).
     */
    method Play(rev: bool, dur: real)
      requires Valid() && dur != 0.0
      modifies this`playing, arena
      modifies animation`duration, animation`frameNumber, animation`deltaPos, animation`deltaRot
      ensures Valid()
      ensures old(playing) ==> playing && unchanged(arena) && unchanged(animation)
      ensures !old(playing) ==>
                && playing && animation.duration == dur / 2.0 && animation.frameNumber == 0 && animation.Staged()
                && |arena.nodes| == old(|arena.nodes|)
                && (forall k | 0 <= k < |animation.addedNodes| ::
                      var frames := animation.frameRate * animation.duration;
                      && animation.deltaPos[k] == animation.Towards(rev, k).0.Minus(animation.From(rev, k).0).Over(frames)
                      && animation.deltaRot[k] == animation.Towards(rev, k).1.Minus(animation.From(rev, k).1).Over(frames))
                && (forall k | 0 <= k < |animation.addedNodes| ::
                      arena.nodes[animation.addedNodes[k]]
                      == old(arena.nodes[animation.addedNodes[k]]).(position := animation.From(rev, k).0,
                                                                    rotation := animation.From(rev, k).1))
                && (forall n | 0 <= n < |arena.nodes| && n !in animation.addedNodes :: arena.nodes[n] == old(arena.nodes[n]))
    {
      if !playing {
        playing := true;
        animation.SetTheStage(rev, dur / 2.0, arena);
      }
    }

    /**
     * update, with `c` the frame's easing coefficient: while playing, one playback frame,
     * and playing goes on while playback says so.
     */
    method Update(c: real)
      requires Valid() && (playing ==> animation.Staged())
      modifies this`playing, animation`frameNumber, arena
      ensures Valid()
      ensures !old(playing) ==> !playing && unchanged(arena) && unchanged(animation)
      ensures old(playing) ==>
                && animation.frameNumber == old(animation.frameNumber) + 1
                && (playing <==> (animation.frameNumber as real) < animation.frameRate * animation.duration * 2.0)
                && |arena.nodes| == old(|arena.nodes|)
                && forall k | 0 <= k < |animation.addedNodes| ::
                     var o := old(arena.nodes[animation.addedNodes[k]]);
                     arena.nodes[animation.addedNodes[k]]
                     == o.(position := EaseStep(o.position, animation.deltaPos[k], c),
                           rotation := EaseStep(o.rotation, animation.deltaRot[k], c))
      ensures old(playing) ==>
                forall n | 0 <= n < |arena.nodes| && n !in animation.addedNodes :: arena.nodes[n] == old(arena.nodes[n])
    {
      if playing {
        playing := animation.Playback(c, arena);
      }
    }
  }
}
