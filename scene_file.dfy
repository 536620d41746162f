// What saveToFile writes for a whole scene and what loadFromFile builds from a file:
// the saved text as a function of the heap, and the heap of loaded joints as a function
// of the records read from the lines.
module SceneFile {
  import opened Common
  import opened Geometry
  import opened Primitives
  import opened SkeletonText

  // ---------------------------------------------------------------- saving

  /** The name written after -parent: the parent's name, or nothing for a root. */
  function ParentName(nodes: seq<SceneObject>, x: nat): string
    requires x < |nodes| && ParentsBelow(nodes)
  {
    match nodes[x].parent
    case None => ""
    case Some(p) => nodes[p].name
  }

  predicate InHeap(nodes: seq<SceneObject>, scene: seq<nat>)
  {
    forall k | 0 <= k < |scene| :: scene[k] < |nodes|
  }

  /** The line saved for the object at `x`. */
  function SavedLine(nodes: seq<SceneObject>, x: nat, fmt: real -> string): string
    requires x < |nodes| && ParentsBelow(nodes)
  {
    SaveLine(nodes[x].name, nodes[x].rotation, nodes[x].position, ParentName(nodes, x), fmt)
  }

  /** One line for each scene object after the ground plane, in scene order. */
  function SavedLines(nodes: seq<SceneObject>, scene: seq<nat>, fmt: real -> string): (ls: seq<string>)
    requires ParentsBelow(nodes) && InHeap(nodes, scene) && |scene| >= 1
    ensures |ls| == |scene| - 1
  {
    seq(|scene| - 1, k requires 0 <= k < |scene| - 1 => SavedLine(nodes, scene[k + 1], fmt))
  }

  /** The lines of a longer scene prefix: one more line at the end. */
  lemma SavedLinesSnoc(nodes: seq<SceneObject>, scene: seq<nat>, i: nat, fmt: real -> string)
    requires ParentsBelow(nodes) && InHeap(nodes, scene) && 1 <= i < |scene|
    ensures SavedLines(nodes, scene[..i + 1], fmt) == SavedLines(nodes, scene[..i], fmt) + [SavedLine(nodes, scene[i], fmt)]
  {
  }

  /**
   * What saveToFile has written before scene position `i`: the lines of the objects
   * before it, each followed by a newline unless it is the last of the whole scene.
   */
  function SavedPrefix(nodes: seq<SceneObject>, scene: seq<nat>, i: nat, fmt: real -> string): string
    requires ParentsBelow(nodes) && InHeap(nodes, scene) && 1 <= i <= |scene|
  {
    if i == 1 then "" else JoinLines(SavedLines(nodes, scene[..i], fmt)) + (if i < |scene| then "\n" else "")
  }

  /** Writing the line of scene position `i` extends the prefix by one line. */
  lemma SavedPrefixStep(nodes: seq<SceneObject>, scene: seq<nat>, i: nat, fmt: real -> string)
    requires ParentsBelow(nodes) && InHeap(nodes, scene) && 1 <= i < |scene|
    ensures SavedPrefix(nodes, scene, i + 1, fmt)
            == SavedPrefix(nodes, scene, i, fmt) + SavedLine(nodes, scene[i], fmt) + (if i < |scene| - 1 then "\n" else "")
  {
    SavedLinesSnoc(nodes, scene, i, fmt);
    var ls, l := SavedLines(nodes, scene[..i], fmt), SavedLine(nodes, scene[i], fmt);
    if i == 1 {
      assert ls + [l] == [l];
    } else {
      JoinLinesSnoc(ls, l);
    }
  }

  /** After the last scene position the prefix is the whole saved text. */
  lemma SavedPrefixWhole(nodes: seq<SceneObject>, scene: seq<nat>, fmt: real -> string)
    requires ParentsBelow(nodes) && InHeap(nodes, scene) && |scene| >= 2
    ensures SavedPrefix(nodes, scene, |scene|, fmt) == JoinLines(SavedLines(nodes, scene, fmt))
  {
    assert scene[..|scene|] == scene;
  }

  /** Line `k` of a saved scene is the line of scene object `k + 1`. */
  lemma SavedLineAt(nodes: seq<SceneObject>, scene: seq<nat>, fmt: real -> string, k: nat)
    requires ParentsBelow(nodes) && InHeap(nodes, scene) && k + 1 < |scene|
    ensures SavedLines(nodes, scene, fmt)[k] == SavedLine(nodes, scene[k + 1], fmt)
  {
  }

  /** Some scene object after the ground plane is a root. */
  predicate HasRoot(nodes: seq<SceneObject>, scene: seq<nat>)
    requires InHeap(nodes, scene)
  {
    exists i | 1 <= i < |scene| :: nodes[scene[i]].parent.None?
  }

  /** The file saveToFile writes, or None when it refuses because there is no root. */
  function SavedFile(nodes: seq<SceneObject>, scene: seq<nat>, fmt: real -> string): (file: Option<string>)
    requires ParentsBelow(nodes) && InHeap(nodes, scene) && |scene| >= 1
    ensures file.Some? <==> HasRoot(nodes, scene)
  {
    if HasRoot(nodes, scene) then Some(JoinLines(SavedLines(nodes, scene, fmt))) else None
  }

  /**
   * A saved scene reads back: the file splits into one non-empty line per scene object
   * after the ground plane, loadFromFile reads all of them, and each gives back the
   * object's name, its rounded rotation and position, and its parent's name; provided
   * every saved name is a single word ending in a digit, every saved parent's name a
   * single word, and the text of every rounded value reads back. The ground plane, never saved, may be
   * named anything.
   */
  lemma SavedSceneReadsBack(nodes: seq<SceneObject>, scene: seq<nat>, fmt: real -> string, stof: string -> real)
    requires ParentsBelow(nodes) && InHeap(nodes, scene) && |scene| >= 1 && HasRoot(nodes, scene)
    requires forall i | 1 <= i < |scene| :: Writable(nodes, scene[i])
    requires NumbersReadBack(fmt, stof)
    ensures var lines := Lines(SavedFile(nodes, scene, fmt).value);
            && |lines| == |scene| - 1 && LoadCount(lines) == |lines|
            && forall k | 0 <= k < |lines| ::
                 var x := scene[k + 1];
                 && Readable(lines[k])
                 && ParseLine(lines[k], stof)
                    == JointRecord(nodes[x].name, RoundVec(nodes[x].rotation), RoundVec(nodes[x].position),
                                   ParentName(nodes, x))
  {
    var ls := SavedLines(nodes, scene, fmt);
    SavedLinesReadBack(nodes, scene, fmt, stof);
    assert SavedFile(nodes, scene, fmt).value == JoinLines(ls);
    LinesOfJoin(ls);
  }

  /** Every saved line holds no newline and reads back as its object's record. */
  lemma SavedLinesReadBack(nodes: seq<SceneObject>, scene: seq<nat>, fmt: real -> string, stof: string -> real)
    requires ParentsBelow(nodes) && InHeap(nodes, scene) && |scene| >= 1
    requires forall i | 1 <= i < |scene| :: Writable(nodes, scene[i])
    requires NumbersReadBack(fmt, stof)
    ensures var ls := SavedLines(nodes, scene, fmt);
            forall k | 0 <= k < |ls| ::
              var x := scene[k + 1];
              && NoNewline(ls[k]) && ls[k] != [] && Readable(ls[k])
              && ParseLine(ls[k], stof)
                 == JointRecord(nodes[x].name, RoundVec(nodes[x].rotation), RoundVec(nodes[x].position),
                                ParentName(nodes, x))
  {
    var ls := SavedLines(nodes, scene, fmt);
    forall k | 0 <= k < |ls|
      ensures var x := scene[k + 1];
              && NoNewline(ls[k]) && ls[k] != [] && Readable(ls[k])
              && ParseLine(ls[k], stof)
                 == JointRecord(nodes[x].name, RoundVec(nodes[x].rotation), RoundVec(nodes[x].position),
                                ParentName(nodes, x))
    {
      SavedLineAt(nodes, scene, fmt, k);
      SavedLineReadsBack(nodes, scene[k + 1], fmt, stof);
    }
  }

  /** One saved line holds no newline and reads back as the object's record. */
  lemma SavedLineReadsBack(nodes: seq<SceneObject>, x: nat, fmt: real -> string, stof: string -> real)
    requires ParentsBelow(nodes) && x < |nodes|
    requires Writable(nodes, x)
    requires NumbersReadBack(fmt, stof)
    ensures var line := SavedLine(nodes, x, fmt);
            && NoNewline(line) && line != [] && Readable(line)
            && ParseLine(line, stof)
               == JointRecord(nodes[x].name, RoundVec(nodes[x].rotation), RoundVec(nodes[x].position),
                              ParentName(nodes, x))
  {
    var o, pn := nodes[x], ParentName(nodes, x);
    ParentNameHasNoSpace(nodes, x);
    SaveLineIsOneLine(o.name, o.rotation, o.position, pn, fmt);
    ParseSaveLine(o.name, o.rotation, o.position, pn, fmt, stof);
  }

  lemma ParentNameHasNoSpace(nodes: seq<SceneObject>, x: nat)
    requires ParentsBelow(nodes) && x < |nodes| && Writable(nodes, x)
    ensures var pn := ParentName(nodes, x); forall i | 0 <= i < |pn| :: !IsSpace(pn[i])
  {
    if nodes[x].parent.Some? {
      assert IsWord(nodes[nodes[x].parent.value].name);
    }
  }

  /**
   * The line saved for heap object `x` reads back: its name is a single word ending in a
   * digit, and so is its parent's name a single word, when it has a parent.
   */
  predicate Writable(nodes: seq<SceneObject>, x: nat)
    requires ParentsBelow(nodes) && x < |nodes|
  {
    var o := nodes[x];
    && IsWord(o.name) && EndsInDigit(o.name)
    && (o.parent.Some? ==> IsWord(nodes[o.parent.value].name))
  }

  // ---------------------------------------------------------------- loading

  /** The records of the first `n` lines. */
  function Records(lines: seq<string>, n: nat, stof: string -> real): (recs: seq<JointRecord>)
    requires n <= |lines| && forall k | 0 <= k < n :: Readable(lines[k])
    ensures |recs| == n
    ensures forall k | 0 <= k < n :: EndsInDigit(recs[k].name)
  {
    seq(n, k requires 0 <= k < n => ParseLine(lines[k], stof))
  }

  /** The joint names of the records, in order. */
  function Names(recs: seq<JointRecord>): (names: seq<string>)
    ensures |names| == |recs| && forall k | 0 <= k < |recs| :: names[k] == recs[k].name
  {
    seq(|recs|, k requires 0 <= k < |recs| => recs[k].name)
  }

  /** Record `m` names record `k` as its parent. */
  predicate Links(recs: seq<JointRecord>, m: nat, k: nat)
    requires m < |recs| && k < |recs|
  {
    recs[m].parentName != [] && recs[k].name == recs[m].parentName
  }

  /** The last of the first `upto` records with the given name. */
  function LastNamed(recs: seq<JointRecord>, upto: nat, name: string): (r: Option<nat>)
    requires upto <= |recs|
    ensures r.Some? ==> r.value < upto && recs[r.value].name == name
    ensures r.Some? ==> forall j | r.value < j < upto :: recs[j].name != name
    ensures r.None? ==> forall j | 0 <= j < upto :: recs[j].name != name
    decreases upto
  {
    if upto == 0 then None
    else if recs[upto - 1].name == name then Some(upto - 1)
    else LastNamed(recs, upto - 1, name)
  }

  /**
   * The parent of the joint loaded from record `k`: every earlier joint with the parent's
   * name adopts it in turn, so the last of them is its parent; with no such joint, or no
   * parent name, it is a root. Record `j` is loaded at heap index base + 1 + j.
   */
  function ParentIndex(recs: seq<JointRecord>, k: nat, base: nat): Option<nat>
    requires k < |recs|
  {
    if recs[k].parentName == [] then None else ParentAmong(recs, k, recs[k].parentName, base)
  }

  /** The heap index of the last of the first `upto` records with the given name, if any. */
  function ParentAmong(recs: seq<JointRecord>, upto: nat, name: string, base: nat): Option<nat>
    requires upto <= |recs|
  {
    match LastNamed(recs, upto, name)
    case None => None
    case Some(j) => Some(base + 1 + j)
  }

  /** The children the joint of record `k` has after the first `n` records are loaded. */
  function ChildIndices(recs: seq<JointRecord>, n: nat, k: nat, base: nat): (cs: seq<nat>)
    requires k < n <= |recs|
    ensures forall i | 0 <= i < |cs| :: base + 1 + k < cs[i] < base + 1 + n && Links(recs, cs[i] - base - 1, k)
    ensures forall i, j | 0 <= i < j < |cs| :: cs[i] < cs[j]
    ensures forall m | k < m < n :: Links(recs, m, k) ==> base + 1 + m in cs
    decreases n
  {
    if n == k + 1 then []
    else ChildIndices(recs, n - 1, k, base) + (if Links(recs, n - 1, k) then [base + n] else [])
  }

  /** Loading record `n` adds it to the children of record `k` exactly when it names `k` as its parent. */
  lemma ChildIndicesStep(recs: seq<JointRecord>, n: nat, k: nat, base: nat)
    requires k < n < |recs|
    ensures ChildIndices(recs, n + 1, k, base)
            == ChildIndices(recs, n, k, base) + (if Links(recs, n, k) then [base + 1 + n] else [])
  {
  }

  /** The joint loaded from record `k`, once the first `n` records are loaded. */
  function LoadedJoint(recs: seq<JointRecord>, n: nat, k: nat, base: nat, radius: real): SceneObject
    requires k < n <= |recs|
  {
    NewJointAt(recs[k].position, radius).(name := recs[k].name, rotation := recs[k].rotation,
                                          parent := ParentIndex(recs, k, base),
                                          childList := ChildIndices(recs, n, k, base))
  }

  /** The joints loaded from the first `n` records, to be placed from heap index base + 1 on. */
  function LoadedPrefix(recs: seq<JointRecord>, n: nat, base: nat, radius: real): (r: seq<SceneObject>)
    requires n <= |recs|
    ensures |r| == n
  {
    seq(n, k requires 0 <= k < n => LoadedJoint(recs, n, k, base, radius))
  }

  /** The joints loaded from all the records. */
  function LoadedNodes(recs: seq<JointRecord>, base: nat, radius: real): (r: seq<SceneObject>)
    ensures |r| == |recs|
  {
    LoadedPrefix(recs, |recs|, base, radius)
  }

  /** The scene after loading `n` records: the ground plane at `base`, then the joints in file order. */
  function LoadedScene(base: nat, n: nat): (scene: seq<nat>)
    ensures |scene| == n + 1 && scene[0] == base
    ensures forall k | 1 <= k <= n :: scene[k] == base + k
    ensures Increasing(scene)
  {
    [base] + seq(n, k requires 0 <= k < n => base + 1 + k)
  }

  /** Pushing the next loaded joint onto the scene. */
  lemma LoadedSceneSnoc(base: nat, n: nat)
    ensures LoadedScene(base, n) + [base + 1 + n] == LoadedScene(base, n + 1)
  {
    var a, b := LoadedScene(base, n) + [base + 1 + n], LoadedScene(base, n + 1);
    assert forall k | 0 <= k < |b| :: a[k] == b[k];
  }

  /** `new Joint(lPos, radius)` with the name and rotation of the record, before any link. */
  function FreshJoint(rec: JointRecord, radius: real): SceneObject
  {
    NewJointAt(rec.position, radius).(name := rec.name, rotation := rec.rotation)
  }

  /**
   * The link loop of loadFromFile, over the scene entries 1 .. j-1: every entry named
   * `name` adopts the new joint `c`.
   */
  function LinkedUnder(nodes: seq<SceneObject>, scene: seq<nat>, j: nat, c: nat, name: string): (r: seq<SceneObject>)
    requires c < |nodes| && InHeap(nodes, scene) && j <= |scene|
    ensures |r| == |nodes|
    decreases j
  {
    if j <= 1 then nodes else LinkOne(LinkedUnder(nodes, scene, j - 1, c, name), scene[j - 1], c, name)
  }

  /** One turn of the link loop: the object at `x` adopts `c` when it carries the name `name`. */
  function LinkOne(nodes: seq<SceneObject>, x: nat, c: nat, name: string): (r: seq<SceneObject>)
    requires x < |nodes| && c < |nodes|
    ensures |r| == |nodes|
  {
    if nodes[x].name == name then Linked(nodes, x, c) else nodes
  }

  /**
   * The heap while record `n` is being linked, once the scene entries before `j` were
   * visited: the earlier joints visited so far list the new one when they carry its
   * parent's name, and its parent is the last of them.
   */
  function Midway(nodes: seq<SceneObject>, recs: seq<JointRecord>, n: nat, j: nat, radius: real): (r: seq<SceneObject>)
    requires n < |recs| && 1 <= j <= n + 1
    ensures |r| == |nodes| + n + 2
  {
    var base := |nodes|;
    nodes + [GroundPlane()]
    + seq(n, k requires 0 <= k < n => LoadedJoint(recs, if k + 1 < j then n + 1 else n, k, base, radius))
    + [FreshJoint(recs[n], radius).(parent := ParentAmong(recs, j - 1, recs[n].parentName, base))]
  }

  /** Where the link loop starts: the loaded prefix with the fresh joint appended. */
  lemma MidwayStart(nodes: seq<SceneObject>, recs: seq<JointRecord>, n: nat, radius: real)
    requires n < |recs|
    ensures Midway(nodes, recs, n, 1, radius)
            == nodes + [GroundPlane()] + LoadedPrefix(recs, n, |nodes|, radius) + [FreshJoint(recs[n], radius)]
  {
  }

  /** Where the link loop ends: the loaded prefix one record longer. */
  lemma MidwayEnd(nodes: seq<SceneObject>, recs: seq<JointRecord>, n: nat, radius: real)
    requires n < |recs| && recs[n].parentName != []
    ensures Midway(nodes, recs, n, n + 1, radius) == nodes + [GroundPlane()] + LoadedPrefix(recs, n + 1, |nodes|, radius)
  {
    var a, b := Midway(nodes, recs, n, n + 1, radius), nodes + [GroundPlane()] + LoadedPrefix(recs, n + 1, |nodes|, radius);
    assert a[|nodes| + 1 + n] == b[|nodes| + 1 + n];
  }

  /** Without a parent name the loop is skipped, and the fresh joint completes the prefix as it is. */
  lemma LoadWithoutParent(nodes: seq<SceneObject>, recs: seq<JointRecord>, n: nat, radius: real)
    requires n < |recs| && recs[n].parentName == []
    ensures Midway(nodes, recs, n, 1, radius) == nodes + [GroundPlane()] + LoadedPrefix(recs, n + 1, |nodes|, radius)
  {
    var base := |nodes|;
    var a, b := Midway(nodes, recs, n, 1, radius), nodes + [GroundPlane()] + LoadedPrefix(recs, n + 1, base, radius);
    forall i | 0 <= i < |a| ensures a[i] == b[i] {
      if i <= base {
        assert a[i] == b[i];
      } else if i <= base + n {
        var k := i - base - 1;
        assert a[i] == LoadedJoint(recs, n, k, base, radius);
        assert b[i] == LoadedJoint(recs, n + 1, k, base, radius);
        assert !Links(recs, n, k);
        assert ChildIndices(recs, n + 1, k, base) == ChildIndices(recs, n, k, base);
      } else if i == base + 1 + n {
        assert ChildIndices(recs, n + 1, n, base) == [];
        assert a[i] == FreshJoint(recs[n], radius).(parent := None);
      }
    }
  }

  /** The link loop takes the heap from the start of Midway to any later point of it. */
  lemma {:induction false} LinkedUnderMidway(nodes: seq<SceneObject>, recs: seq<JointRecord>, n: nat, j: nat, radius: real)
    requires n < |recs| && 1 <= j <= n + 1 && recs[n].parentName != []
    ensures var base := |nodes|;
            LinkedUnder(Midway(nodes, recs, n, 1, radius), LoadedScene(base, n), j, base + 1 + n, recs[n].parentName)
            == Midway(nodes, recs, n, j, radius)
    decreases j
  {
    if j > 1 {
      var base, start := |nodes|, Midway(nodes, recs, n, 1, radius);
      var scene, c, name := LoadedScene(base, n), base + 1 + n, recs[n].parentName;
      LinkedUnderMidway(nodes, recs, n, j - 1, radius);
      assert scene[j - 1] == base + j - 1;
      LinkStep(nodes, recs, n, j - 1, radius);
    }
  }

  /** One turn of the link loop, on scene entry `j`, which holds record j - 1. */
  lemma LinkStep(nodes: seq<SceneObject>, recs: seq<JointRecord>, n: nat, j: nat, radius: real)
    requires n < |recs| && 1 <= j <= n && recs[n].parentName != []
    ensures var base := |nodes|;
            LinkOne(Midway(nodes, recs, n, j, radius), base + j, base + 1 + n, recs[n].parentName)
            == Midway(nodes, recs, n, j + 1, radius)
  {
    var base, prev := |nodes|, Midway(nodes, recs, n, j, radius);
    assert prev[base + j] == LoadedJoint(recs, n, j - 1, base, radius);
    if Links(recs, n, j - 1) {
      LinkAdopts(nodes, recs, n, j, radius);
    } else {
      LinkSkips(nodes, recs, n, j, radius);
    }
  }

  /** The turn of the link loop on a joint carrying the parent's name: it adopts the new joint. */
  lemma LinkAdopts(nodes: seq<SceneObject>, recs: seq<JointRecord>, n: nat, j: nat, radius: real)
    requires n < |recs| && 1 <= j <= n && Links(recs, n, j - 1)
    ensures var base := |nodes|;
            Linked(Midway(nodes, recs, n, j, radius), base + j, base + 1 + n) == Midway(nodes, recs, n, j + 1, radius)
  {
    var base, prev := |nodes|, Midway(nodes, recs, n, j, radius);
    var c := base + 1 + n;
    var after := Midway(nodes, recs, n, j + 1, radius);
    var p := base + j;
    AdoptedEntries(nodes, recs, n, j, radius);
    var next := prev[p := prev[p].(childList := prev[p].childList + [c])][c := prev[c].(parent := Some(p))];
    forall i | 0 <= i < |after| ensures next[i] == after[i] {
      if i != p && i != c {
        MidwayKeeps(nodes, recs, n, j, radius, i);
      }
    }
    assert next == after;
  }

  /** Where the adopting turn changes the heap: the parent's child list and the child's parent. */
  lemma AdoptedEntries(nodes: seq<SceneObject>, recs: seq<JointRecord>, n: nat, j: nat, radius: real)
    requires n < |recs| && 1 <= j <= n && Links(recs, n, j - 1)
    ensures var base, c := |nodes|, |nodes| + 1 + n;
            var prev, after := Midway(nodes, recs, n, j, radius), Midway(nodes, recs, n, j + 1, radius);
            && after[base + j] == prev[base + j].(childList := prev[base + j].childList + [c])
            && after[c] == prev[c].(parent := Some(base + j))
  {
    var base, c := |nodes|, |nodes| + 1 + n;
    var prev, after := Midway(nodes, recs, n, j, radius), Midway(nodes, recs, n, j + 1, radius);
    assert prev[base + j] == LoadedJoint(recs, n, j - 1, base, radius);
    assert after[base + j] == LoadedJoint(recs, n + 1, j - 1, base, radius);
    ChildIndicesStep(recs, n, j - 1, base);
    assert LastNamed(recs, j, recs[n].parentName) == Some(j - 1);
    assert prev[c] == FreshJoint(recs[n], radius).(parent := ParentAmong(recs, j - 1, recs[n].parentName, base));
  }

  /** A turn of the link loop leaves every entry but the visited joint and the new one as it was. */
  lemma MidwayKeeps(nodes: seq<SceneObject>, recs: seq<JointRecord>, n: nat, j: nat, radius: real, i: nat)
    requires n < |recs| && 1 <= j <= n && i < |nodes| + n + 2 && i != |nodes| + j && i != |nodes| + 1 + n
    ensures Midway(nodes, recs, n, j + 1, radius)[i] == Midway(nodes, recs, n, j, radius)[i]
  {
  }

  /** The turn of the link loop on a joint with another name: nothing changes. */
  lemma LinkSkips(nodes: seq<SceneObject>, recs: seq<JointRecord>, n: nat, j: nat, radius: real)
    requires n < |recs| && 1 <= j <= n && recs[n].parentName != [] && !Links(recs, n, j - 1)
    ensures Midway(nodes, recs, n, j, radius) == Midway(nodes, recs, n, j + 1, radius)
  {
    var base, prev := |nodes|, Midway(nodes, recs, n, j, radius);
    var name, c := recs[n].parentName, base + 1 + n;
    var after := Midway(nodes, recs, n, j + 1, radius);
    assert prev[base + j] == after[base + j] by {
      assert prev[base + j] == LoadedJoint(recs, n, j - 1, base, radius);
      assert after[base + j] == LoadedJoint(recs, n + 1, j - 1, base, radius);
      ChildIndicesStep(recs, n, j - 1, base);
    }
    assert prev[c] == after[c] by {
      assert LastNamed(recs, j, name) == LastNamed(recs, j - 1, name);
    }
    forall i | 0 <= i < |after| ensures prev[i] == after[i] {
    }
  }

  /** A joint's parent lists it among its children, and the parent carries the name it was saved with. */
  lemma LoadedLinksAgree(recs: seq<JointRecord>, k: nat, base: nat)
    requires k < |recs| && ParentIndex(recs, k, base).Some?
    ensures var p := ParentIndex(recs, k, base).value;
            && base < p < base + 1 + k
            && recs[p - base - 1].name == recs[k].parentName
            && base + 1 + k in ChildIndices(recs, |recs|, p - base - 1, base)
  {
    var j := LastNamed(recs, k, recs[k].parentName).value;
    assert Links(recs, k, j);
  }

  /** Loading keeps the heap ordered: the loaded joints only link to each other, older to newer. */
  lemma LoadedKeepsOrder(nodes: seq<SceneObject>, recs: seq<JointRecord>, radius: real)
    requires Topological(nodes)
    ensures Topological(nodes + [GroundPlane()] + LoadedNodes(recs, |nodes|, radius))
  {
    var all := nodes + [GroundPlane()] + LoadedNodes(recs, |nodes|, radius);
    var base := |nodes|;
    forall i | 0 <= i < |all| && all[i].parent.Some?
      ensures all[i].parent.value < i
    {
      if i > base {
        assert all[i] == LoadedJoint(recs, |recs|, i - base - 1, base, radius);
      }
    }
    forall i, k | 0 <= i < |all| && 0 <= k < |all[i].childList|
      ensures i < all[i].childList[k] < |all|
    {
      if i > base {
        assert all[i] == LoadedJoint(recs, |recs|, i - base - 1, base, radius);
      }
    }
  }

  /** A loaded scene fits its heap: the heap stays ordered and holds every scene entry. */
  lemma LoadedSceneFits(nodes: seq<SceneObject>, recs: seq<JointRecord>, radius: real)
    requires Topological(nodes)
    ensures var all := nodes + [GroundPlane()] + LoadedNodes(recs, |nodes|, radius);
            && Topological(all) && |all| == |nodes| + 1 + |recs|
            && InHeap(all, LoadedScene(|nodes|, |recs|))
  {
    LoadedKeepsOrder(nodes, recs, radius);
  }

  // ---------------------------------------------------------------- saving, then loading

  /** The record `LastNamed` finds is the only one with that name. */
  lemma LastNamedOfUnique(recs: seq<JointRecord>, upto: nat, m: nat)
    requires m < upto <= |recs|
    requires forall j | 0 <= j < upto && j != m :: recs[j].name != recs[m].name
    ensures LastNamed(recs, upto, recs[m].name) == Some(m)
  {
  }

  /**
   * Saving and then loading gives every saved joint back with its name, its rounded pose
   * and its parent, now at the heap index of the parent's reloaded copy: provided the
   * saved names are distinct single words ending in a digit, every parent is itself saved, the
   * scene lists objects in creation order, and the text of every rounded value reads back.
   */
  lemma SaveThenLoad(nodes: seq<SceneObject>, scene: seq<nat>, fmt: real -> string, stof: string -> real,
                     base: nat, radius: real)
    requires ParentsBelow(nodes) && InHeap(nodes, scene) && |scene| >= 1 && HasRoot(nodes, scene)
    requires Increasing(scene)
    requires forall i | 1 <= i < |scene| :: Writable(nodes, scene[i])
    requires forall i, j | 1 <= i < j < |scene| :: nodes[scene[i]].name != nodes[scene[j]].name
    requires forall i | 1 <= i < |scene| :: ParentSaved(nodes, scene, i)
    requires NumbersReadBack(fmt, stof)
    ensures var lines := Lines(SavedFile(nodes, scene, fmt).value);
            LoadCount(lines) == |scene| - 1 && forall k | 0 <= k < |scene| - 1 :: Readable(lines[k])
    ensures var lines := Lines(SavedFile(nodes, scene, fmt).value);
            var loaded := LoadedNodes(Records(lines, LoadCount(lines), stof), base, radius);
            && |loaded| == |scene| - 1
            && forall k | 0 <= k < |loaded| :: Reloaded(nodes, scene, k + 1, loaded[k], base)
  {
    SavedRecords(nodes, scene, fmt, stof);
    var lines := Lines(SavedFile(nodes, scene, fmt).value);
    var recs := Records(lines, LoadCount(lines), stof);
    assert forall k | 0 <= k < |recs| :: SavedAs(nodes, scene, recs, k);
    ReloadedAll(nodes, scene, recs, base, radius);
  }

  /** The parent of the i-th scene object, if it has one, is saved too. */
  predicate ParentSaved(nodes: seq<SceneObject>, scene: seq<nat>, i: nat)
    requires InHeap(nodes, scene) && i < |scene|
  {
    nodes[scene[i]].parent.Some? ==> nodes[scene[i]].parent.value in scene[1..]
  }

  /** Every joint loaded from the saved records is its scene object, reloaded. */
  lemma ReloadedAll(nodes: seq<SceneObject>, scene: seq<nat>, recs: seq<JointRecord>, base: nat, radius: real)
    requires ParentsBelow(nodes) && InHeap(nodes, scene) && Increasing(scene) && |scene| >= 1
    requires forall i | 1 <= i < |scene| :: Writable(nodes, scene[i])
    requires forall i | 1 <= i < |scene| :: ParentSaved(nodes, scene, i)
    requires |recs| == |scene| - 1 && forall k | 0 <= k < |recs| :: SavedAs(nodes, scene, recs, k)
    requires forall k | 0 <= k < |recs| :: recs[k].name == nodes[scene[k + 1]].name
    requires forall a, b | 0 <= a < b < |recs| :: recs[a].name != recs[b].name
    ensures forall k | 0 <= k < |recs| :: Reloaded(nodes, scene, k + 1, LoadedNodes(recs, base, radius)[k], base)
  {
    forall k | 0 <= k < |recs|
      ensures Reloaded(nodes, scene, k + 1, LoadedNodes(recs, base, radius)[k], base)
    {
      assert SavedAs(nodes, scene, recs, k);
      ReloadedParent(nodes, scene, recs, k + 1, base, radius);
    }
  }

  /** Record `k` is the one saved for scene object `k + 1`. */
  predicate SavedAs(nodes: seq<SceneObject>, scene: seq<nat>, recs: seq<JointRecord>, k: nat)
    requires ParentsBelow(nodes) && InHeap(nodes, scene) && k + 1 < |scene| && k < |recs|
  {
    recs[k] == SavedRecord(nodes, scene[k + 1])
  }

  /** The records read back from a saved scene: one per saved object, with distinct names. */
  lemma SavedRecords(nodes: seq<SceneObject>, scene: seq<nat>, fmt: real -> string, stof: string -> real)
    requires ParentsBelow(nodes) && InHeap(nodes, scene) && |scene| >= 1 && HasRoot(nodes, scene)
    requires forall i | 1 <= i < |scene| :: Writable(nodes, scene[i])
    requires forall i, j | 1 <= i < j < |scene| :: nodes[scene[i]].name != nodes[scene[j]].name
    requires NumbersReadBack(fmt, stof)
    ensures var lines := Lines(SavedFile(nodes, scene, fmt).value);
            && LoadCount(lines) == |scene| - 1 && (forall k | 0 <= k < |scene| - 1 :: Readable(lines[k]))
            && var recs := Records(lines, LoadCount(lines), stof);
               && (forall k | 0 <= k < |recs| :: recs[k] == SavedRecord(nodes, scene[k + 1]))
               && (forall k | 0 <= k < |recs| :: recs[k].name == nodes[scene[k + 1]].name)
               && (forall a, b | 0 <= a < b < |recs| :: recs[a].name != recs[b].name)
  {
    SavedSceneReadsBack(nodes, scene, fmt, stof);
    var lines := Lines(SavedFile(nodes, scene, fmt).value);
    var recs := Records(lines, LoadCount(lines), stof);
    assert forall k | 0 <= k < |recs| :: recs[k] == SavedRecord(nodes, scene[k + 1]);
    forall a, b | 0 <= a < b < |recs| ensures recs[a].name != recs[b].name {
      assert recs[a].name == nodes[scene[a + 1]].name && recs[b].name == nodes[scene[b + 1]].name;
    }
  }

  /** The record a saved object reads back as. */
  function SavedRecord(nodes: seq<SceneObject>, x: nat): JointRecord
    requires x < |nodes| && ParentsBelow(nodes)
  {
    JointRecord(nodes[x].name, RoundVec(nodes[x].rotation), RoundVec(nodes[x].position), ParentName(nodes, x))
  }

  /**
   * `l`, loaded from the line saved for the i-th scene object, has that object's name,
   * rounded pose, and its parent's position in the scene, offset by the heap index the
   * reloaded scene starts at.
   */
  predicate Reloaded(nodes: seq<SceneObject>, scene: seq<nat>, i: nat, l: SceneObject, base: nat)
    requires InHeap(nodes, scene) && i < |scene| && ParentSaved(nodes, scene, i)
  {
    var o := nodes[scene[i]];
    && l.name == o.name && l.rotation == RoundVec(o.rotation) && l.position == RoundVec(o.position)
    && l.parent == (if o.parent.None? then None else Some(base + IndexOf(scene, o.parent.value)))
  }

  /** One joint of SaveThenLoad, from its records. */
  lemma ReloadedParent(nodes: seq<SceneObject>, scene: seq<nat>, recs: seq<JointRecord>, i: nat, base: nat, radius: real)
    requires ParentsBelow(nodes) && InHeap(nodes, scene) && Increasing(scene) && 1 <= i < |scene|
    requires forall i | 1 <= i < |scene| :: Writable(nodes, scene[i])
    requires ParentSaved(nodes, scene, i)
    requires |recs| == |scene| - 1 && recs[i - 1] == SavedRecord(nodes, scene[i])
    requires forall k | 0 <= k < |recs| :: recs[k].name == nodes[scene[k + 1]].name
    requires forall a, b | 0 <= a < b < |recs| :: recs[a].name != recs[b].name
    ensures Reloaded(nodes, scene, i, LoadedNodes(recs, base, radius)[i - 1], base)
  {
    var o := nodes[scene[i]];
    var l := LoadedNodes(recs, base, radius)[i - 1];
    assert l == LoadedJoint(recs, |recs|, i - 1, base, radius);
    var t := ParentIndexOfSaved(nodes, scene, recs, i, base);
    if o.parent.Some? {
      IndexOfIncreasing(scene, t);
    }
  }

  /** The parent a reloaded joint gets: its saved parent's place `t` in the scene, offset by `base`. */
  lemma ParentIndexOfSaved(nodes: seq<SceneObject>, scene: seq<nat>, recs: seq<JointRecord>, i: nat, base: nat)
      returns (t: nat)
    requires ParentsBelow(nodes) && InHeap(nodes, scene) && Increasing(scene) && 1 <= i < |scene|
    requires forall i | 1 <= i < |scene| :: Writable(nodes, scene[i])
    requires nodes[scene[i]].parent.Some? ==> nodes[scene[i]].parent.value in scene[1..]
    requires |recs| == |scene| - 1 && forall k | 0 <= k < |recs| :: recs[k].name == nodes[scene[k + 1]].name
    requires recs[i - 1].parentName == ParentName(nodes, scene[i])
    requires forall a, b | 0 <= a < b < |recs| :: recs[a].name != recs[b].name
    ensures var o := nodes[scene[i]];
            && (o.parent.None? ==> ParentIndex(recs, i - 1, base) == None)
            && (o.parent.Some? ==> t < |scene| && scene[t] == o.parent.value && ParentIndex(recs, i - 1, base) == Some(base + t))
  {
    var o := nodes[scene[i]];
    t := 0;
    if o.parent.Some? {
      var p := o.parent.value;
      var s := ScenePosition(scene, i, p);
      assert recs[s].name == nodes[p].name;
      assert Writable(nodes, scene[i]);
      ParentOfReloaded(recs, i - 1, s, base);
      t := s + 1;
    } else {
      assert recs[i - 1].parentName == [];
    }
  }

  /** A saved parent older than the i-th scene entry sits at an earlier place in the scene, after the ground plane. */
  lemma ScenePosition(scene: seq<nat>, i: nat, p: nat) returns (t: nat)
    requires Increasing(scene) && 1 <= i < |scene| && p in scene[1..] && p < scene[i]
    ensures t + 1 < i && scene[t + 1] == p
  {
    t := IndexOf(scene[1..], p);
    assert scene[t + 1] == p;
    IncreasingOrder(scene, t + 1, i);
  }

  /** With distinct record names, a joint's parent is the one record carrying its parent's name. */
  lemma ParentOfReloaded(recs: seq<JointRecord>, m: nat, q: nat, base: nat)
    requires q < m < |recs| && forall a, b | 0 <= a < b < |recs| :: recs[a].name != recs[b].name
    requires recs[m].parentName == recs[q].name != []
    ensures ParentIndex(recs, m, base) == Some(base + 1 + q)
  {
    forall j | 0 <= j < m && j != q ensures recs[j].name != recs[q].name {
      if j < q {
        assert recs[j].name != recs[q].name;
      } else {
        assert recs[q].name != recs[j].name;
      }
    }
    LastNamedOfUnique(recs, m, q);
  }
}
