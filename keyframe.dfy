// The two-pose keyframe animator (class Keyframe of ofApp.h).
//
// It tracks a list of scene objects with a start and an end pose each, snaps them to one
// pose when a playback is staged, and moves them towards the other pose frame by frame
// with an easing coefficient. Tracked objects are arena indices; their poses are written
// in the arena, as the program writes them through its pointers.
module Keyframes {
  import opened Common
  import opened Geometry
  import opened Primitives

  class Keyframe {
    const frameRate: real := 60.0
    var duration: real
    var frameNumber: nat
    var addedNodes: seq<nat>

    // start and end poses, parallel to addedNodes
    var nStartPos: seq<Vec3>
    var nEndPos: seq<Vec3>
    var nStartRot: seq<Vec3>
    var nEndRot: seq<Vec3>

    // per-frame steps, computed by SetTheStage
    var deltaPos: seq<Vec3>
    var deltaRot: seq<Vec3>

    /** The pose vectors run parallel to addedNodes, and no object is tracked twice. */
    ghost predicate Valid()
      reads this
    {
      && |nStartPos| == |addedNodes|
      && |nStartRot| == |addedNodes|
      && |nEndPos| == |addedNodes|
      && |nEndRot| == |addedNodes|
      && Distinct(addedNodes)
    }

    /** Every tracked object is an allocated scene object. */
    ghost predicate TracksWithin(arena: Arena)
      reads this, arena
    {
      forall k | 0 <= k < |addedNodes| :: addedNodes[k] < |arena.nodes|
    }

    constructor ()
      ensures Valid()
      ensures duration == 1.0 && frameNumber == 0
      ensures addedNodes == [] && nStartPos == [] && nEndPos == [] && nStartRot == [] && nEndRot == []
      ensures deltaPos == [] && deltaRot == []
    {
      duration := 1.0;
      frameNumber := 0;
      addedNodes := [];
      nStartPos, nEndPos, nStartRot, nEndRot := [], [], [], [];
      deltaPos, deltaRot := [], [];
    }

    /**
     * getIndex: the position of `obj` in addedNodes, or -1 when it is not tracked. The
     * loop has no break, so of several matches the last one would win.
     */
    method GetIndex(obj: nat) returns (index: int)
      ensures index == -1 <==> obj !in addedNodes
      ensures index != -1 ==> 0 <= index < |addedNodes| && addedNodes[index] == obj
      ensures index != -1 ==> obj !in addedNodes[index + 1..]
    {
      index := -1;
      var i := 0;
      while i < |addedNodes|
        invariant 0 <= i <= |addedNodes|
        invariant index == -1 <==> obj !in addedNodes[..i]
        invariant index != -1 ==> 0 <= index < i && addedNodes[index] == obj
        invariant index != -1 ==> obj !in addedNodes[index + 1..i]
      {
        if obj == addedNodes[i] {
          index := i;
        }
        i := i + 1;
      }
      assert addedNodes[..i] == addedNodes;
    }

    /**
     * setStartValues: an untracked object is appended with its current pose as both its
     * start and its end pose; a tracked one has only its start pose overwritten.
     */
    method SetStartValues(obj: nat, arena: Arena)
      requires Valid() && obj < |arena.nodes|
      modifies this`addedNodes, this`nStartPos, this`nStartRot, this`nEndPos, this`nEndRot
      ensures Valid()
      ensures var o := arena.nodes[obj];
              old(obj !in addedNodes) ==>
                && addedNodes == old(addedNodes) + [obj]
                && nStartPos == old(nStartPos) + [o.position] && nStartRot == old(nStartRot) + [o.rotation]
                && nEndPos == old(nEndPos) + [o.position] && nEndRot == old(nEndRot) + [o.rotation]
      ensures var o := arena.nodes[obj];
              old(obj in addedNodes) ==>
                && addedNodes == old(addedNodes)
                && |nStartPos| == |addedNodes| && |nStartRot| == |addedNodes|
                && (forall k | 0 <= k < |addedNodes| ::
                      && nStartPos[k] == (if addedNodes[k] == obj then o.position else old(nStartPos[k]))
                      && nStartRot[k] == (if addedNodes[k] == obj then o.rotation else old(nStartRot[k])))
                && nEndPos == old(nEndPos) && nEndRot == old(nEndRot)
    {
      var i := GetIndex(obj);
      var o := arena.nodes[obj];
      if i == -1 {
        addedNodes := addedNodes + [obj];
        nStartPos := nStartPos + [o.position];
        nStartRot := nStartRot + [o.rotation];
        nEndPos := nEndPos + [o.position];
        nEndRot := nEndRot + [o.rotation];
      } else {
        nStartPos := nStartPos[i := o.position];
        nStartRot := nStartRot[i := o.rotation];
      }
    }

    /**
     * setEndValues: as setStartValues, except that a tracked object has only its end pose
     * overwritten.
     */
    method SetEndValues(obj: nat, arena: Arena)
      requires Valid() && obj < |arena.nodes|
      modifies this`addedNodes, this`nStartPos, this`nStartRot, this`nEndPos, this`nEndRot
      ensures Valid()
      ensures var o := arena.nodes[obj];
              old(obj !in addedNodes) ==>
                && addedNodes == old(addedNodes) + [obj]
                && nStartPos == old(nStartPos) + [o.position] && nStartRot == old(nStartRot) + [o.rotation]
                && nEndPos == old(nEndPos) + [o.position] && nEndRot == old(nEndRot) + [o.rotation]
      ensures var o := arena.nodes[obj];
              old(obj in addedNodes) ==>
                && addedNodes == old(addedNodes)
                && |nEndPos| == |addedNodes| && |nEndRot| == |addedNodes|
                && (forall k | 0 <= k < |addedNodes| ::
                      && nEndPos[k] == (if addedNodes[k] == obj then o.position else old(nEndPos[k]))
                      && nEndRot[k] == (if addedNodes[k] == obj then o.rotation else old(nEndRot[k])))
                && nStartPos == old(nStartPos) && nStartRot == old(nStartRot)
    {
      var i := GetIndex(obj);
      var o := arena.nodes[obj];
      if i == -1 {
        addedNodes := addedNodes + [obj];
        nStartPos := nStartPos + [o.position];
        nStartRot := nStartRot + [o.rotation];
        nEndPos := nEndPos + [o.position];
        nEndRot := nEndRot + [o.rotation];
      } else {
        nEndPos := nEndPos[i := o.position];
        nEndRot := nEndRot[i := o.rotation];
      }
    }

    /** The pose a staged playback starts from and the one it heads for. */
    function From(rev: bool, k: nat): (Vec3, Vec3)
      reads this
      requires Valid() && k < |addedNodes|
    {
      if rev then (nEndPos[k], nEndRot[k]) else (nStartPos[k], nStartRot[k])
    }

    function Towards(rev: bool, k: nat): (Vec3, Vec3)
      reads this
      requires Valid() && k < |addedNodes|
    {
      if rev then (nStartPos[k], nStartRot[k]) else (nEndPos[k], nEndRot[k])
    }

    /**
     * setTheStage: sets the duration, resets the frame counter, snaps every tracked object
     * to its start pose (to its end pose when `rev`), and recomputes one per-frame step per
     * tracked object: the remaining distance over frameRate * duration frames.
     */
    method SetTheStage(rev: bool, second: real, arena: Arena)
      requires Valid() && TracksWithin(arena)
      requires frameRate * second != 0.0
      modifies this`duration, this`frameNumber, this`deltaPos, this`deltaRot, arena
      ensures Valid() && TracksWithin(arena)
      ensures duration == second && frameNumber == 0
      ensures |deltaPos| == |addedNodes| && |deltaRot| == |addedNodes|
      ensures forall k | 0 <= k < |addedNodes| ::
                && deltaPos[k] == Towards(rev, k).0.Minus(From(rev, k).0).Over(frameRate * duration)
                && deltaRot[k] == Towards(rev, k).1.Minus(From(rev, k).1).Over(frameRate * duration)
      ensures |arena.nodes| == old(|arena.nodes|)
      ensures forall k | 0 <= k < |addedNodes| ::
                arena.nodes[addedNodes[k]]
                == old(arena.nodes[addedNodes[k]]).(position := From(rev, k).0, rotation := From(rev, k).1)
      ensures forall n | 0 <= n < |arena.nodes| && n !in addedNodes :: arena.nodes[n] == old(arena.nodes[n])
    {
      duration := second;
      frameNumber := 0;
      if !rev {
        // play forward
        Stage(nStartPos, nStartRot, nEndPos, nEndRot, arena);
      } else {
        // play in reverse
        Stage(nEndPos, nEndRot, nStartPos, nStartRot, arena);
      }
    }

    /**
     * The loop of setTheStage, once for each direction: snap each tracked object to the
     * `from` pose and record the per-frame step towards the `to` pose.
     */
    method Stage(fromPos: seq<Vec3>, fromRot: seq<Vec3>, toPos: seq<Vec3>, toRot: seq<Vec3>, arena: Arena)
      requires Valid() && TracksWithin(arena) && frameRate * duration != 0.0
      requires |fromPos| == |fromRot| == |toPos| == |toRot| == |addedNodes|
      modifies this`deltaPos, this`deltaRot, arena
      ensures TracksWithin(arena)
      ensures |deltaPos| == |addedNodes| && |deltaRot| == |addedNodes|
      ensures forall k | 0 <= k < |addedNodes| ::
                && deltaPos[k] == toPos[k].Minus(fromPos[k]).Over(frameRate * duration)
                && deltaRot[k] == toRot[k].Minus(fromRot[k]).Over(frameRate * duration)
      ensures |arena.nodes| == old(|arena.nodes|)
      ensures forall k | 0 <= k < |addedNodes| ::
                arena.nodes[addedNodes[k]] == old(arena.nodes[addedNodes[k]]).(position := fromPos[k], rotation := fromRot[k])
      ensures forall n | 0 <= n < |arena.nodes| && n !in addedNodes :: arena.nodes[n] == old(arena.nodes[n])
    {
      deltaPos := [];
      deltaRot := [];
      ghost var before := arena.nodes;
      var frames := frameRate * duration;
      for i := 0 to |addedNodes|
        invariant |arena.nodes| == |before|
        invariant |deltaPos| == i && |deltaRot| == i
        invariant forall k | 0 <= k < i :: deltaPos[k] == toPos[k].Minus(fromPos[k]).Over(frames)
        invariant forall k | 0 <= k < i :: deltaRot[k] == toRot[k].Minus(fromRot[k]).Over(frames)
        invariant forall k | 0 <= k < i ::
                    arena.nodes[addedNodes[k]] == before[addedNodes[k]].(position := fromPos[k], rotation := fromRot[k])
        invariant forall n | 0 <= n < |arena.nodes| && n !in addedNodes[..i] :: arena.nodes[n] == before[n]
      {
        var a := addedNodes[i];
        arena.nodes := arena.nodes[a := arena.nodes[a].(position := fromPos[i], rotation := fromRot[i])];
        deltaPos := deltaPos + [toPos[i].Minus(fromPos[i]).Over(frames)];
        deltaRot := deltaRot + [toRot[i].Minus(fromRot[i]).Over(frames)];
      }
      assert addedNodes[..|addedNodes|] == addedNodes;
    }

    /** Every tracked object has a per-frame step (SetTheStage ran since the last one was added). */
    ghost predicate Staged()
      reads this
    {
      |deltaPos| >= |addedNodes| && |deltaRot| >= |addedNodes|
    }

    /**
     * playback: moves every tracked object by -delta / 2 * c, with one easing coefficient
     * `c` for the whole frame (the program computes it as cos(PI * frameNumber /
     * (frameRate * duration)) - 1), then counts the frame and answers whether playback goes
     * on: while the counter is below twice frameRate * duration.
     */
    method Playback(c: real, arena: Arena) returns (more: bool)
      requires Valid() && Staged() && TracksWithin(arena)
      modifies this`frameNumber, arena
      ensures Valid() && TracksWithin(arena)
      ensures frameNumber == old(frameNumber) + 1
      ensures more <==> (frameNumber as real) < frameRate * duration * 2.0
      ensures |arena.nodes| == old(|arena.nodes|)
      ensures forall k | 0 <= k < |addedNodes| ::
                var o := old(arena.nodes[addedNodes[k]]);
                arena.nodes[addedNodes[k]]
                == o.(position := EaseStep(o.position, deltaPos[k], c), rotation := EaseStep(o.rotation, deltaRot[k], c))
      ensures forall n | 0 <= n < |arena.nodes| && n !in addedNodes :: arena.nodes[n] == old(arena.nodes[n])
    {
      ghost var before := arena.nodes;
      for d := 0 to |addedNodes|
        invariant |arena.nodes| == |before| && frameNumber == old(frameNumber)
        invariant forall k | 0 <= k < d ::
                    var o := before[addedNodes[k]];
                    arena.nodes[addedNodes[k]]
                    == o.(position := EaseStep(o.position, deltaPos[k], c), rotation := EaseStep(o.rotation, deltaRot[k], c))
        invariant forall n | 0 <= n < |arena.nodes| && n !in addedNodes[..d] :: arena.nodes[n] == before[n]
      {
        var a := addedNodes[d];
        var o := arena.nodes[a];
        arena.nodes := arena.nodes[a := o.(position := o.position.Plus(deltaPos[d].Neg().Over(2.0).Times(c)),
                                           rotation := o.rotation.Plus(deltaRot[d].Neg().Over(2.0).Times(c)))];
      }
      assert addedNodes[..|addedNodes|] == addedNodes;
      frameNumber := frameNumber + 1;
      more := (frameNumber as real) < frameRate * duration * 2.0;
    }
  }

  /** One frame of playback on one pose: `v += -delta / 2 * c`. */
  function EaseStep(v: Vec3, delta: Vec3, c: real): Vec3
  {
    v.Plus(delta.Neg().Over(2.0).Times(c))
  }

  /** The pose after frames with easing coefficients `cs`, from pose `v` with per-frame step `delta`. */
  function Eased(v: Vec3, delta: Vec3, cs: seq<real>): Vec3
    decreases |cs|
  {
    if cs == [] then v else EaseStep(Eased(v, delta, cs[..|cs| - 1]), delta, cs[|cs| - 1])
  }

  function Sum(cs: seq<real>): real
    decreases |cs|
  {
    if cs == [] then 0.0 else Sum(cs[..|cs| - 1]) + cs[|cs| - 1]
  }

  /** The frames add up: the pose moves by the step times minus half the sum of the coefficients. */
  lemma {:induction false} EasedClosedForm(v: Vec3, delta: Vec3, cs: seq<real>)
    ensures Eased(v, delta, cs) == v.Plus(delta.Times(-Sum(cs) / 2.0))
    decreases |cs|
  {
    if cs != [] {
      var init, c := cs[..|cs| - 1], cs[|cs| - 1];
      EasedClosedForm(v, delta, init);
      var s := Sum(init);
      assert cs[..|cs| - 1] == init;
      assert Sum(cs) == s + c;
      assert Eased(v, delta, cs) == EaseStep(Eased(v, delta, init), delta, c);
      EaseStepAfterClosedForm(v, delta, s, c);
    } else {
      assert delta.Times(-Sum(cs) / 2.0) == Vec3(0.0, 0.0, 0.0);
    }
  }

  /** One more eased frame after the closed form for the coefficient sum `s`. */
  lemma EaseStepAfterClosedForm(v: Vec3, delta: Vec3, s: real, c: real)
    ensures EaseStep(v.Plus(delta.Times(-s / 2.0)), delta, c) == v.Plus(delta.Times(-(s + c) / 2.0))
  {
    EaseScalar(v.x, delta.x, s, c);
    EaseScalar(v.y, delta.y, s, c);
    EaseScalar(v.z, delta.z, s, c);
  }

  /** One component of one more eased frame. */
  lemma EaseScalar(a: real, d: real, s: real, c: real)
    ensures (a + d * (-s / 2.0)) + (-d / 2.0) * c == a + d * (-(s + c) / 2.0)
  {
  }

  /**
   * A staged playback lands exactly on the target pose once the easing coefficients of the
   * frames played sum to -2 * frameRate * duration. With N = frameRate * duration and 2N a
   * whole number, the coefficients cos(PI * j / N) - 1 of frames j = 0 .. 2N - 1 do (the
   * cosines cancel over the full period), which is what the doubled frame count of
   * Playback buys. The duration slider is continuous, so 2N need not be whole; then the
   * frames played cover no whole period, the sum differs, and the pose can over- or
   * undershoot the target.
   */
  lemma PlaybackReachesTarget(from: Vec3, to: Vec3, frames: real, cs: seq<real>)
    requires frames != 0.0
    requires Sum(cs) == -2.0 * frames
    ensures Eased(from, to.Minus(from).Over(frames), cs) == to
  {
    var delta := to.Minus(from).Over(frames);
    EasedClosedForm(from, delta, cs);
    var s := Sum(cs);
    ReachScalar(from.x, to.x, frames, s);
    ReachScalar(from.y, to.y, frames, s);
    ReachScalar(from.z, to.z, frames, s);
  }

  /** One component: `frames` steps of `(to - from) / frames` lead from `from` to `to`. */
  lemma ReachScalar(from: real, to: real, frames: real, s: real)
    requires frames != 0.0 && s == -2.0 * frames
    ensures from + (to - from) / frames * (-s / 2.0) == to
  {
    assert -s / 2.0 == frames;
  }
}
