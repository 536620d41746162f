// The hierarchy surgery of removeJoint: re-parenting or orphaning the children of the
// deleted joint and unlinking it from its parent's child list, as heap transformations.
module Hierarchy {
  import opened Common
  import opened Primitives

  /** `g->addChild(c)` for each `c` of `cs`, in order. */
  function AdoptAll(nodes: seq<SceneObject>, g: nat, cs: seq<nat>): (r: seq<SceneObject>)
    requires g < |nodes| && forall k | 0 <= k < |cs| :: g < cs[k] < |nodes|
    ensures |r| == |nodes|
    ensures r[g] == nodes[g].(childList := nodes[g].childList + cs)
    ensures forall k | 0 <= k < |cs| :: r[cs[k]] == nodes[cs[k]].(parent := Some(g))
    ensures forall n | 0 <= n < |r| && n != g && n !in cs :: r[n] == nodes[n]
    ensures Topological(nodes) ==> Topological(r)
    decreases |cs|
  {
    if cs == [] then nodes
    else
      var init, c := cs[..|cs| - 1], cs[|cs| - 1];
      assert forall k | 0 <= k < |init| :: init[k] == cs[k];
      assert cs == init + [c];
      Linked(AdoptAll(nodes, g, init), g, c)
  }

  /** `c->parent = NULL` for each `c` of `cs`. */
  function OrphanAll(nodes: seq<SceneObject>, cs: seq<nat>): (r: seq<SceneObject>)
    requires forall k | 0 <= k < |cs| :: cs[k] < |nodes|
    ensures |r| == |nodes|
    ensures forall k | 0 <= k < |cs| :: r[cs[k]] == nodes[cs[k]].(parent := None)
    ensures forall n | 0 <= n < |r| && n !in cs :: r[n] == nodes[n]
    ensures Topological(nodes) ==> Topological(r)
    decreases |cs|
  {
    if cs == [] then nodes
    else
      var init, c := cs[..|cs| - 1], cs[|cs| - 1];
      assert forall k | 0 <= k < |init| :: init[k] == cs[k];
      assert cs == init + [c];
      var m := OrphanAll(nodes, init);
      var r := Unparented(m, c);
      assert forall k | 0 <= k < |init| :: r[init[k]] == nodes[init[k]].(parent := None) by {
        forall k | 0 <= k < |init| ensures r[init[k]] == nodes[init[k]].(parent := None) {
          if init[k] != c {
            assert r[init[k]] == m[init[k]];
          }
        }
      }
      r
  }

  /** `c->parent = NULL`. */
  function Unparented(nodes: seq<SceneObject>, c: nat): (r: seq<SceneObject>)
    requires c < |nodes|
    ensures |r| == |nodes| && r[c] == nodes[c].(parent := None)
    ensures forall n | 0 <= n < |r| && n != c :: r[n] == nodes[n]
    ensures Topological(nodes) ==> Topological(r)
  {
    nodes[c := nodes[c].(parent := None)]
  }

  /** `g->childList.erase(g->childList.begin() + i)`. */
  function Unlisted(nodes: seq<SceneObject>, g: nat, i: nat): (r: seq<SceneObject>)
    requires g < |nodes| && i < |nodes[g].childList|
    ensures |r| == |nodes| && r[g] == nodes[g].(childList := EraseAt(nodes[g].childList, i))
    ensures forall n | 0 <= n < |r| && n != g :: r[n] == nodes[n]
    ensures Topological(nodes) ==> Topological(r)
  {
    var r := nodes[g := nodes[g].(childList := EraseAt(nodes[g].childList, i))];
    assert ChildrenAbove(nodes) ==> ChildrenAbove(r) by {
      if ChildrenAbove(nodes) {
        forall n, k | 0 <= n < |r| && 0 <= k < |r[n].childList|
          ensures n < r[n].childList[k] < |r|
        {
          if n == g {
            assert r[n].childList[k] in nodes[g].childList;
          }
        }
      }
    }
    r
  }

  /** `vector::erase(begin() + i)`: the element at `i` goes, the later ones move down. */
  function EraseAt<T>(s: seq<T>, i: nat): (r: seq<T>)
    requires i < |s|
    ensures |r| == |s| - 1
    ensures forall k | 0 <= k < i :: r[k] == s[k]
    ensures forall k | i <= k < |r| :: r[k] == s[k + 1]
  {
    s[..i] + s[i + 1..]
  }

  /** Erasing from an increasing list keeps it increasing and removes the erased value. */
  lemma EraseKeepsIncreasing(s: seq<nat>, i: nat)
    requires Increasing(s) && i < |s|
    ensures Increasing(EraseAt(s, i)) && s[i] !in EraseAt(s, i) && IndexOf(s, s[i]) == i
  {
    var r := EraseAt(s, i);
    forall k | 0 <= k < |r| ensures r[k] != s[i] {
      if k < i { assert s[k] < s[i]; } else { assert s[i] < s[k + 1]; }
    }
    IndexOfIncreasing(s, i);
  }

  /**
   * The index removeJoint erases from the grandparent's child list, as the program computes
   * it: `re` stays -1 when the deleted joint has no children and becomes their number
   * otherwise, and the list has grown by that number. Both branches give the position of
   * the grandparent's last original child.
   */
  function EraseIndex(originalCount: nat, moved: nat): (i: int)
    ensures i == originalCount - 1
  {
    var re := if moved == 0 then -1 else moved;
    var size := originalCount + moved;
    if moved == 0 then size - re - 2 else size - re - 1
  }

  /**
   * The links removeJoint leaves after deleting node `s`: with a parent `g`, every child
   * of `s` is added to `g` and one entry is erased from `g`'s list at EraseIndex; without
   * one, every child of `s` becomes a root. `s` itself keeps its own fields.
   */
  function Detached(nodes: seq<SceneObject>, s: nat): (r: seq<SceneObject>)
    requires s < |nodes| && Topological(nodes)
    requires nodes[s].parent.Some? ==> |nodes[nodes[s].parent.value].childList| >= 1
    ensures |r| == |nodes| && Topological(r)
    ensures r[s] == nodes[s]
    ensures nodes[s].parent.None? ==>
              forall k | 0 <= k < |nodes[s].childList| ::
                r[nodes[s].childList[k]] == nodes[nodes[s].childList[k]].(parent := None)
    ensures nodes[s].parent.Some? ==>
              var g, cl := nodes[s].parent.value, nodes[s].childList;
              var gl := nodes[g].childList;
              && r[g] == nodes[g].(childList := gl[..|gl| - 1] + cl)
              && forall k | 0 <= k < |cl| :: r[cl[k]] == nodes[cl[k]].(parent := Some(g))
    ensures forall n | 0 <= n < |r| && n !in nodes[s].childList && Some(n) != nodes[s].parent :: r[n] == nodes[n]
  {
    match nodes[s].parent
    case None =>
      assert forall k | 0 <= k < |nodes[s].childList| :: nodes[s].childList[k] < |nodes|;
      OrphanAll(nodes, nodes[s].childList)
    case Some(g) => Rehomed(nodes, s, g)
  }

  /** The parent branch of Detached: the children move to `g`, then EraseIndex is erased. */
  function Rehomed(nodes: seq<SceneObject>, s: nat, g: nat): (r: seq<SceneObject>)
    requires s < |nodes| && Topological(nodes) && nodes[s].parent == Some(g)
    requires |nodes[g].childList| >= 1
    ensures |r| == |nodes| && Topological(r)
    ensures var cl, gl := nodes[s].childList, nodes[g].childList;
            && r[g] == nodes[g].(childList := gl[..|gl| - 1] + cl)
            && (forall k | 0 <= k < |cl| :: r[cl[k]] == nodes[cl[k]].(parent := Some(g)))
            && (forall n | 0 <= n < |r| && n !in cl && n != g :: r[n] == nodes[n])
  {
    var cl, gl := nodes[s].childList, nodes[g].childList;
    assert forall k | 0 <= k < |cl| :: g < s < cl[k] < |nodes|;
    var a := AdoptAll(nodes, g, cl);
    EraseLastOriginal(gl, cl);
    Unlisted(a, g, EraseIndex(|gl|, |cl|))
  }

  lemma EraseLastOriginal<T>(gl: seq<T>, cl: seq<T>)
    requires |gl| >= 1
    ensures EraseAt(gl + cl, |gl| - 1) == gl[..|gl| - 1] + cl
  {
  }

  /**
   * The entry erased is the grandparent's last original child, whichever child was deleted:
   * the deleted joint leaves its parent's list only when it was the last child there, and
   * otherwise stays listed while the last child's entry goes.
   */
  lemma DetachedKeepsAllButLastChild(nodes: seq<SceneObject>, s: nat)
    requires s < |nodes| && Topological(nodes) && nodes[s].parent.Some?
    requires |nodes[nodes[s].parent.value].childList| >= 1
    ensures var g, gl := nodes[s].parent.value, nodes[nodes[s].parent.value].childList;
            var r := Detached(nodes, s);
            && (s in gl[..|gl| - 1] ==> s in r[g].childList)
            && (s !in gl[..|gl| - 1] ==> s !in r[g].childList)
            && (gl[|gl| - 1] != s ==> multiset(r[g].childList)[gl[|gl| - 1]] < multiset(gl + nodes[s].childList)[gl[|gl| - 1]])
  {
    var g, gl, cl := nodes[s].parent.value, nodes[nodes[s].parent.value].childList, nodes[s].childList;
    var r := Detached(nodes, s);
    assert r[g].childList == gl[..|gl| - 1] + cl;
    assert forall k | 0 <= k < |cl| :: s < cl[k];
    ErasedList(gl, cl, s);
  }

  /** The grandparent's list after the erase: all but its last entry, then the deleted joint's children. */
  lemma ErasedList(gl: seq<nat>, cl: seq<nat>, s: nat)
    requires |gl| >= 1 && s !in cl
    ensures var init, last, r := gl[..|gl| - 1], gl[|gl| - 1], gl[..|gl| - 1] + cl;
            && (s in init <==> s in r)
            && (last != s ==> multiset(r)[last] < multiset(gl + cl)[last])
  {
    var init, last := gl[..|gl| - 1], gl[|gl| - 1];
    assert gl == init + [last];
    assert gl + cl == init + [last] + cl;
    assert multiset(gl + cl) == multiset(init) + multiset{last} + multiset(cl);
  }

  /**
   * A parent with children a (node 1) and b (node 2): deleting a leaves a in the parent's
   * list and drops b, although b's parent is still the parent.
   */
  lemma DeletingFirstOfTwoChildrenDropsTheSecond()
    ensures var j := Initial(Joint(1.0));
            var nodes := [j.(childList := [1, 2]), j.(parent := Some(0)), j.(parent := Some(0))];
            && Topological(nodes)
            && Detached(nodes, 1)[0].childList == [1]
            && Detached(nodes, 1)[2].parent == Some(0)
  {
    var j := Initial(Joint(1.0));
    var nodes := [j.(childList := [1, 2]), j.(parent := Some(0)), j.(parent := Some(0))];
    assert Topological(nodes);
    var gl := nodes[0].childList;
    assert gl[..|gl| - 1] + nodes[1].childList == [1];
  }
}
