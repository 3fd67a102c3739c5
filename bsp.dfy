/**
 * The world BSP tree as the renderer sees it: visibility stamping from the
 * potentially visible set (PVS) and the descent that finds the first node
 * splitting a submodel's bounding box.
 *
 * Nodes and leaves share one index space: elements `0 .. numNodes - 1` are
 * nodes (element 0 is the root) and the elements after them are leaves, the
 * way a leaf is walked as a node when its ancestors are stamped. Nodes are
 * numbered so that a parent comes before its children.
 */
module Bsp {
  import opened Common

  /** `contents` of a node, as opposed to a leaf. */
  const CONTENTS_NODE: int := -1
  /** `contents` of a solid leaf. */
  const CONTENTS_SOLID: int := 1

  /** The shape of the tree and the per-leaf data the renderer reads. */
  datatype Tree = Tree(
    numNodes: nat,
    /** -1 for the root */
    parent: seq<int>,
    /** `children[0]` and `children[1]` of each node */
    front: seq<int>,
    back: seq<int>,
    contents: seq<int>,
    /** the PVS cluster of each leaf, -1 for none */
    cluster: seq<int>,
    /** whether the map carries visibility data */
    hasVis: bool)

  function Size(t: Tree): nat
  {
    |t.parent|
  }

  predicate WellFormed(t: Tree)
  {
    && t.numNodes <= Size(t)
    && |t.front| == t.numNodes && |t.back| == t.numNodes
    && |t.contents| == Size(t) && |t.cluster| == Size(t)
    && (forall k | 0 <= k < Size(t) :: -1 <= t.parent[k] < k && t.parent[k] < t.numNodes)
    && (forall k | 0 <= k < Size(t) :: (k < t.numNodes <==> t.contents[k] == CONTENTS_NODE))
    && (forall k | 0 <= k < Size(t) :: t.cluster[k] >= -1)
    && (forall k | 0 <= k < t.numNodes :: k < t.front[k] < Size(t) && t.parent[t.front[k]] == k)
    && (forall k | 0 <= k < t.numNodes :: k < t.back[k] < Size(t) && t.parent[t.back[k]] == k)
  }

  /** `a` is `e` or lies on the parent chain above `e`. */
  predicate AncestorOrSelf(t: Tree, a: int, e: int)
    requires WellFormed(t) && 0 <= e < Size(t)
    decreases e
  {
    a == e || (t.parent[e] != -1 && AncestorOrSelf(t, a, t.parent[e]))
  }

  /** An ancestor never has a larger index than its descendant. */
  lemma {:induction false} AncestorIsEarlier(t: Tree, a: int, e: int)
    requires WellFormed(t) && 0 <= e < Size(t) && AncestorOrSelf(t, a, e)
    ensures a <= e
    decreases e
  {
    if a != e {
      AncestorIsEarlier(t, a, t.parent[e]);
    }
  }

  lemma {:induction false} AncestorTransitive(t: Tree, a: int, b: int, e: int)
    requires WellFormed(t) && 0 <= b < Size(t) && 0 <= e < Size(t)
    requires AncestorOrSelf(t, a, b) && AncestorOrSelf(t, b, e)
    ensures AncestorOrSelf(t, a, e)
    decreases e
  {
    if b != e {
      AncestorTransitive(t, a, b, t.parent[e]);
    }
  }

  /** Two ancestors of the same element lie on one chain: one is an ancestor of the other. */
  lemma {:induction false} AncestorsAreOrdered(t: Tree, a: int, b: int, e: int)
    requires WellFormed(t) && 0 <= a < Size(t) && 0 <= b < Size(t) && 0 <= e < Size(t)
    requires AncestorOrSelf(t, a, e) && AncestorOrSelf(t, b, e)
    ensures AncestorOrSelf(t, a, b) || AncestorOrSelf(t, b, a)
    decreases e
  {
    if a != e && b != e {
      AncestorsAreOrdered(t, a, b, t.parent[e]);
    }
  }

  /** Whether leaf `e`'s cluster bit is set in the PVS bit string. */
  predicate Visible(t: Tree, pvs: seq<byte>, e: int)
    requires WellFormed(t) && PvsCovers(t, pvs) && 0 <= e < Size(t)
  {
    && e >= t.numNodes
    && t.cluster[e] != -1
    && BitSet(pvs[t.cluster[e] / 8], t.cluster[e] % 8)
  }

  /** The PVS row is long enough for every leaf's cluster. */
  predicate PvsCovers(t: Tree, pvs: seq<byte>)
    requires WellFormed(t)
  {
    forall e | t.numNodes <= e < Size(t) :: t.cluster[e] / 8 < |pvs|
  }

  /** `k` is a visible leaf among the leaves before `upTo`, or an ancestor of one. */
  ghost predicate MarkedBy(t: Tree, pvs: seq<byte>, k: int, upTo: int)
    requires WellFormed(t) && PvsCovers(t, pvs) && upTo <= Size(t)
  {
    exists e | t.numNodes <= e < upTo :: Visible(t, pvs, e) && AncestorOrSelf(t, k, e)
  }

  /** What the PVS pass stamps: every visible leaf and every ancestor of one. */
  ghost predicate InPvs(t: Tree, pvs: seq<byte>, k: int)
    requires WellFormed(t) && PvsCovers(t, pvs)
  {
    MarkedBy(t, pvs, k, Size(t))
  }

  lemma MarkedByNext(t: Tree, pvs: seq<byte>, k: int, e: int)
    requires WellFormed(t) && PvsCovers(t, pvs) && t.numNodes <= e < Size(t)
    ensures MarkedBy(t, pvs, k, e + 1) <==> MarkedBy(t, pvs, k, e) || (Visible(t, pvs, e) && AncestorOrSelf(t, k, e))
  {
    if MarkedBy(t, pvs, k, e + 1) {
      var w :| t.numNodes <= w < e + 1 && Visible(t, pvs, w) && AncestorOrSelf(t, k, w);
      if w < e {
        assert MarkedBy(t, pvs, k, e);
      }
    }
  }

  /** The stamped set is closed upwards: an ancestor of a marked element is marked. */
  lemma MarkedByUpward(t: Tree, pvs: seq<byte>, k: int, m: int, upTo: int)
    requires WellFormed(t) && PvsCovers(t, pvs) && upTo <= Size(t) && 0 <= m < Size(t)
    requires MarkedBy(t, pvs, m, upTo) && AncestorOrSelf(t, k, m)
    ensures MarkedBy(t, pvs, k, upTo)
  {
    var w :| t.numNodes <= w < upTo && Visible(t, pvs, w) && AncestorOrSelf(t, m, w);
    AncestorTransitive(t, k, m, w);
  }

  /** The parent of an element in the PVS is in the PVS too. */
  lemma {:induction false} InPvsIsUpwardClosed(t: Tree, pvs: seq<byte>, k: int)
    requires WellFormed(t) && PvsCovers(t, pvs) && 0 <= k < Size(t)
    requires InPvs(t, pvs, k) && t.parent[k] != -1
    ensures InPvs(t, pvs, t.parent[k])
  {
    assert AncestorOrSelf(t, t.parent[k], k) by {
      assert AncestorOrSelf(t, t.parent[k], t.parent[k]);
    }
    MarkedByUpward(t, pvs, t.parent[k], k, Size(t));
  }

  /** A visible leaf is in the PVS; a leaf in the PVS is visible (leaves have no descendants). */
  lemma {:induction false} LeafInPvs(t: Tree, pvs: seq<byte>, e: int)
    requires WellFormed(t) && PvsCovers(t, pvs) && t.numNodes <= e < Size(t)
    ensures InPvs(t, pvs, e) <==> Visible(t, pvs, e)
  {
    if InPvs(t, pvs, e) {
      var w :| t.numNodes <= w < Size(t) && Visible(t, pvs, w) && AncestorOrSelf(t, e, w);
      if w != e {
        AncestorIsEarlier(t, e, t.parent[w]);
        assert false;
      }
    } else {
      assert !(Visible(t, pvs, e) && AncestorOrSelf(t, e, e));
    }
  }

  /** `R_MarkLeaves` returns without doing anything. */
  predicate SkipsMarking(oldViewCluster: int, viewCluster: int, novis: bool, lockpvs: bool)
  {
    (oldViewCluster == viewCluster && !novis && viewCluster != -1) || lockpvs
  }

  /** `R_MarkLeaves` stamps everything instead of consulting the PVS. */
  predicate MarksEverything(viewCluster: int, novis: bool, hasVis: bool)
  {
    novis || viewCluster == -1 || !hasVis
  }

  /**
   * `R_FindTopnode` from element `k` on, over the stamps `stamps` and the
   * current frame `count`: `None` at a stale stamp or a solid leaf, the
   * element itself at a non-solid leaf or a node the box straddles
   * (`sides[k] == 3`), otherwise the descent into child 0 when bit 0 of
   * `sides[k]` is set and child 1 when it is not. `sides[k]` is
   * `BOX_ON_PLANE_SIDE` for node `k`'s split plane.
   */
  function Topnode(t: Tree, stamps: seq<int>, count: int, sides: seq<int>, k: int): (r: Option<int>)
    requires WellFormed(t) && |stamps| == Size(t) && |sides| == t.numNodes
    requires 0 <= k < Size(t)
    ensures r.Some? ==> 0 <= r.value < Size(t) && AncestorOrSelf(t, k, r.value)
    ensures r.Some? ==> stamps[r.value] == count
    ensures r.Some? && r.value >= t.numNodes ==> t.contents[r.value] != CONTENTS_SOLID
    ensures r.Some? && r.value < t.numNodes ==> sides[r.value] == 3
    decreases Size(t) - k
  {
    if stamps[k] != count then None
    else if t.contents[k] != CONTENTS_NODE then
      if t.contents[k] != CONTENTS_SOLID then Some(k) else None
    else if sides[k] == 3 then Some(k)
    else
      var child := if sides[k] % 2 == 1 then t.front[k] else t.back[k];
      var r := Topnode(t, stamps, count, sides, child);
      if r.Some? then
        assert AncestorOrSelf(t, k, child) by {
          assert AncestorOrSelf(t, k, t.parent[child]);
        }
        AncestorTransitive(t, k, child, r.value);
        r
      else r
  }

  /** Every element on the path from `k` down to the top node carries the current stamp. */
  lemma {:induction false} TopnodePathIsVisible(t: Tree, stamps: seq<int>, count: int, sides: seq<int>, k: int, m: int)
    requires WellFormed(t) && |stamps| == Size(t) && |sides| == t.numNodes
    requires 0 <= k < Size(t) && 0 <= m < Size(t)
    requires Topnode(t, stamps, count, sides, k).Some?
    requires AncestorOrSelf(t, k, m) && AncestorOrSelf(t, m, Topnode(t, stamps, count, sides, k).value)
    ensures stamps[m] == count
    decreases Size(t) - k
  {
    var top := Topnode(t, stamps, count, sides, k).value;
    if m != k && top != k {
      var child := if sides[k] % 2 == 1 then t.front[k] else t.back[k];
      assert Topnode(t, stamps, count, sides, k) == Topnode(t, stamps, count, sides, child);
      // m lies strictly below k, so it is the child or below it
      AncestorsAreOrdered(t, m, child, top);
      if AncestorOrSelf(t, m, child) && m != child {
        AncestorIsEarlier(t, m, t.parent[child]);
        AncestorIsEarlier(t, k, m);
        assert false;
      }
      TopnodePathIsVisible(t, stamps, count, sides, child, m);
    } else if m != k {
      AncestorIsEarlier(t, k, m);
      AncestorIsEarlier(t, m, top);
    }
  }

  /**
   * The world model with its `visframe` stamps, the frame counter
   * `r_visframecount` and the current and previous view clusters.
   */
  class World {
    const tree: Tree
    const visframe: array<int>
    var visframecount: int
    var viewcluster: int
    var oldviewcluster: int

    ghost predicate Valid()
      reads this, visframe
    {
      && WellFormed(tree)
      && visframe.Length == Size(tree)
      && forall k | 0 <= k < visframe.Length :: visframe[k] <= visframecount
    }

    /** A freshly loaded world: no stamps yet and no previous view cluster. */
    constructor (t: Tree)
      requires WellFormed(t)
      ensures Valid() && tree == t && fresh(visframe)
      ensures visframecount == 0 && viewcluster == -1 && oldviewcluster == -1
    {
      tree := t;
      visframe := new int[Size(t)](_ => 0);
      visframecount := 0;
      viewcluster := -1;
      oldviewcluster := -1;
    }

    /**
     * `R_MarkLeaves`. `pvs` is the row `Mod_ClusterPVS` returns for the view
     * cluster; it is read only on the PVS path.
     */
    method MarkLeaves(novis: bool, lockpvs: bool, pvs: seq<byte>)
      requires Valid()
      requires !MarksEverything(viewcluster, novis, tree.hasVis) ==> PvsCovers(tree, pvs)
      modifies this`visframecount, this`oldviewcluster, visframe
      ensures Valid()
      ensures SkipsMarking(old(oldviewcluster), viewcluster, novis, lockpvs) ==>
                visframecount == old(visframecount) && oldviewcluster == old(oldviewcluster)
                && visframe[..] == old(visframe[..])
      ensures !SkipsMarking(old(oldviewcluster), viewcluster, novis, lockpvs) ==>
                visframecount == old(visframecount) + 1 && oldviewcluster == viewcluster
      ensures !SkipsMarking(old(oldviewcluster), viewcluster, novis, lockpvs)
              && MarksEverything(viewcluster, novis, tree.hasVis) ==>
                forall k | 0 <= k < visframe.Length :: visframe[k] == visframecount
      ensures !SkipsMarking(old(oldviewcluster), viewcluster, novis, lockpvs)
              && !MarksEverything(viewcluster, novis, tree.hasVis) ==>
                forall k | 0 <= k < visframe.Length ::
                  (visframe[k] == visframecount <==> InPvs(tree, pvs, k))
                  && (visframe[k] != visframecount ==> visframe[k] == old(visframe[k]))
    {
      if SkipsMarking(oldviewcluster, viewcluster, novis, lockpvs) {
        return;
      }
      visframecount := visframecount + 1;
      oldviewcluster := viewcluster;
      var n := Size(tree);
      if MarksEverything(viewcluster, novis, tree.hasVis) {
        // leaves first, then nodes
        var i := 0;
        while i < n - tree.numNodes
          modifies visframe
          invariant 0 <= i <= n - tree.numNodes
          invariant forall k | 0 <= k < n :: visframe[k] <= visframecount
          invariant forall k | tree.numNodes <= k < tree.numNodes + i :: visframe[k] == visframecount
        {
          visframe[tree.numNodes + i] := visframecount;
          i := i + 1;
        }
        i := 0;
        while i < tree.numNodes
          modifies visframe
          invariant 0 <= i <= tree.numNodes
          invariant forall k | 0 <= k < n :: visframe[k] <= visframecount
          invariant forall k | tree.numNodes <= k < n :: visframe[k] == visframecount
          invariant forall k | 0 <= k < i :: visframe[k] == visframecount
        {
          visframe[i] := visframecount;
          i := i + 1;
        }
        return;
      }
      var e := tree.numNodes;
      while e < n
        modifies visframe
        invariant tree.numNodes <= e <= n
        invariant forall k | 0 <= k < n :: visframe[k] <= visframecount
        invariant forall k | 0 <= k < n :: visframe[k] == visframecount <==> MarkedBy(tree, pvs, k, e)
        invariant forall k | 0 <= k < n :: visframe[k] != visframecount ==> visframe[k] == old(visframe[k])
      {
        forall k | 0 <= k < n {
          MarkedByNext(tree, pvs, k, e);
        }
        var c := tree.cluster[e];
        if c != -1 && BitSet(pvs[c / 8], c % 8) {
          StampPath(pvs, e);
        }
        e := e + 1;
      }
    }

    /** The parent walk: stamps `e` and its ancestors, stopping at the first one already stamped. */
    method StampPath(pvs: seq<byte>, e: int)
      requires WellFormed(tree) && PvsCovers(tree, pvs) && visframe.Length == Size(tree)
      requires tree.numNodes <= e < Size(tree)
      requires forall k | 0 <= k < Size(tree) :: visframe[k] <= visframecount
      requires forall k | 0 <= k < Size(tree) :: visframe[k] == visframecount <==> MarkedBy(tree, pvs, k, e)
      modifies visframe
      ensures forall k | 0 <= k < Size(tree) :: visframe[k] <= visframecount
      ensures forall k | 0 <= k < Size(tree) ::
                visframe[k] == visframecount <==> MarkedBy(tree, pvs, k, e) || AncestorOrSelf(tree, k, e)
      ensures forall k | 0 <= k < Size(tree) :: visframe[k] != visframecount ==> visframe[k] == old(visframe[k])
    {
      var node := e;
      while node != -1 && visframe[node] != visframecount
        invariant -1 <= node <= e
        invariant node != -1 ==> AncestorOrSelf(tree, node, e)
        invariant forall k | 0 <= k < Size(tree) :: visframe[k] <= visframecount
        invariant forall k | 0 <= k < Size(tree) ::
                    visframe[k] == visframecount <==>
                      MarkedBy(tree, pvs, k, e)
                      || (AncestorOrSelf(tree, k, e) && !(node != -1 && AncestorOrSelf(tree, k, node)))
        invariant forall k | 0 <= k < Size(tree) :: visframe[k] != visframecount ==> visframe[k] == old(visframe[k])
        decreases node + 1
      {
        var p := tree.parent[node];
        forall k | 0 <= k < Size(tree) && k == node
          ensures !(p != -1 && AncestorOrSelf(tree, k, p))
        {
          if p != -1 && AncestorOrSelf(tree, k, p) {
            AncestorIsEarlier(tree, k, p);
          }
        }
        visframe[node] := visframecount;
        if p != -1 {
          AncestorTransitive(tree, p, node, e);
        }
        node := p;
      }
      if node != -1 {
        // `node` was stamped by an earlier leaf, and so were all of its ancestors
        forall k | 0 <= k < Size(tree) && AncestorOrSelf(tree, k, e) && AncestorOrSelf(tree, k, node)
          ensures MarkedBy(tree, pvs, k, e)
        {
          MarkedByUpward(tree, pvs, k, node, e);
        }
      }
    }

    /** `R_FindTopnode`: the walk from the root. */
    method FindTopnode(sides: seq<int>) returns (r: Option<int>)
      requires WellFormed(tree) && visframe.Length == Size(tree) && |sides| == tree.numNodes
      requires Size(tree) > 0
      requires forall k | 0 <= k < |sides| :: 1 <= sides[k] <= 3
      ensures r == Topnode(tree, visframe[..], visframecount, sides, 0)
      ensures r.Some? ==> 0 <= r.value < Size(tree) && visframe[r.value] == visframecount
      ensures r.Some? ==> (r.value >= tree.numNodes && tree.contents[r.value] != CONTENTS_SOLID)
                          || (r.value < tree.numNodes && sides[r.value] == 3)
      ensures visframe[0] != visframecount ==> r.None?
    {
      var node := 0;
      while true
        invariant 0 <= node < Size(tree)
        invariant Topnode(tree, visframe[..], visframecount, sides, node) == Topnode(tree, visframe[..], visframecount, sides, 0)
        decreases Size(tree) - node
      {
        if visframe[node] != visframecount {
          return None;
        }
        if tree.contents[node] != CONTENTS_NODE {
          if tree.contents[node] != CONTENTS_SOLID {
            return Some(node);
          }
          return None;
        }
        var s := sides[node];
        if s == 3 {
          return Some(node);
        }
        if s % 2 == 1 {
          node := tree.front[node];
        } else {
          node := tree.back[node];
        }
      }
    }
  }

  /**
   * Marking twice from the same view without `r_novis` ends as one marking
   * does: the second call finds the cluster unchanged and leaves the world
   * alone, so the frame count goes up at most once and the stamps are those
   * of a single `R_MarkLeaves`.
   */
  method MarkTwice(w: World, pvs: seq<byte>)
    requires w.Valid() && w.viewcluster != -1
    requires !MarksEverything(w.viewcluster, false, w.tree.hasVis) ==> PvsCovers(w.tree, pvs)
    modifies w`visframecount, w`oldviewcluster, w.visframe
    ensures w.Valid() && w.oldviewcluster == w.viewcluster
    ensures SkipsMarking(old(w.oldviewcluster), w.viewcluster, false, false) ==>
              w.visframecount == old(w.visframecount) && w.visframe[..] == old(w.visframe[..])
    ensures !SkipsMarking(old(w.oldviewcluster), w.viewcluster, false, false) ==>
              w.visframecount == old(w.visframecount) + 1
    ensures !SkipsMarking(old(w.oldviewcluster), w.viewcluster, false, false)
            && MarksEverything(w.viewcluster, false, w.tree.hasVis) ==>
              forall k | 0 <= k < w.visframe.Length :: w.visframe[k] == w.visframecount
    ensures !SkipsMarking(old(w.oldviewcluster), w.viewcluster, false, false)
            && !MarksEverything(w.viewcluster, false, w.tree.hasVis) ==>
              forall k | 0 <= k < w.visframe.Length ::
                (w.visframe[k] == w.visframecount <==> InPvs(w.tree, pvs, k))
                && (w.visframe[k] != w.visframecount ==> w.visframe[k] == old(w.visframe[k]))
  {
    ghost var before := w.visframe[..];
    w.MarkLeaves(false, false, pvs);
    ghost var between := w.visframe[..];
    ghost var count := w.visframecount;
    w.MarkLeaves(false, false, pvs);
    assert w.visframe[..] == between && w.visframecount == count;
  }
}
