/**
 * The FXOM document tree as the editor controller sees it: a root object,
 * the parent of every other object, and what the design-hierarchy mask
 * tells about an object (its sub-component list, and the row and column
 * counts of a grid pane).
 */
module Fxom {
  import opened Wrappers

  /** An FXOM object, identified by a number. */
  type Node = nat

  /** Row and column counts of a grid pane. */
  datatype GridSize = GridSize(rows: nat, columns: nat)

  /**
   * A document tree.
   *  - parent: the parent object of every object except the root;
   *  - depth: the distance of every object from the root (its keys are the
   *    objects of the tree);
   *  - subComponents: for an object whose mask accepts sub-components, the
   *    values of its sub-component property, in order;
   *  - gridSizes: for a grid pane, its row and column counts.
   */
  datatype Tree = Tree(root: Node,
                       parent: map<Node, Node>,
                       depth: map<Node, nat>,
                       subComponents: map<Node, seq<Node>>,
                       gridSizes: map<Node, GridSize>)
  {
    /** Is n an object of this tree? */
    predicate Contains(n: Node) {
      n in depth
    }

    /** Does the mask of n accept sub-components? */
    predicate AcceptsSubComponents(n: Node) {
      n in subComponents
    }

    /**
     * One root, every other object has a parent in the tree one level up,
     * and the sub-components of an object are among its children.
     */
    ghost predicate Valid() {
      && depth.Keys == parent.Keys + {root}
      && root !in parent
      && depth[root] == 0
      && (forall n | n in parent :: parent[n] in depth && depth[n] == depth[parent[n]] + 1)
      && (forall n | n in subComponents :: n in depth)
      && (forall n, i | n in subComponents && 0 <= i < |subComponents[n]| ::
            subComponents[n][i] in parent && parent[subComponents[n][i]] == n)
      && gridSizes.Keys <= depth.Keys
    }

    /**
     * The strict ancestors of n, nearest first: its parent, the parent of
     * its parent, and so on up to the root.
     */
    function Ancestors(n: Node): (a: seq<Node>)
      requires Valid() && Contains(n)
      ensures |a| == depth[n]
      ensures forall i :: 0 <= i < |a| ==> a[i] in depth && depth[a[i]] == depth[n] - 1 - i
      decreases depth[n]
    {
      if n == root then [] else [parent[n]] + Ancestors(parent[n])
    }
  }

  /** Only the root lies at depth 0. */
  lemma DepthZeroIsRoot(t: Tree, n: Node)
    requires t.Valid() && t.Contains(n) && t.depth[n] == 0
    ensures n == t.root
  {
  }

  /** The root is an ancestor of every other object: the last one. */
  lemma {:induction false} RootIsLastAncestor(t: Tree, n: Node)
    requires t.Valid() && t.Contains(n) && n != t.root
    ensures |t.Ancestors(n)| > 0 && t.Ancestors(n)[|t.Ancestors(n)| - 1] == t.root
  {
    var a := t.Ancestors(n);
    assert n in t.parent;
    assert |a| > 0;
    DepthZeroIsRoot(t, a[|a| - 1]);
  }

  /** Above the k-th ancestor of n lie exactly the ancestors of that ancestor. */
  lemma {:induction false} AncestorsSuffix(t: Tree, n: Node, k: nat)
    requires t.Valid() && t.Contains(n) && k < |t.Ancestors(n)|
    ensures t.Ancestors(n)[k + 1..] == t.Ancestors(t.Ancestors(n)[k])
    decreases k
  {
    var p := t.parent[n];
    assert t.Ancestors(n) == [p] + t.Ancestors(p);
    if k > 0 {
      AncestorsSuffix(t, p, k - 1);
    }
  }

  /** A document: it has a root object, or none. */
  datatype Document = Document(rootTree: Option<Tree>)
  {
    predicate HasRoot() {
      rootTree.Some?
    }

    ghost predicate Valid() {
      rootTree.Some? ==> rootTree.value.Valid()
    }
  }

  /**
   * What the mask of an object tells: whether it accepts sub-components,
   * and its grid size if it is a grid pane.
   */
  datatype ObjectMask = ObjectMask(acceptsSubComponents: bool, gridSize: Option<GridSize>)

  /** What the library instantiates for an item: a new object and its mask. */
  datatype NewObject = NewObject(id: Node, mask: ObjectMask)

  /**
   * The effect of the insert-as-sub-component job with index -1: the new
   * object becomes the last sub-component of target.
   */
  function InsertAsSubComponent(t: Tree, obj: NewObject, target: Node): (r: Tree)
    requires t.Valid() && t.AcceptsSubComponents(target) && !t.Contains(obj.id)
    ensures r.Valid() && r.root == t.root
    ensures r.depth.Keys == t.depth.Keys + {obj.id}
    ensures r.parent == t.parent[obj.id := target]
    ensures target in r.subComponents && r.subComponents[target] == t.subComponents[target] + [obj.id]
    ensures forall n | n in t.subComponents && n != target ::
              n in r.subComponents && r.subComponents[n] == t.subComponents[n]
    ensures r.subComponents.Keys == t.subComponents.Keys + (if obj.mask.acceptsSubComponents then {obj.id} else {})
    ensures r.gridSizes.Keys == t.gridSizes.Keys + (if obj.mask.gridSize.Some? then {obj.id} else {})
    ensures r.AcceptsSubComponents(obj.id) <==> obj.mask.acceptsSubComponents
    ensures obj.mask.acceptsSubComponents ==> r.subComponents[obj.id] == []
    ensures forall n | n in t.depth :: n in r.depth && r.depth[n] == t.depth[n]
    ensures r.depth[obj.id] == t.depth[target] + 1
    ensures forall n | n in t.gridSizes :: n in r.gridSizes && r.gridSizes[n] == t.gridSizes[n]
    ensures obj.id in r.gridSizes <==> obj.mask.gridSize.Some?
    ensures obj.mask.gridSize.Some? ==> r.gridSizes[obj.id] == obj.mask.gridSize.value
  {
    var subs := t.subComponents[target := t.subComponents[target] + [obj.id]];
    var subs' := if obj.mask.acceptsSubComponents then subs[obj.id := []] else subs;
    var grids := if obj.mask.gridSize.Some? then t.gridSizes[obj.id := obj.mask.gridSize.value] else t.gridSizes;
    var r := Tree(t.root, t.parent[obj.id := target], t.depth[obj.id := t.depth[target] + 1], subs', grids);
    InsertedTreeValid(t, obj, target, r);
    r
  }

  /** The tree with obj appended under target is valid. */
  lemma InsertedTreeValid(t: Tree, obj: NewObject, target: Node, r: Tree)
    requires t.Valid() && t.AcceptsSubComponents(target) && !t.Contains(obj.id)
    requires r.root == t.root && r.parent == t.parent[obj.id := target]
    requires r.depth == t.depth[obj.id := t.depth[target] + 1]
    requires r.subComponents.Keys == t.subComponents.Keys + (if obj.mask.acceptsSubComponents then {obj.id} else {})
    requires target in r.subComponents && r.subComponents[target] == t.subComponents[target] + [obj.id]
    requires forall n | n in r.subComponents && n != target && n != obj.id :: r.subComponents[n] == t.subComponents[n]
    requires obj.mask.acceptsSubComponents ==> r.subComponents[obj.id] == []
    requires r.gridSizes.Keys <= t.gridSizes.Keys + {obj.id}
    ensures r.Valid()
  {
    assert obj.id != t.root;
    assert obj.id !in t.parent;
    assert obj.id !in t.subComponents;
    forall n, i | n in r.subComponents && 0 <= i < |r.subComponents[n]|
      ensures r.subComponents[n][i] in r.parent && r.parent[r.subComponents[n][i]] == n
    {
      if n != target && n != obj.id {
        assert t.subComponents[n][i] != obj.id;
      } else if n == target && i < |t.subComponents[target]| {
        assert r.subComponents[n][i] == t.subComponents[target][i];
      }
    }
  }
}
