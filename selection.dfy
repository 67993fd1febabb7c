/**
 * The editor's selection: empty, an object selection group (a set of
 * selected objects) or a grid selection group (some rows or some columns
 * of one grid pane), and the queries and updates the controller uses.
 */
module Selections {
  import opened Wrappers
  import opened Fxom

  /** Which feature of a grid pane a grid selection group selects. */
  datatype Axis = Row | Column

  datatype SelectionGroup =
    | ObjectGroup(items: set<Node>)
    | GridGroup(grid: Node, axis: Axis, indices: set<nat>)

  /** Number of rows or columns of a grid pane along an axis. */
  function AxisSize(g: GridSize, axis: Axis): nat {
    match axis
    case Row => g.rows
    case Column => g.columns
  }

  /** n is the smallest object of s. */
  predicate IsMinimum(s: set<Node>, n: Node) {
    n in s && forall m | m in s :: n <= m
  }

  /** The smallest object of a non-empty set (a fixed choice among its members). */
  function Pick(s: set<Node>): (n: Node)
    requires s != {}
    ensures n in s
  {
    MinimumExists(s);
    var n :| IsMinimum(s, n); n
  }

  lemma {:induction false} MinimumExists(s: set<Node>)
    requires s != {}
    ensures exists n :: IsMinimum(s, n)
    decreases |s|
  {
    var x :| x in s;
    var rest := s - {x};
    if rest == {} {
      assert s == {x};
      assert IsMinimum(s, x);
    } else {
      MinimumExists(rest);
      var y :| IsMinimum(rest, y);
      var z := if x < y then x else y;
      forall m | m in s ensures z <= m {
        if m != x {
          assert m in rest;
        }
      }
      assert IsMinimum(s, z);
    }
  }

  /** Is a a strict ancestor of every object in s? */
  ghost predicate IsCommonAncestor(t: Tree, s: set<Node>, a: Node)
    requires t.Valid()
  {
    forall n | n in s :: t.Contains(n) && a in t.Ancestors(n)
  }

  /**
   * Position of the first entry of c that is a strict ancestor of every
   * object of s (|c| when there is none).
   */
  function FirstCommonIndex(t: Tree, c: seq<Node>, s: set<Node>): (k: nat)
    requires t.Valid() && forall n | n in s :: t.Contains(n)
    ensures k <= |c|
    ensures forall j :: 0 <= j < k ==> !IsCommonAncestor(t, s, c[j])
    ensures k < |c| ==> IsCommonAncestor(t, s, c[k])
  {
    if c == [] then 0
    else if forall n | n in s :: c[0] in t.Ancestors(n) then 0
    else 1 + FirstCommonIndex(t, c[1..], s)
  }

  /** The current selection; no group means the selection is empty. */
  datatype Selection = Selection(group: Option<SelectionGroup>)
  {
    predicate IsEmpty() {
      group.None?
    }

    /** Is object n in the current object selection group? */
    predicate IsSelected(n: Node) {
      group.Some? && group.value.ObjectGroup? && n in group.value.items
    }

    /** A group is never empty: an empty selection has no group. */
    predicate WellFormed() {
      match group
      case None => true
      case Some(ObjectGroup(items)) => items != {}
      case Some(GridGroup(_, _, indices)) => indices != {}
    }

    /**
     * The selection refers to objects of t only; a grid group names a grid
     * pane of t and rows or columns it has.
     */
    ghost predicate ConsistentWith(t: Tree) {
      match group
      case None => true
      case Some(ObjectGroup(items)) => forall n | n in items :: t.Contains(n)
      case Some(GridGroup(grid, axis, indices)) =>
        && grid in t.gridSizes
        && forall i | i in indices :: i < AxisSize(t.gridSizes[grid], axis)
    }

    /**
     * The common ancestor of the selection: for an object group, the
     * nearest object that is a strict ancestor of every selected object
     * (none when the root is selected); for a grid group, its grid pane.
     */
    function GetAncestor(t: Tree): (r: Option<Node>)
      requires t.Valid() && WellFormed() && ConsistentWith(t)
      ensures r.Some? <==> !IsEmpty() && !IsSelected(t.root)
      ensures group.Some? && group.value.GridGroup? ==> r == Some(group.value.grid)
      ensures r.Some? && group.value.ObjectGroup? ==>
                t.Contains(r.value) && IsCommonAncestor(t, group.value.items, r.value)
    {
      match group
      case None => None
      case Some(ObjectGroup(items)) =>
        if t.root in items then None
        else
          RootIsCommonAncestor(t, items);
          RootIsLastAncestor(t, Pick(items));
          var c := t.Ancestors(Pick(items));
          var k := FirstCommonIndex(t, c, items);
          if k < |c| then Some(c[k]) else None
      case Some(GridGroup(grid, _, _)) => Some(grid)
    }

    /** select(object): the selection becomes that one object. */
    function Select(n: Node): (r: Selection)
      ensures r.WellFormed() && r.IsSelected(n)
      ensures forall m :: r.IsSelected(m) <==> m == n
    {
      Selection(Some(ObjectGroup({n})))
    }

    /** select(objects): an object group of those objects; none empties the selection. */
    function SelectObjects(objects: seq<Node>): (r: Selection)
      ensures r.WellFormed()
      ensures r.IsEmpty() <==> objects == []
      ensures forall i :: 0 <= i < |objects| ==> r.IsSelected(objects[i])
      ensures forall m :: r.IsSelected(m) ==> m in objects
    {
      if objects == [] then Selection(None)
      else
        var items: set<Node> := set n: Node | n in objects;
        assert objects[0] in items;
        Selection(Some(ObjectGroup(items)))
    }

    /** select(grid, axis, index): a grid group of that single row or column. */
    function SelectIndex(grid: Node, axis: Axis, index: nat): (r: Selection)
      ensures r.WellFormed() && !r.IsEmpty()
      ensures r.group == Some(GridGroup(grid, axis, {index}))
    {
      Selection(Some(GridGroup(grid, axis, {index})))
    }

    /**
     * toggleSelection(grid, axis, index): within a grid group on the same
     * grid and axis, removes a selected index (emptying the selection when
     * it was the last one) and adds an unselected one; otherwise it starts
     * a grid group of that single index.
     */
    function ToggleSelection(grid: Node, axis: Axis, index: nat): (r: Selection)
      requires WellFormed()
      ensures r.WellFormed()
      ensures group.Some? && group.value.GridGroup? && group.value.grid == grid && group.value.axis == axis ==>
                if index in group.value.indices then
                  (if group.value.indices == {index} then r.IsEmpty()
                   else r == Selection(Some(GridGroup(grid, axis, group.value.indices - {index}))))
                else r == Selection(Some(GridGroup(grid, axis, group.value.indices + {index})))
      ensures !(group.Some? && group.value.GridGroup? && group.value.grid == grid && group.value.axis == axis) ==>
                r == SelectIndex(grid, axis, index)
    {
      match group
      case Some(GridGroup(g, a, indices)) =>
        if g == grid && a == axis then
          var indices' := if index in indices then indices - {index} else indices + {index};
          if indices' == {} then Selection(None) else Selection(Some(GridGroup(grid, axis, indices')))
        else SelectIndex(grid, axis, index)
      case _ => SelectIndex(grid, axis, index)
    }

    /** clear(): the selection becomes empty. */
    function Clear(): (r: Selection)
      ensures r.IsEmpty() && r.WellFormed()
    {
      Selection(None)
    }
  }

  /** The root is a strict ancestor of every object of a set that does not hold it. */
  lemma RootIsCommonAncestor(t: Tree, s: set<Node>)
    requires t.Valid() && t.root !in s && forall n | n in s :: t.Contains(n)
    ensures IsCommonAncestor(t, s, t.root)
  {
    forall n | n in s ensures t.root in t.Ancestors(n) {
      RootIsLastAncestor(t, n);
    }
  }

  /**
   * The common ancestor of an object group is the nearest one: every
   * other common strict ancestor lies above it.
   */
  lemma CommonAncestorIsNearest(t: Tree, sel: Selection, b: Node)
    requires t.Valid() && sel.WellFormed() && sel.ConsistentWith(t)
    requires sel.group.Some? && sel.group.value.ObjectGroup? && sel.GetAncestor(t).Some?
    requires IsCommonAncestor(t, sel.group.value.items, b)
    ensures b == sel.GetAncestor(t).value || b in t.Ancestors(sel.GetAncestor(t).value)
  {
    var items := sel.group.value.items;
    var n0 := Pick(items);
    var c := t.Ancestors(n0);
    var k := FirstCommonIndex(t, c, items);
    assert b in c;
    var j :| 0 <= j < |c| && c[j] == b;
    assert j >= k;
    if j > k {
      AncestorsSuffix(t, n0, k);
      assert c[j] == c[k + 1..][j - k - 1];
    }
  }

  /**
   * The common ancestor of an object group is its nearest common strict
   * ancestor: it exists exactly when the root is not selected, it is a
   * strict ancestor of every selected object, and every other common
   * strict ancestor lies above it.
   */
  lemma AncestorIsNearestCommon(t: Tree, sel: Selection)
    requires t.Valid() && sel.WellFormed() && sel.ConsistentWith(t)
    requires sel.group.Some? && sel.group.value.ObjectGroup?
    ensures sel.GetAncestor(t).Some? <==> t.root !in sel.group.value.items
    ensures sel.GetAncestor(t).Some? ==>
              var a := sel.GetAncestor(t).value;
              && t.Contains(a)
              && IsCommonAncestor(t, sel.group.value.items, a)
              && forall b :: IsCommonAncestor(t, sel.group.value.items, b) ==> b == a || b in t.Ancestors(a)
  {
    if t.root !in sel.group.value.items {
      forall b | IsCommonAncestor(t, sel.group.value.items, b)
        ensures b == sel.GetAncestor(t).value || b in t.Ancestors(sel.GetAncestor(t).value)
      {
        CommonAncestorIsNearest(t, sel, b);
      }
    }
  }

  /**
   * Every object of a non-empty sub-component list has the owner of the
   * list as its parent, so the owner is the common ancestor of the list.
   */
  lemma SubComponentsAncestor(t: Tree, a: Node)
    requires t.Valid() && t.AcceptsSubComponents(a) && t.subComponents[a] != []
    ensures var sel := Selection(None).SelectObjects(t.subComponents[a]);
            sel.ConsistentWith(t) && sel.GetAncestor(t) == Some(a)
  {
    var subs := t.subComponents[a];
    var sel := Selection(None).SelectObjects(subs);
    var items := sel.group.value.items;
    forall n | n in items ensures t.Contains(n) && t.Ancestors(n)[0] == a {
      var i :| 0 <= i < |subs| && subs[i] == n;
    }
    var n0 := Pick(items);
    assert t.Ancestors(n0)[0] == a;
    assert t.root !in items;
    assert IsCommonAncestor(t, items, a);
  }
}
