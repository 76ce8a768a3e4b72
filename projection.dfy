/**
 * The materialised document: a fold of the history, in order, into a tree
 * that starts empty. A set writes its value at its path, creating the
 * objects on the way; a delete leaves the tree as it is, because the merge
 * has already removed everything it deleted.
 */
module Projection {
  import opened Wrappers
  import opened Shapes
  import opened Paths
  import opened Compaction

  /** A document node: a stored scalar, or an object from keys to nodes. */
  datatype Tree = Leaf(value: Value) | Node(kids: map<string, Tree>)

  const Empty: Tree := Node(map[])

  /**
   * Writes `v` at path `p`, creating empty objects for missing keys on the
   * way; a scalar met on the way is replaced by a fresh object.
   */
  function SetAt(t: Tree, p: seq<string>, v: Value): Tree
    decreases |p|
  {
    if |p| == 0 then Leaf(v)
    else
      var kids := if t.Node? then t.kids else map[];
      var child := if p[0] in kids then kids[p[0]] else Empty;
      Node(kids[p[0] := SetAt(child, p[1..], v)])
  }

  /** The node at path `p`, if there is one. */
  function GetAt(t: Tree, p: seq<string>): Option<Tree>
  {
    if |p| == 0 then Some(t)
    else if t.Node? && p[0] in t.kids then GetAt(t.kids[p[0]], p[1..])
    else None
  }

  /** One step of the fold: `[path]` leaves the tree alone, `[path, value]` writes there. */
  function Apply(t: Tree, e: Entry): Tree
  {
    match e.change.op
    case Delete => t
    case Set(v) => SetAt(t, e.change.path, v)
  }

  /** `_toJSON`: the history folded from the left into the empty tree. */
  function Project(history: seq<Entry>): Tree
  {
    if |history| == 0 then Empty
    else Apply(Project(history[..|history| - 1]), history[|history| - 1])
  }

  /** A value written at a path is read back there. */
  lemma {:induction false} GetSetSame(t: Tree, p: seq<string>, v: Value)
    ensures GetAt(SetAt(t, p, v), p) == Some(Leaf(v))
    decreases |p|
  {
    if |p| != 0 {
      var kids := if t.Node? then t.kids else map[];
      var child := if p[0] in kids then kids[p[0]] else Empty;
      GetSetSame(child, p[1..], v);
    }
  }

  /** A write leaves every path off its ancestor/descendant line as it was. */
  lemma {:induction false} GetSetOther(t: Tree, p: seq<string>, q: seq<string>, v: Value)
    requires !Comparable(p, q)
    ensures GetAt(SetAt(t, p, v), q) == GetAt(t, q)
    decreases |p|
  {
    var kids := if t.Node? then t.kids else map[];
    var child := if p[0] in kids then kids[p[0]] else Empty;
    if p[0] == q[0] {
      assert !Comparable(p[1..], q[1..]);
      GetSetOther(child, p[1..], q[1..], v);
      if !(t.Node? && p[0] in t.kids) {
        EmptyHasNothing(q[1..]);
      }
    }
  }

  /** The empty tree holds nothing below its root. */
  lemma EmptyHasNothing(q: seq<string>)
    requires |q| != 0
    ensures GetAt(Empty, q) == None
  {
  }

  /**
   * In a compacted history every set is visible: the projection holds its
   * value at its path, whatever else the history holds.
   */
  lemma {:induction false} ProjectShowsSets(history: seq<Entry>, i: nat)
    requires Incomparable(history)
    requires i < |history| && history[i].change.op.Set?
    ensures GetAt(Project(history), history[i].change.path) == Some(Leaf(history[i].change.op.value))
  {
    var n := |history| - 1;
    var init := history[..n];
    assert Incomparable(init);
    var last := history[n];
    if i == n {
      GetSetSame(Project(init), last.change.path, last.change.op.value);
    } else {
      ProjectShowsSets(init, i);
      assert history[i] == init[i];
      if last.change.op.Set? {
        GetSetOther(Project(init), last.change.path, history[i].change.path, last.change.op.value);
      }
    }
  }

  /**
   * Anything the projection holds below the root sits on the ancestor/descendant
   * line of some set in the history.
   */
  lemma {:induction false} ProjectOnlySets(history: seq<Entry>, q: seq<string>)
    requires |q| != 0
    requires GetAt(Project(history), q).Some?
    ensures exists i :: 0 <= i < |history| && history[i].change.op.Set? && Comparable(history[i].change.path, q)
  {
    if |history| == 0 {
      EmptyHasNothing(q);
    } else {
      var n := |history| - 1;
      var init := history[..n];
      var last := history[n];
      if last.change.op.Set? && Comparable(last.change.path, q) {
        assert history[n] == last;
      } else {
        if last.change.op.Set? {
          GetSetOther(Project(init), last.change.path, q, last.change.op.value);
        }
        ProjectOnlySets(init, q);
        var i :| 0 <= i < |init| && init[i].change.op.Set? && Comparable(init[i].change.path, q);
        assert history[i] == init[i];
      }
    }
  }

  /** In a compacted history the path of a surviving delete is absent from the projection. */
  lemma ProjectHidesDeletes(history: seq<Entry>, i: nat)
    requires Incomparable(history)
    requires i < |history| && history[i].change.op.Delete? && |history[i].change.path| != 0
    ensures GetAt(Project(history), history[i].change.path) == None
  {
    var q := history[i].change.path;
    if GetAt(Project(history), q).Some? {
      ProjectOnlySets(history, q);
      assert false;
    }
  }
}
