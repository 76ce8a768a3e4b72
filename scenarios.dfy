/**
 * Concrete runs of the merge that pin down how it behaves on small inputs.
 */
module Scenarios {
  import opened Wrappers
  import opened Shapes
  import opened Paths
  import opened Compaction
  import opened Projection

  const AB: JsValue := Arr([Str("a"), Str("b")])
  const A: JsValue := Arr([Str("a")])
  const AC: JsValue := Arr([Str("a"), Str("c")])

  /** From three replicas p, q, r: `set(['a','b'], 1)` at time 1, `set('a', 2)` at time 2, `set(['a','c'], 3)` at time 3. */
  const U1: Update := Update(Arr([Arr([AB, Num(1)])]), 1, "p")
  const U2: Update := Update(Arr([Arr([A, Num(2)])]), 2, "q")
  const U3: Update := Update(Arr([Arr([AC, Num(3)])]), 3, "r")

  const E1: Entry := Entry(Change(["a", "b"], Set(Num(1))), U1)
  const E2: Entry := Entry(Change(["a"], Set(Num(2))), U2)
  const E3: Entry := Entry(Change(["a", "c"], Set(Num(3))), U3)

  lemma Tags()
    ensures ValidUpdate(U1) && ValidUpdate(U2) && ValidUpdate(U3)
    ensures TagAll([U1]) == [E1] && TagAll([U2]) == [E2] && TagAll([U3]) == [E3]
  {
    assert KeyStrings(AB.elems) == ["a", "b"];
    assert KeyStrings(A.elems) == ["a"];
    assert KeyStrings(AC.elems) == ["a", "c"];
  }

  /** Sorting two entries swaps them exactly when the first sorts after the second. */
  lemma SortPair(x: Entry, y: Entry)
    ensures SortByUpdate([x, y]) == if After(x, y) then [y, x] else [x, y]
  {
    assert [x, y][..1] == [x];
    assert [x][..0] == [];
    assert SortByUpdate([x]) == Insert(SortByUpdate([]), x) == [x];
    assert Insert([x], y) == if After(x, y) then Insert([], y) + [x] else [x] + [y];
  }

  /** Of two entries, the earlier one survives exactly when the paths are not comparable. */
  lemma SurvivorsPair(x: Entry, y: Entry)
    ensures Survivors([x, y]) == if Comparable(x.change.path, y.change.path) then [y] else [x, y]
  {
    assert [x, y][1..] == [y];
    assert Survivors([y]) == [y];
    assert Superseded(x, [y]) <==> Comparable(x.change.path, y.change.path);
  }

  /** Merging a one-change update into a one-entry history. */
  lemma MergeOne(e: Entry, u: Update, f: Entry)
    requires ValidUpdate(u) && TagAll([u]) == [f]
    ensures Merged([e], [u]) == Survivors(SortByUpdate([e, f]))
  {
    assert [e] + [f] == [e, f];
  }

  /** Merging a one-change update into the empty history. */
  lemma MergeFirst(u: Update, f: Entry)
    requires ValidUpdate(u) && TagAll([u]) == [f]
    ensures Merged([], [u]) == [f]
  {
    assert [] + [f] == [f];
    assert SortByUpdate([f]) == Insert(SortByUpdate([]), f);
    assert Survivors([f]) == [f];
  }

  /** The set of `a` at time 2 wipes out the older set of `a.b` below it. */
  lemma ShallowOverwritesDeep()
    ensures Merged([E1], [U2]) == [E2]
  {
    Tags();
    MergeOne(E1, U2, E2);
    SortPair(E1, E2);
    SurvivorsPair(E1, E2);
  }

  /** The set of `a.c` at time 3 wipes out the older set of `a` above it. */
  lemma DeepOverwritesShallow()
    ensures Merged([E2], [U3]) == [E3]
  {
    Tags();
    MergeOne(E2, U3, E3);
    SortPair(E2, E3);
    SurvivorsPair(E2, E3);
  }

  /** The set of `a.b` at time 1, arriving last, sorts before `a.c` and conflicts with nothing. */
  lemma LateDeepSurvives()
    ensures Merged([E3], [U1]) == [E1, E3]
  {
    Tags();
    MergeOne(E3, U1, E1);
    SortPair(E3, E1);
    assert E1.change.path[1] != E3.change.path[1];
    SurvivorsPair(E1, E3);
  }

  /** Received oldest first, each update wipes out the one before it. */
  lemma InOrder()
    ensures Merged(Merged(Merged([], [U1]), [U2]), [U3]) == [E3]
  {
    Tags();
    MergeFirst(U1, E1);
    ShallowOverwritesDeep();
    DeepOverwritesShallow();
  }

  /**
   * Received as 2, 3, 1, the oldest update lands on a history in which
   * the set of `a` that overwrote it has already been compacted away, so
   * `a.b` comes back next to `a.c`.
   */
  lemma OutOfOrder()
    ensures Merged(Merged(Merged([], [U2]), [U3]), [U1]) == [E1, E3]
  {
    Tags();
    MergeFirst(U2, E2);
    DeepOverwritesShallow();
    LateDeepSurvives();
  }

  /**
   * Replicas that receive the same three updates in different orders end
   * with different histories and different documents: the merge does not
   * converge when a deep write predates a shallow write that a later deep
   * write has already compacted away.
   */
  lemma MergeOrderMatters()
    ensures Merged(Merged(Merged([], [U1]), [U2]), [U3]) != Merged(Merged(Merged([], [U2]), [U3]), [U1])
    ensures GetAt(Project([E3]), ["a", "b"]) == None
    ensures GetAt(Project([E1, E3]), ["a", "b"]) == Some(Leaf(Num(1)))
  {
    InOrder();
    OutOfOrder();
    assert [E3] != [E1, E3];
    assert E1.change.path[1] != E3.change.path[1];
    assert !Comparable(E1.change.path, E3.change.path);
    ProjectShowsSets([E1, E3], 0);
    assert Project([E3]) == SetAt(Empty, ["a", "c"], Num(3));
  }
}
