/**
 * The history store and its merge: every change is tagged with the update
 * it came from, all changes are re-sorted by update order, and a left fold
 * lets each change remove every earlier change on its ancestor/descendant
 * line before it is appended. `Survivors` states the outcome independently
 * of the fold: a change stays exactly when no later change in the sorted
 * order has a comparable path.
 */
module Compaction {
  import opened Shapes
  import opened Paths
  import opened Order

  /** A stored change together with the update that carried it (its `.update` tag). */
  datatype Entry = Entry(change: Change, update: Update)

  /** `a` sorts strictly after `b`. */
  predicate After(a: Entry, b: Entry)
  {
    Later(a.update, b.update)
  }

  predicate Sorted(s: seq<Entry>)
  {
    forall i, j :: 0 <= i < j < |s| ==> !After(s[i], s[j])
  }

  /** No two entries lie on one ancestor/descendant line. */
  predicate Incomparable(s: seq<Entry>)
  {
    forall i, j :: 0 <= i < j < |s| ==> !Comparable(s[i].change.path, s[j].change.path)
  }

  /** Every stored path is a valid key path. */
  predicate WellFormed(s: seq<Entry>)
  {
    forall i :: 0 <= i < |s| ==> ValidKeyPath(s[i].change.path)
  }

  /** The invariant of the history store. */
  predicate Compacted(s: seq<Entry>)
  {
    Sorted(s) && Incomparable(s)
  }

  /** The transaction's changes, in order, each tagged with its update. */
  function Tag(u: Update): (r: seq<Entry>)
    requires ValidUpdate(u)
  {
    var changes := u.txn.elems;
    seq(|changes|, i requires 0 <= i < |changes| => Entry(ChangeOf(changes[i]), u))
  }

  /** The tagged changes of several updates, one update after another. */
  function TagAll(updates: seq<Update>): seq<Entry>
    requires forall i :: 0 <= i < |updates| ==> ValidUpdate(updates[i])
  {
    if |updates| == 0 then [] else Tag(updates[0]) + TagAll(updates[1..])
  }

  lemma TagAllSnoc(updates: seq<Update>, k: nat)
    requires forall i :: 0 <= i < |updates| ==> ValidUpdate(updates[i])
    requires k < |updates|
    ensures TagAll(updates[..k + 1]) == TagAll(updates[..k]) + Tag(updates[k])
    decreases k
  {
    if k != 0 {
      TagAllSnoc(updates[1..], k - 1);
      assert updates[..k + 1][1..] == updates[1..][..k];
      assert updates[..k][1..] == updates[1..][..k - 1];
    } else {
      assert TagAll(updates[..1]) == Tag(updates[0]) + TagAll([]);
    }
  }

  // ---------------------------------------------------------------------
  // The stable sort by update order

  /** Places `e` after every entry of `r` that does not sort after it. */
  function Insert(r: seq<Entry>, e: Entry): seq<Entry>
  {
    if |r| == 0 then [e]
    else if After(r[|r| - 1], e) then Insert(r[..|r| - 1], e) + [r[|r| - 1]]
    else r + [e]
  }

  /** A stable sort by update order: entries with equal keys keep their relative order. */
  function SortByUpdate(s: seq<Entry>): seq<Entry>
  {
    if |s| == 0 then [] else Insert(SortByUpdate(s[..|s| - 1]), s[|s| - 1])
  }

  /** Appending an entry that no earlier entry sorts after keeps a sequence sorted. */
  lemma SortedSnoc(q: seq<Entry>, x: Entry)
    requires Sorted(q)
    requires forall i :: 0 <= i < |q| ==> !After(q[i], x)
    ensures Sorted(q + [x])
  {
  }

  lemma {:induction false} InsertPermutes(r: seq<Entry>, e: Entry)
    ensures multiset(Insert(r, e)) == multiset(r) + multiset{e}
  {
    if |r| != 0 {
      var init, last := r[..|r| - 1], r[|r| - 1];
      assert r == init + [last];
      if After(last, e) {
        InsertPermutes(init, e);
      }
    }
  }

  lemma {:induction false} InsertSorted(r: seq<Entry>, e: Entry)
    requires Sorted(r)
    ensures Sorted(Insert(r, e))
  {
    if |r| != 0 {
      var init, last := r[..|r| - 1], r[|r| - 1];
      assert r == init + [last];
      if After(last, e) {
        assert Sorted(init);
        InsertSorted(init, e);
        InsertPermutes(init, e);
        var q := Insert(init, e);
        forall i | 0 <= i < |q|
          ensures !After(q[i], last)
        {
          assert q[i] in multiset(q);
          if q[i] == e {
            LaterAsymmetric(last.update, e.update);
          } else {
            assert q[i] in init;
            var k :| 0 <= k < |init| && init[k] == q[i];
            assert r[k] == q[i];
          }
        }
        SortedSnoc(q, last);
      } else {
        forall i | 0 <= i < |r|
          ensures !After(r[i], e)
        {
          if i < |r| - 1 {
            NotLaterTransitive(r[i].update, last.update, e.update);
          }
        }
        SortedSnoc(r, e);
      }
    }
  }

  /** The sort yields a sorted permutation of its input. */
  lemma {:induction false} SortSorted(s: seq<Entry>)
    ensures Sorted(SortByUpdate(s))
    ensures multiset(SortByUpdate(s)) == multiset(s)
  {
    if |s| != 0 {
      SortSorted(s[..|s| - 1]);
      InsertSorted(SortByUpdate(s[..|s| - 1]), s[|s| - 1]);
      InsertPermutes(SortByUpdate(s[..|s| - 1]), s[|s| - 1]);
      assert s == s[..|s| - 1] + [s[|s| - 1]];
    }
  }

  /** Sorting what is already sorted changes nothing. */
  lemma {:induction false} SortOfSorted(s: seq<Entry>)
    requires Sorted(s)
    ensures SortByUpdate(s) == s
  {
    if |s| != 0 {
      SortOfSorted(s[..|s| - 1]);
      assert s == s[..|s| - 1] + [s[|s| - 1]];
    }
  }

  /** Inserting between a block that does not sort after `e` and a block that does. */
  lemma {:induction false} InsertBetween(p: seq<Entry>, y: seq<Entry>, e: Entry)
    requires |p| == 0 || !After(p[|p| - 1], e)
    requires forall i :: 0 <= i < |y| ==> After(y[i], e)
    ensures Insert(p + y, e) == p + [e] + y
  {
    if |y| == 0 {
      assert p + y == p;
    } else {
      var y' := y[..|y| - 1];
      assert p + y == (p + y') + [y[|y| - 1]];
      InsertBetween(p, y', e);
      assert p + [e] + y == (p + [e] + y') + [y[|y| - 1]];
    }
  }

  /**
   * Sorting a sorted history followed by the changes of one update `u`
   * places those changes, in transaction order, after every entry that does
   * not sort after `u` and before every entry that does.
   */
  lemma {:induction false} SortAppendedBlock(x: seq<Entry>, y: seq<Entry>, t: seq<Entry>, u: Update)
    requires Sorted(x + y)
    requires forall i :: 0 <= i < |x| ==> !Later(x[i].update, u)
    requires forall i :: 0 <= i < |y| ==> Later(y[i].update, u)
    requires forall i :: 0 <= i < |t| ==> t[i].update == u
    ensures SortByUpdate(x + y + t) == x + t + y
  {
    if |t| == 0 {
      assert x + y + t == x + y;
      SortOfSorted(x + y);
      assert x + t + y == x + y;
    } else {
      var t', e := t[..|t| - 1], t[|t| - 1];
      assert t == t' + [e];
      assert x + y + t == x + y + t' + [e] && x + t + y == x + t' + [e] + y by {
        SeqAssoc(x, y, t', e);
      }
      SortAppendedBlock(x, y, t', u);
      SortAppendedStep(x, y, t', e, u);
    }
  }

  lemma SeqAssoc(x: seq<Entry>, y: seq<Entry>, t': seq<Entry>, e: Entry)
    ensures x + y + (t' + [e]) == x + y + t' + [e]
    ensures x + (t' + [e]) + y == x + t' + [e] + y
  {
  }

  lemma SortSnoc(s: seq<Entry>, e: Entry)
    ensures SortByUpdate(s + [e]) == Insert(SortByUpdate(s), e)
  {
    assert (s + [e])[..|s|] == s;
  }

  /** One step of the induction above: the block's last change goes after the rest of the block. */
  lemma SortAppendedStep(x: seq<Entry>, y: seq<Entry>, t': seq<Entry>, e: Entry, u: Update)
    requires forall i :: 0 <= i < |x| ==> !Later(x[i].update, u)
    requires forall i :: 0 <= i < |y| ==> Later(y[i].update, u)
    requires forall i :: 0 <= i < |t'| ==> t'[i].update == u
    requires e.update == u
    requires SortByUpdate(x + y + t') == x + t' + y
    ensures SortByUpdate(x + y + t' + [e]) == x + t' + [e] + y
  {
    SortSnoc(x + y + t', e);
    LaterAsymmetric(u, u);
    var p := x + t';
    assert |p| == 0 || !After(p[|p| - 1], e) by {
      if |t'| != 0 {
        assert p[|p| - 1] == t'[|t'| - 1];
      } else if |x| != 0 {
        assert p[|p| - 1] == x[|x| - 1];
      }
    }
    InsertBetween(p, y, e);
  }

  /** How many leading entries of `s` do not sort after `u`. */
  function NotAfterCount(s: seq<Entry>, u: Update): (m: nat)
    ensures m <= |s|
  {
    if |s| == 0 || Later(s[0].update, u) then 0 else 1 + NotAfterCount(s[1..], u)
  }

  /** In a sorted history the entries that do not sort after `u` form a prefix. */
  lemma {:induction false} SplitSorted(s: seq<Entry>, u: Update)
    requires Sorted(s)
    ensures forall i :: 0 <= i < NotAfterCount(s, u) ==> !Later(s[i].update, u)
    ensures forall i :: NotAfterCount(s, u) <= i < |s| ==> Later(s[i].update, u)
  {
    if |s| != 0 {
      if Later(s[0].update, u) {
        forall i | 0 < i < |s|
          ensures Later(s[i].update, u)
        {
          LaterMonotone(s[0].update, s[i].update, u);
        }
      } else {
        SplitSorted(s[1..], u);
      }
    }
  }

  // ---------------------------------------------------------------------
  // Compaction

  /** Some entry of `later` lies on `x`'s ancestor/descendant line. */
  predicate Superseded(x: Entry, later: seq<Entry>)
  {
    exists y :: y in later && Comparable(x.change.path, y.change.path)
  }

  /** The entries of `xs`, in order, that nothing in `later` supersedes. */
  function Mask(xs: seq<Entry>, later: seq<Entry>): seq<Entry>
  {
    if |xs| == 0 then []
    else (if Superseded(xs[0], later) then [] else [xs[0]]) + Mask(xs[1..], later)
  }

  /** The entries of `s`, in order, that no later entry of `s` supersedes. */
  function Survivors(s: seq<Entry>): seq<Entry>
  {
    if |s| == 0 then []
    else (if Superseded(s[0], s[1..]) then [] else [s[0]]) + Survivors(s[1..])
  }

  /** The history after merging `updates` into `history`. */
  function Merged(history: seq<Entry>, updates: seq<Update>): seq<Entry>
    requires forall i :: 0 <= i < |updates| ==> ValidUpdate(updates[i])
  {
    Survivors(SortByUpdate(history + TagAll(updates)))
  }

  /** `r` is `s` with some entries left out. */
  predicate SubsequenceOf(r: seq<Entry>, s: seq<Entry>)
  {
    |r| == 0 || (|s| != 0 && ((r[0] == s[0] && SubsequenceOf(r[1..], s[1..])) || SubsequenceOf(r, s[1..])))
  }

  lemma {:induction false} MaskAppend(a: seq<Entry>, b: seq<Entry>, later: seq<Entry>)
    ensures Mask(a + b, later) == Mask(a, later) + Mask(b, later)
  {
    if |a| == 0 {
      assert a + b == b;
    } else {
      assert (a + b)[1..] == a[1..] + b;
      MaskAppend(a[1..], b, later);
    }
  }

  lemma {:induction false} MaskMembers(xs: seq<Entry>, later: seq<Entry>)
    ensures forall x :: x in Mask(xs, later) ==> x in xs && !Superseded(x, later)
  {
    if |xs| != 0 {
      MaskMembers(xs[1..], later);
    }
  }

  /** A mask that supersedes nothing keeps everything. */
  lemma {:induction false} MaskKeepsAll(xs: seq<Entry>, later: seq<Entry>)
    requires forall i :: 0 <= i < |xs| ==> !Superseded(xs[i], later)
    ensures Mask(xs, later) == xs
  {
    if |xs| != 0 {
      MaskKeepsAll(xs[1..], later);
    }
  }

  /** A mask that contains every entry supersedes every entry. */
  lemma {:induction false} MaskDropsAll(xs: seq<Entry>, later: seq<Entry>)
    requires forall i :: 0 <= i < |xs| ==> xs[i] in later
    ensures Mask(xs, later) == []
  {
    if |xs| != 0 {
      ComparableBasics(xs[0].change.path, xs[0].change.path);
      MaskDropsAll(xs[1..], later);
    }
  }

  /** Only entries of the input survive. */
  lemma {:induction false} SurvivorsMembers(s: seq<Entry>)
    ensures forall x :: x in Survivors(s) ==> x in s
  {
    if |s| != 0 {
      SurvivorsMembers(s[1..]);
    }
  }

  /** An entry is dropped only when some entry after it has a comparable path. */
  lemma {:induction false} SurvivorsKeepsUnsuperseded(s: seq<Entry>, i: nat)
    requires i < |s| && !Superseded(s[i], s[i + 1..])
    ensures s[i] in Survivors(s)
  {
    if i != 0 {
      assert s[1..][i - 1] == s[i] && s[1..][i..] == s[i + 1..];
      SurvivorsKeepsUnsuperseded(s[1..], i - 1);
    }
  }

  /**
   * Survivors of a concatenation: an entry of the first part survives when
   * it survives its own part and nothing in the second part supersedes it.
   * With a one-entry second part this is one step of the fold.
   */
  lemma {:induction false} SurvivorsAppend(a: seq<Entry>, b: seq<Entry>)
    ensures Survivors(a + b) == Mask(Survivors(a), b) + Survivors(b)
  {
    if |a| == 0 {
      assert a + b == b;
    } else {
      var x, rest := a[0], a[1..];
      TailAppend(a, b);
      SurvivorsAppend(rest, b);
      var head := if Superseded(x, rest) then [] else [x];
      var m, v := Mask(Survivors(rest), b), Survivors(b);
      MaskHead(x, rest, b);
      MaskAppend(head, Survivors(rest), b);
      Assoc(Mask(head, b), m, v);
    }
  }

  lemma TailAppend(a: seq<Entry>, b: seq<Entry>)
    requires |a| != 0
    ensures (a + b)[0] == a[0] && (a + b)[1..] == a[1..] + b
  {
  }

  lemma Assoc(p: seq<Entry>, q: seq<Entry>, r: seq<Entry>)
    ensures (p + q) + r == p + (q + r)
  {
  }

  /** Masking the first entry's own survival by `b`. */
  lemma MaskHead(x: Entry, rest: seq<Entry>, b: seq<Entry>)
    ensures Mask(if Superseded(x, rest) then [] else [x], b) == if Superseded(x, rest + b) then [] else [x]
  {
    SupersededAppend(x, rest, b);
    assert [x][1..] == [];
  }

  lemma SurvivorsCons(x: Entry, s: seq<Entry>)
    ensures Survivors([x] + s) == (if Superseded(x, s) then [] else [x]) + Survivors(s)
  {
    assert ([x] + s)[0] == x && ([x] + s)[1..] == s;
  }

  lemma SupersededAppend(x: Entry, p: seq<Entry>, q: seq<Entry>)
    ensures Superseded(x, p + q) <==> Superseded(x, p) || Superseded(x, q)
  {
    if Superseded(x, p + q) {
      var y :| y in p + q && Comparable(x.change.path, y.change.path);
      assert y in p || y in q;
    }
    if Superseded(x, q) {
      var y :| y in q && Comparable(x.change.path, y.change.path);
      assert y in p + q;
    }
    if Superseded(x, p) {
      var y :| y in p && Comparable(x.change.path, y.change.path);
      assert y in p + q;
    }
  }

  /** No two survivors lie on one ancestor/descendant line. */
  lemma {:induction false} SurvivorsIncomparable(s: seq<Entry>)
    ensures Incomparable(Survivors(s))
  {
    if |s| != 0 {
      SurvivorsIncomparable(s[1..]);
      SurvivorsMembers(s[1..]);
    }
  }

  /** Survivors of a sorted sequence are sorted. */
  lemma {:induction false} SurvivorsSorted(s: seq<Entry>)
    requires Sorted(s)
    ensures Sorted(Survivors(s))
  {
    if |s| != 0 {
      assert Sorted(s[1..]);
      SurvivorsSorted(s[1..]);
      SurvivorsMembers(s[1..]);
      var r := Survivors(s[1..]);
      forall j | 0 <= j < |r|
        ensures !After(s[0], r[j])
      {
        assert r[j] in r;
        var k :| 0 <= k < |s[1..]| && s[1..][k] == r[j];
        assert s[k + 1] == r[j];
      }
    }
  }

  /** The survivors are the input with some entries left out. */
  lemma {:induction false} SurvivorsSubsequence(s: seq<Entry>)
    ensures SubsequenceOf(Survivors(s), s)
  {
    if |s| != 0 {
      SurvivorsSubsequence(s[1..]);
      var r := Survivors(s);
      if !Superseded(s[0], s[1..]) {
        assert r == [s[0]] + Survivors(s[1..]);
        assert r[0] == s[0] && r[1..] == Survivors(s[1..]);
      } else {
        assert r == Survivors(s[1..]);
      }
    }
  }

  /** A history with no comparable pair is its own set of survivors. */
  lemma {:induction false} SurvivorsOfIncomparable(s: seq<Entry>)
    requires Incomparable(s)
    ensures Survivors(s) == s
  {
    if |s| != 0 {
      assert Incomparable(s[1..]);
      SurvivorsOfIncomparable(s[1..]);
      forall y | y in s[1..]
        ensures !Comparable(s[0].change.path, y.change.path)
      {
        var k :| 0 <= k < |s[1..]| && s[1..][k] == y;
        assert s[k + 1] == y;
      }
    }
  }

  /**
   * A merge always leaves the store compacted: sorted by update order, no
   * two paths comparable, and made only of changes from the old history and
   * the new updates, in sorted order.
   */
  lemma MergedCompacted(history: seq<Entry>, updates: seq<Update>)
    requires forall i :: 0 <= i < |updates| ==> ValidUpdate(updates[i])
    ensures Compacted(Merged(history, updates))
    ensures SubsequenceOf(Merged(history, updates), SortByUpdate(history + TagAll(updates)))
    ensures multiset(SortByUpdate(history + TagAll(updates))) == multiset(history + TagAll(updates))
  {
    var sorted := SortByUpdate(history + TagAll(updates));
    SortSorted(history + TagAll(updates));
    SurvivorsSorted(sorted);
    SurvivorsIncomparable(sorted);
    SurvivorsSubsequence(sorted);
  }

  lemma TagAllOne(u: Update)
    requires ValidUpdate(u)
    ensures TagAll([u]) == Tag(u)
  {
    assert TagAll([u]) == Tag(u) + TagAll([]);
  }

  /** Entries of `a` that nothing in `b` supersedes keep that property through a mask. */
  lemma MaskedUnsuperseded(a: seq<Entry>, t: seq<Entry>, b: seq<Entry>)
    requires forall i :: 0 <= i < |a| ==> !Superseded(a[i], b)
    ensures forall i :: 0 <= i < |Mask(a, t)| ==> !Superseded(Mask(a, t)[i], b) && !Superseded(Mask(a, t)[i], t)
  {
    MaskMembers(a, t);
    forall i | 0 <= i < |Mask(a, t)|
      ensures !Superseded(Mask(a, t)[i], b)
    {
      var x := Mask(a, t)[i];
      assert x in Mask(a, t);
      var k :| 0 <= k < |a| && a[k] == x;
    }
  }

  /** Survivors of three blocks when the outer two are each free of comparable pairs and between them. */
  lemma SurvivorsOfBlocks(a: seq<Entry>, t: seq<Entry>, b: seq<Entry>)
    requires Incomparable(a) && Incomparable(b)
    requires forall i :: 0 <= i < |a| ==> !Superseded(a[i], b)
    ensures Survivors(a + t + b) == Mask(a, t) + Mask(Survivors(t), b) + b
  {
    SurvivorsAppend(a + t, b);
    SurvivorsOfIncomparable(b);
    SurvivorsAppend(a, t);
    SurvivorsOfIncomparable(a);
    MaskAppend(Mask(a, t), Survivors(t), b);
    MaskedUnsuperseded(a, t, b);
    MaskKeepsAll(Mask(a, t), b);
  }

  /** A compacted history splits into the entries that do not sort after `u` and those that do. */
  lemma SplitCompacted(history: seq<Entry>, u: Update) returns (a: seq<Entry>, b: seq<Entry>)
    requires Compacted(history)
    ensures history == a + b
    ensures forall i :: 0 <= i < |a| ==> !Later(a[i].update, u)
    ensures forall i :: 0 <= i < |b| ==> Later(b[i].update, u)
    ensures Incomparable(a) && Incomparable(b)
    ensures forall i :: 0 <= i < |a| ==> !Superseded(a[i], b)
  {
    var m := NotAfterCount(history, u);
    SplitSorted(history, u);
    a, b := history[..m], history[m..];
    assert history == a + b;
    IncomparableSplit(history, m);
  }

  /** Both halves of a history with no comparable pair keep that property, and neither supersedes the other. */
  lemma IncomparableSplit(s: seq<Entry>, m: nat)
    requires Incomparable(s) && m <= |s|
    ensures Incomparable(s[..m]) && Incomparable(s[m..])
    ensures forall i :: 0 <= i < m ==> !Superseded(s[..m][i], s[m..])
  {
    var a, b := s[..m], s[m..];
    forall i, y | 0 <= i < |a| && y in b
      ensures !Comparable(a[i].change.path, y.change.path)
    {
      var l :| 0 <= l < |b| && b[l] == y;
      assert s[i] == a[i] && s[m + l] == y;
    }
  }

  /**
   * The shape of a merge of one update `u` into a compacted history: the
   * old entries up to `u` that `u` does not supersede, then the surviving
   * changes of `u`, then the old entries after `u`, all of which survive.
   */
  lemma MergeShape(history: seq<Entry>, u: Update) returns (a': seq<Entry>, t': seq<Entry>, b: seq<Entry>)
    requires Compacted(history)
    requires ValidUpdate(u)
    ensures Merged(history, [u]) == a' + t' + b
    ensures forall i :: 0 <= i < |a'| ==> !Later(a'[i].update, u)
    ensures forall i :: 0 <= i < |a'| ==> !Superseded(a'[i], Tag(u)) && !Superseded(a'[i], b)
    ensures forall i :: 0 <= i < |t'| ==> t'[i] in Tag(u)
    ensures forall i :: 0 <= i < |b| ==> Later(b[i].update, u)
    ensures Incomparable(b)
    ensures t' == Mask(Survivors(Tag(u)), b)
  {
    var t := Tag(u);
    TagAllOne(u);
    var a;
    a, b := SplitCompacted(history, u);
    SortAppendedBlock(a, b, t, u);
    SurvivorsOfBlocks(a, t, b);
    a', t' := Mask(a, t), Mask(Survivors(t), b);
    MaskedUnsuperseded(a, t, b);
    MaskMembers(a, t);
    forall i | 0 <= i < |a'|
      ensures !Later(a'[i].update, u)
    {
      assert a'[i] in a';
      var k :| 0 <= k < |a| && a[k] == a'[i];
    }
    MaskMembers(Survivors(t), b);
    SurvivorsMembers(t);
    forall i | 0 <= i < |t'|
      ensures t'[i] in t
    {
      assert t'[i] in t';
      assert t'[i] in Survivors(t);
    }
  }

  /**
   * Re-applying an update to the history it produced changes nothing: each
   * surviving change of the update is removed by its own later copy, which
   * takes its place, and nothing else is superseded.
   */
  lemma MergeIdempotent(history: seq<Entry>, u: Update)
    requires Compacted(history)
    requires ValidUpdate(u)
    ensures Merged(Merged(history, [u]), [u]) == Merged(history, [u])
  {
    var a', t', b := MergeShape(history, u);
    MergedCompacted(history, [u]);
    TagAllOne(u);
    RemergeShape(a', t', b, u);
  }

  /** The second merge of `MergeIdempotent`, on the shape `MergeShape` describes. */
  lemma RemergeShape(a': seq<Entry>, t': seq<Entry>, b: seq<Entry>, u: Update)
    requires ValidUpdate(u)
    requires Compacted(a' + t' + b)
    requires forall i :: 0 <= i < |a'| ==> !Later(a'[i].update, u)
    requires forall i :: 0 <= i < |a'| ==> !Superseded(a'[i], Tag(u)) && !Superseded(a'[i], b)
    requires forall i :: 0 <= i < |t'| ==> t'[i] in Tag(u)
    requires forall i :: 0 <= i < |b| ==> Later(b[i].update, u)
    requires Incomparable(b)
    requires t' == Mask(Survivors(Tag(u)), b)
    ensures Survivors(SortByUpdate(a' + t' + b + Tag(u))) == a' + t' + b
  {
    var t := Tag(u);
    var p := a' + t';
    assert Tag(u) == t;
    forall i | 0 <= i < |p|
      ensures !Later(p[i].update, u)
    {
      LaterAsymmetric(u, u);
      if i >= |a'| {
        assert p[i] == t'[i - |a'|];
      }
    }
    assert Sorted(p + b) by {
      assert p + b == a' + t' + b;
    }
    SortAppendedBlock(p, b, t, u);
    Assoc(a', t', b);
    IncomparablePrefix(a', t' + b);
    RemergeSurvivors(a', t', b, t);
  }

  /** The survivors of the re-sorted history of `RemergeShape`. */
  lemma RemergeSurvivors(a': seq<Entry>, t': seq<Entry>, b: seq<Entry>, t: seq<Entry>)
    requires Incomparable(a')
    requires forall i :: 0 <= i < |a'| ==> !Superseded(a'[i], t) && !Superseded(a'[i], b)
    requires forall i :: 0 <= i < |t'| ==> t'[i] in t
    requires Incomparable(b)
    requires t' == Mask(Survivors(t), b)
    ensures Survivors((a' + t') + t + b) == a' + t' + b
  {
    RemergeHead(a', t', b, t);
    RemergeTail(t, b, t');
    RemergeJoin(a' + t', t + b, a', t' + b);
    Assoc(a' + t', t, b);
    Assoc(a', t', b);
  }

  /** Survivors of two parts whose pieces are already known. */
  lemma RemergeJoin(head: seq<Entry>, tail: seq<Entry>, x: seq<Entry>, y: seq<Entry>)
    requires Mask(Survivors(head), tail) == x
    requires Survivors(tail) == y
    ensures Survivors(head + tail) == x + y
  {
    SurvivorsAppend(head, tail);
  }

  /** The re-merged update's block followed by the later entries survives as `t'` then `b`. */
  lemma RemergeTail(t: seq<Entry>, b: seq<Entry>, t': seq<Entry>)
    requires Incomparable(b)
    requires t' == Mask(Survivors(t), b)
    ensures Survivors(t + b) == t' + b
  {
    SurvivorsAppend(t, b);
    SurvivorsOfIncomparable(b);
  }

  lemma IncomparablePrefix(a: seq<Entry>, b: seq<Entry>)
    requires Incomparable(a + b)
    ensures Incomparable(a)
  {
    assert forall i :: 0 <= i < |a| ==> (a + b)[i] == a[i];
  }

  /** In the re-merge, the old entries before the update keep their place and its old copies go. */
  lemma RemergeHead(a': seq<Entry>, t': seq<Entry>, b: seq<Entry>, t: seq<Entry>)
    requires Incomparable(a')
    requires forall i :: 0 <= i < |a'| ==> !Superseded(a'[i], t) && !Superseded(a'[i], b)
    requires forall i :: 0 <= i < |t'| ==> t'[i] in t
    ensures Mask(Survivors(a' + t'), t + b) == a'
  {
    SurvivorsAppend(a', t');
    MaskAppend(Mask(Survivors(a'), t'), Survivors(t'), t + b);
    SurvivorsOfIncomparable(a');
    forall i, y | 0 <= i < |a'| && y in t'
      ensures !Comparable(a'[i].change.path, y.change.path)
    {
      var k :| 0 <= k < |t'| && t'[k] == y;
      assert y in t;
    }
    MaskKeepsAll(a', t');
    MaskKeepsAll(a', t + b);
    SurvivorsMembers(t');
    forall i | 0 <= i < |Survivors(t')|
      ensures Survivors(t')[i] in t + b
    {
      var x := Survivors(t')[i];
      assert x in Survivors(t');
      var k :| 0 <= k < |t'| && t'[k] == x;
    }
    MaskDropsAll(Survivors(t'), t + b);
  }

  lemma TagAllWellFormed(updates: seq<Update>)
    requires forall i :: 0 <= i < |updates| ==> ValidUpdate(updates[i])
    ensures WellFormed(TagAll(updates))
  {
    if |updates| != 0 {
      TagAllWellFormed(updates[1..]);
      var t := Tag(updates[0]);
      forall i | 0 <= i < |t|
        ensures ValidKeyPath(t[i].change.path)
      {
        assert ParseChange(updates[0].txn.elems[i]).value == t[i].change;
      }
    }
  }

  /** A merge stores only valid key paths. */
  lemma MergedWellFormed(history: seq<Entry>, updates: seq<Update>)
    requires forall i :: 0 <= i < |updates| ==> ValidUpdate(updates[i])
    requires WellFormed(history)
    ensures WellFormed(Merged(history, updates))
  {
    var all := history + TagAll(updates);
    TagAllWellFormed(updates);
    assert WellFormed(all);
    SortSorted(all);
    var sorted := SortByUpdate(all);
    SurvivorsMembers(sorted);
    var r := Survivors(sorted);
    forall i | 0 <= i < |r|
      ensures ValidKeyPath(r[i].change.path)
    {
      assert r[i] in r;
      assert r[i] in multiset(sorted);
      var k :| 0 <= k < |all| && all[k] == r[i];
    }
  }
}
