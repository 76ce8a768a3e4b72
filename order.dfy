/**
 * The total order on updates used to resolve conflicts: timestamp
 * ascending, then source id ascending. Every replica must use the same
 * order for their histories to agree.
 */
module Order {
  import opened Shapes

  /**
   * The string order of `a[2] > b[2]`: lexicographic on characters, a proper
   * prefix first. Characters are compared as Unicode scalar values, where
   * JavaScript compares UTF-16 code units.
   */
  predicate StrLess(a: string, b: string)
  {
    if |a| == 0 then |b| != 0
    else |b| != 0 && (a[0] < b[0] || (a[0] == b[0] && StrLess(a[1..], b[1..])))
  }

  /** `byTimestamp(a, b) > 0`: `a` sorts after `b`. */
  predicate Later(a: Update, b: Update)
  {
    a.ts > b.ts || (a.ts == b.ts && StrLess(b.source, a.source))
  }

  /**
   * The comparator `byTimestamp`: the timestamp difference, else 1 or -1 by
   * source id. It never answers 0, not even for equal keys, and it is
   * positive exactly when `a` is later than `b`.
   */
  function ByTimestamp(a: Update, b: Update): (r: int)
    ensures r != 0
    ensures r > 0 <==> Later(a, b)
  {
    if a.ts - b.ts != 0 then a.ts - b.ts
    else if StrLess(b.source, a.source) then 1 else -1
  }

  lemma {:induction false} StrLessIrreflexive(a: string)
    ensures !StrLess(a, a)
  {
    if |a| != 0 {
      StrLessIrreflexive(a[1..]);
    }
  }

  lemma {:induction false} StrLessTransitive(a: string, b: string, c: string)
    requires StrLess(a, b) && StrLess(b, c)
    ensures StrLess(a, c)
  {
    if |a| != 0 && a[0] == b[0] && b[0] == c[0] {
      StrLessTransitive(a[1..], b[1..], c[1..]);
    }
  }

  lemma {:induction false} StrLessTotal(a: string, b: string)
    ensures a == b || StrLess(a, b) || StrLess(b, a)
  {
    if |a| != 0 && |b| != 0 && a[0] == b[0] {
      StrLessTotal(a[1..], b[1..]);
      if a[1..] == b[1..] {
        assert a == [a[0]] + a[1..] && b == [b[0]] + b[1..];
      }
    }
  }

  /** No update is later than itself, and of two updates at most one is the later. */
  lemma LaterAsymmetric(a: Update, b: Update)
    ensures !Later(a, a)
    ensures Later(a, b) ==> !Later(b, a)
  {
    StrLessIrreflexive(a.source);
    if a.ts == b.ts && StrLess(b.source, a.source) && StrLess(a.source, b.source) {
      StrLessTransitive(a.source, b.source, a.source);
      StrLessIrreflexive(a.source);
    }
  }

  /** Two updates are in order one way or the other unless they have the same key. */
  lemma LaterTotal(a: Update, b: Update)
    ensures Later(a, b) || Later(b, a) || (a.ts == b.ts && a.source == b.source)
  {
    StrLessTotal(a.source, b.source);
  }

  /** "Not later than" is transitive: the sort order is a total preorder. */
  lemma NotLaterTransitive(a: Update, b: Update, c: Update)
    requires !Later(a, b) && !Later(b, c)
    ensures !Later(a, c)
  {
    if a.ts == c.ts {
      assert a.ts == b.ts == c.ts;
      StrLessTotal(a.source, b.source);
      StrLessTotal(b.source, c.source);
      if StrLess(c.source, a.source) {
        if a.source == b.source {
        } else if b.source == c.source {
        } else {
          StrLessTransitive(a.source, b.source, c.source);
          StrLessTransitive(a.source, c.source, a.source);
          StrLessIrreflexive(a.source);
        }
      }
    }
  }

  /** "Sorts after" is transitive. */
  lemma LaterTransitive(a: Update, b: Update, c: Update)
    requires Later(a, b) && Later(b, c)
    ensures Later(a, c)
  {
    LaterAsymmetric(a, b);
    LaterMonotone(b, a, c);
  }

  /** Anything at or after `a` is later than whatever `a` is later than. */
  lemma LaterMonotone(a: Update, b: Update, c: Update)
    requires !Later(a, b) && Later(a, c)
    ensures Later(b, c)
  {
    if !Later(b, c) {
      NotLaterTransitive(a, b, c);
    }
  }
}
