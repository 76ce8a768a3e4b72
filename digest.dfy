/**
 * The replication digest: the updates behind the surviving changes, each
 * run of one update collapsed to a single copy, restricted to what a peer
 * has not seen according to the timestamps it reports per source.
 */
module Digest {
  import opened Wrappers
  import opened Shapes
  import opened Order
  import opened Compaction

  /** The update each stored change came from, in history order. */
  function UpdatesOf(history: seq<Entry>): seq<Update>
  {
    seq(|history|, i requires 0 <= i < |history| => history[i].update)
  }

  /** Keeps an update unless it equals the one just before it in the input. */
  function Dedup(us: seq<Update>): seq<Update>
  {
    if |us| <= 1 then us
    else Dedup(us[..|us| - 1]) + (if us[|us| - 1] == us[|us| - 2] then [] else [us[|us| - 1]])
  }

  /**
   * Whether a peer that reports `sources` still wants `u`: it reports
   * nothing, or nothing (or 0, which JavaScript treats as false) for `u`'s
   * source, or a timestamp below `u`'s.
   */
  predicate Wanted(sources: Option<map<string, int>>, u: Update)
  {
    || sources.None?
    || u.source !in sources.value
    || sources.value[u.source] == 0
    || sources.value[u.source] < u.ts
  }

  /** The updates the peer still wants, in order. */
  function Since(us: seq<Update>, sources: Option<map<string, int>>): seq<Update>
  {
    if |us| == 0 then []
    else (if Wanted(sources, us[0]) then [us[0]] else []) + Since(us[1..], sources)
  }

  /** Strictly increasing in update order, hence free of repeats. */
  predicate Increasing(us: seq<Update>)
  {
    forall i, j :: 0 <= i < j < |us| ==> Later(us[j], us[i])
  }

  /** No two different updates share a timestamp and source id. */
  predicate UniqueKeys(us: seq<Update>)
  {
    forall i, j :: 0 <= i < |us| && 0 <= j < |us| && us[i].ts == us[j].ts && us[i].source == us[j].source ==> us[i] == us[j]
  }

  /** Collapsing runs loses no update and adds none. */
  lemma {:induction false} DedupMembers(us: seq<Update>)
    ensures forall x :: x in Dedup(us) <==> x in us
    ensures |us| != 0 ==> |Dedup(us)| != 0 && Dedup(us)[|Dedup(us)| - 1] == us[|us| - 1]
  {
    if |us| > 1 {
      var init := us[..|us| - 1];
      DedupMembers(init);
      assert us == init + [us[|us| - 1]];
      assert us[|us| - 2] == init[|init| - 1];
    }
  }

  /** After collapsing, no update sits next to a copy of itself. */
  lemma {:induction false} DedupNoAdjacentRepeats(us: seq<Update>)
    ensures forall i :: 0 <= i < |Dedup(us)| - 1 ==> Dedup(us)[i] != Dedup(us)[i + 1]
  {
    if |us| > 1 {
      var init := us[..|us| - 1];
      DedupNoAdjacentRepeats(init);
      DedupMembers(init);
    }
  }

  /**
   * In update order, and with one update per key, collapsing runs leaves
   * each update exactly once, in strictly increasing order.
   */
  lemma {:induction false} DedupIncreasing(us: seq<Update>)
    requires forall i, j :: 0 <= i < j < |us| ==> !Later(us[i], us[j])
    requires UniqueKeys(us)
    ensures Increasing(Dedup(us))
  {
    if |us| > 1 {
      var n := |us| - 1;
      var init := us[..n];
      DedupIncreasing(init);
      DedupMembers(init);
      var d := Dedup(init);
      if us[n] != us[n - 1] {
        LaterTotal(us[n], us[n - 1]);
        assert Later(us[n], us[n - 1]);
        forall i | 0 <= i < |d|
          ensures Later(us[n], d[i])
        {
          if i < |d| - 1 {
            LaterTransitive(us[n], us[n - 1], d[i]);
          }
        }
      }
    }
  }

  /** A peer gets exactly the updates it wants; one that reports nothing gets them all. */
  lemma {:induction false} SinceMembers(us: seq<Update>, sources: Option<map<string, int>>)
    ensures forall x :: x in Since(us, sources) <==> x in us && Wanted(sources, x)
    ensures sources.None? ==> Since(us, sources) == us
  {
    if |us| != 0 {
      SinceMembers(us[1..], sources);
      assert us == [us[0]] + us[1..];
    }
  }

  /** Leaving updates out of an increasing sequence keeps it increasing. */
  lemma {:induction false} SinceIncreasing(us: seq<Update>, sources: Option<map<string, int>>)
    requires Increasing(us)
    ensures Increasing(Since(us, sources))
  {
    if |us| != 0 {
      SinceIncreasing(us[1..], sources);
      SinceMembers(us[1..], sources);
      var r := Since(us[1..], sources);
      forall j | 0 <= j < |r|
        ensures Later(r[j], us[0])
      {
        assert r[j] in r;
        var k :| 0 <= k < |us[1..]| && us[1..][k] == r[j];
        assert us[k + 1] == r[j];
      }
    }
  }

  /** `history(sources)`. */
  function HistoryOf(history: seq<Entry>, sources: Option<map<string, int>>): seq<Update>
  {
    Since(Dedup(UpdatesOf(history)), sources)
  }

  /**
   * The digest names exactly the updates behind the stored changes that the
   * peer wants; when the history is compacted and keys are unique, each of
   * them once, in update order.
   */
  lemma DigestContents(history: seq<Entry>, sources: Option<map<string, int>>)
    ensures forall u :: u in HistoryOf(history, sources) <==>
      (exists i :: 0 <= i < |history| && history[i].update == u) && Wanted(sources, u)
    ensures Compacted(history) && UniqueKeys(UpdatesOf(history)) ==> Increasing(HistoryOf(history, sources))
  {
    var us := UpdatesOf(history);
    DedupMembers(us);
    SinceMembers(Dedup(us), sources);
    forall u
      ensures u in us <==> exists i :: 0 <= i < |history| && history[i].update == u
    {
      if u in us {
        var i :| 0 <= i < |us| && us[i] == u;
        assert history[i].update == u;
      }
      if exists i :: 0 <= i < |history| && history[i].update == u {
        var i :| 0 <= i < |history| && history[i].update == u;
        assert us[i] == u;
      }
    }
    if Compacted(history) && UniqueKeys(us) {
      DedupIncreasing(us);
      SinceIncreasing(Dedup(us), sources);
    }
  }
}
