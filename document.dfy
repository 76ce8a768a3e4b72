/**
 * The replicated document itself: the compacted history of changes and a
 * memoised projection of it, plus the staging buffer that batches local
 * changes into one transaction.
 */
module Document {
  import opened Wrappers
  import opened Shapes
  import opened Paths
  import opened Compaction
  import opened Projection
  import opened Digest

  const InvalidChange: string := "invalid change"

  /** `getIn(tree, path, fallback)` on a validated path; any other path gives the fallback. */
  function Lookup(t: Tree, path: JsValue, fallback: Tree): Tree
  {
    if ValidPath(path) then
      match GetAt(t, KeyStrings(path.elems))
      case Some(node) => node
      case None => fallback
    else fallback
  }

  /** The tagging loop of `mergeHistory`: every change of every update, after the history. */
  method TagInto(history: seq<Entry>, updates: seq<Update>) returns (all: seq<Entry>)
    requires forall i :: 0 <= i < |updates| ==> ValidUpdate(updates[i])
    ensures all == history + TagAll(updates)
  {
    all := history;
    var k := 0;
    while k < |updates|
      invariant k <= |updates|
      invariant all == history + TagAll(updates[..k])
    {
      var u := updates[k];
      var txn := u.txn.elems;
      var j := 0;
      while j < |txn|
        invariant j <= |txn|
        invariant all == history + TagAll(updates[..k]) + Tag(u)[..j]
      {
        all := all + [Entry(ChangeOf(txn[j]), u)];
        assert Tag(u)[..j + 1] == Tag(u)[..j] + [Tag(u)[j]];
        j := j + 1;
      }
      assert Tag(u)[..j] == Tag(u);
      TagAllSnoc(updates, k);
      k := k + 1;
    }
    assert updates[..k] == updates;
  }

  /**
   * The filter of `mergeHistory`: keeps the entries whose path neither starts
   * with the newest entry's path nor is a prefix of it.
   */
  method Supersede(kept: seq<Entry>, newest: Entry) returns (next: seq<Entry>)
    ensures next == Mask(kept, [newest])
  {
    next := [];
    var j := 0;
    while j < |kept|
      invariant j <= |kept|
      invariant next == Mask(kept[..j], [newest])
    {
      var below := StartsWith(newest.change.path, kept[j].change.path);
      var above := StartsWith(kept[j].change.path, newest.change.path);
      MaskAppend(kept[..j], [kept[j]], [newest]);
      assert kept[..j + 1] == kept[..j] + [kept[j]];
      if !below && !above {
        next := next + [kept[j]];
      }
      j := j + 1;
    }
    assert kept[..j] == kept;
  }

  /** The fold of `mergeHistory` over the sorted entries: exactly the survivors. */
  method Fold(sorted: seq<Entry>) returns (kept: seq<Entry>)
    ensures kept == Survivors(sorted)
  {
    kept := [];
    var i := 0;
    while i < |sorted|
      invariant i <= |sorted|
      invariant kept == Survivors(sorted[..i])
    {
      var next := Supersede(kept, sorted[i]);
      SurvivorsAppend(sorted[..i], [sorted[i]]);
      assert sorted[..i + 1] == sorted[..i] + [sorted[i]];
      kept := next + [sorted[i]];
      i := i + 1;
    }
    assert sorted[..i] == sorted;
  }

  class Model {
    /** `_changes`: the surviving changes, each tagged with its update, in update order. */
    var changes: seq<Entry>
    /** `_cache`: the projection of `changes`, or nothing until the next read. */
    var cache: Option<Tree>

    /** The history is compacted and the cache, when present, is the current projection. */
    ghost predicate Valid()
      reads this
    {
      && Compacted(changes)
      && WellFormed(changes)
      && (cache.Some? ==> cache.value == Project(changes))
    }

    constructor ()
      ensures Valid()
      ensures changes == [] && cache == None
    {
      changes := [];
      cache := None;
    }

    /**
     * `applyUpdate`: rejects an update whose transaction is malformed and
     * changes nothing; otherwise drops the cache, merges the update and
     * answers true, even when every change of the update was superseded.
     */
    method ApplyUpdate(u: Update) returns (ok: bool)
      requires Valid()
      modifies this
      ensures Valid()
      ensures ok <==> ValidUpdate(u)
      ensures !ok ==> changes == old(changes) && cache == old(cache)
      ensures ok ==> changes == Merged(old(changes), [u]) && cache == None
    {
      if !ValidUpdate(u) {
        return false;
      }
      cache := None;
      MergeHistory([u]);
      MergedWellFormed(old(changes), [u]);
      return true;
    }

    /**
     * `mergeHistory`: tags every change with its update and appends it, sorts
     * everything by update order, then folds: each change in turn removes
     * every kept change on its ancestor/descendant line and is kept itself.
     */
    method MergeHistory(updates: seq<Update>)
      requires forall i :: 0 <= i < |updates| ==> ValidUpdate(updates[i])
      modifies this`changes
      ensures changes == Merged(old(changes), updates)
      ensures Compacted(changes)
    {
      var all := TagInto(changes, updates);
      changes := Fold(SortByUpdate(all));
      MergedCompacted(old(changes), updates);
    }

    /**
     * `toJSON`: the projection of the history, computed at most once between
     * two merges; a cached projection is returned as it is.
     */
    method ToJSON() returns (doc: Tree)
      requires Valid()
      modifies this`cache
      ensures Valid()
      ensures doc == Project(changes) && cache == Some(doc)
      ensures old(cache).Some? ==> doc == old(cache).value
    {
      if cache.None? {
        cache := Some(Project(changes));
      }
      doc := cache.value;
    }

    /** `get(path, fallback)`: the node at the path in the projection, or the fallback. */
    method Get(path: JsValue, fallback: Tree) returns (r: Tree)
      requires Valid()
      modifies this`cache
      ensures Valid()
      ensures cache == Some(Project(changes))
      ensures r == Lookup(Project(changes), NormalizePath(path), fallback)
    {
      var doc := ToJSON();
      r := Lookup(doc, NormalizePath(path), fallback);
    }

    /** `history(sources)`: the digest a peer that reports `sources` is sent. */
    function History(sources: Option<map<string, int>>): (r: seq<Update>)
      reads this
      ensures forall u :: u in r <==>
        (exists i :: 0 <= i < |changes| && changes[i].update == u) && Wanted(sources, u)
    {
      DigestContents(changes, sources);
      HistoryOf(changes, sources)
    }

    /**
     * The replication layer's `localUpdate`, which stamps a transaction with
     * the local clock and source id and applies it; both are parameters here.
     */
    method LocalUpdate(txn: JsValue, ts: int, source: string) returns (ok: bool)
      requires Valid()
      modifies this
      ensures Valid()
      ensures ok <==> ValidTransaction(txn)
      ensures !ok ==> changes == old(changes) && cache == old(cache)
      ensures ok ==> changes == Merged(old(changes), [Update(txn, ts, source)]) && cache == None
    {
      ok := ApplyUpdate(Update(txn, ts, source));
    }

    /** `localChange`: throws on an invalid change, else applies it as a one-change transaction. */
    method LocalChange(change: JsValue, ts: int, source: string) returns (r: Outcome)
      requires Valid()
      modifies this
      ensures Valid()
      ensures r == if ValidChange(change) then Pass else Fail(InvalidChange)
      ensures r.Fail? ==> changes == old(changes) && cache == old(cache)
      ensures r.Pass? ==> changes == Merged(old(changes), [Update(Arr([change]), ts, source)]) && cache == None
    {
      if !ValidChange(change) {
        return Fail(InvalidChange);
      }
      var ok := LocalUpdate(Arr([change]), ts, source);
      return Pass;
    }

    /** `set(path, value)`. */
    method Set(path: JsValue, value: JsValue, ts: int, source: string) returns (r: Outcome)
      requires Valid()
      modifies this
      ensures Valid()
      ensures r.Pass? <==> ValidPath(NormalizePath(path)) && ValidValue(value)
      ensures r.Fail? ==> changes == old(changes) && cache == old(cache)
      ensures r.Pass? ==> changes == Merged(old(changes), [Update(Arr([SetChange(path, value)]), ts, source)]) && cache == None
    {
      BuildersValidity(path, value, Undefined);
      r := LocalChange(SetChange(path, value), ts, source);
    }

    /** `delete(path)`. */
    method Delete(path: JsValue, ts: int, source: string) returns (r: Outcome)
      requires Valid()
      modifies this
      ensures Valid()
      ensures r.Pass? <==> ValidPath(NormalizePath(path))
      ensures r.Fail? ==> changes == old(changes) && cache == old(cache)
      ensures r.Pass? ==> changes == Merged(old(changes), [Update(Arr([DeleteChange(path)]), ts, source)]) && cache == None
    {
      BuildersValidity(path, Undefined, Undefined);
      r := LocalChange(DeleteChange(path), ts, source);
    }

    /** `ref(path, key)`: references are never valid in the base document, so this always throws. */
    method Ref(path: JsValue, key: JsValue, ts: int, source: string) returns (r: Outcome)
      requires Valid()
      modifies this
      ensures Valid()
      ensures r == Fail(InvalidChange)
      ensures changes == old(changes) && cache == old(cache)
    {
      BuildersValidity(path, Undefined, key);
      r := LocalChange(RefChange(path, key), ts, source);
    }

    /** `transact()`: a fresh, empty staging buffer bound to this document. */
    method Transact() returns (t: Transaction)
      ensures fresh(t)
      ensures t.model == this && t.buffer == [] && t.Valid()
    {
      t := new Transaction(this);
    }
  }

  /** A batch of local changes that is applied as one transaction when executed. */
  class Transaction {
    const model: Model
    /** `transaction`: the staged changes, in the order they were made. */
    var buffer: seq<JsValue>

    /** Only validated changes are ever staged. */
    ghost predicate Valid()
      reads this
    {
      forall i :: 0 <= i < |buffer| ==> ValidChange(buffer[i])
    }

    constructor (model: Model)
      ensures this.model == model && buffer == [] && Valid()
    {
      this.model := model;
      buffer := [];
    }

    /** `localChange`: throws on an invalid change and stages nothing, else appends the change. */
    method LocalChange(change: JsValue) returns (r: Outcome)
      requires Valid()
      modifies this`buffer
      ensures Valid()
      ensures r == if ValidChange(change) then Pass else Fail(InvalidChange)
      ensures buffer == if r.Pass? then old(buffer) + [change] else old(buffer)
    {
      if !ValidChange(change) {
        return Fail(InvalidChange);
      }
      buffer := buffer + [change];
      return Pass;
    }

    /** `set(path, value)` staged. */
    method Set(path: JsValue, value: JsValue) returns (r: Outcome)
      requires Valid()
      modifies this`buffer
      ensures Valid()
      ensures r.Pass? <==> ValidPath(NormalizePath(path)) && ValidValue(value)
      ensures buffer == if r.Pass? then old(buffer) + [SetChange(path, value)] else old(buffer)
    {
      BuildersValidity(path, value, Undefined);
      r := LocalChange(SetChange(path, value));
    }

    /** `delete(path)` staged. */
    method Delete(path: JsValue) returns (r: Outcome)
      requires Valid()
      modifies this`buffer
      ensures Valid()
      ensures r.Pass? <==> ValidPath(NormalizePath(path))
      ensures buffer == if r.Pass? then old(buffer) + [DeleteChange(path)] else old(buffer)
    {
      BuildersValidity(path, Undefined, Undefined);
      r := LocalChange(DeleteChange(path));
    }

    /** `ref(path, key)` staged: never accepted in the base document. */
    method Ref(path: JsValue, key: JsValue) returns (r: Outcome)
      requires Valid()
      modifies this`buffer
      ensures Valid()
      ensures r == Fail(InvalidChange) && buffer == old(buffer)
    {
      BuildersValidity(path, Undefined, key);
      r := LocalChange(RefChange(path, key));
    }

    /**
     * `execute`: hands the staged changes to the document as one transaction.
     * It is applied exactly when something was staged.
     */
    method Execute(ts: int, source: string) returns (ok: bool)
      requires Valid() && model.Valid()
      modifies model
      ensures model.Valid()
      ensures ok <==> |buffer| != 0
      ensures ok ==> model.changes == Merged(old(model.changes), [Update(Arr(buffer), ts, source)]) && model.cache == None
      ensures !ok ==> model.changes == old(model.changes) && model.cache == old(model.cache)
    {
      ok := model.LocalUpdate(Arr(buffer), ts, source);
    }
  }
}
