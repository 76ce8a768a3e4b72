/**
 * The shape grammar of the replicated document: keys, paths, values,
 * changes, transactions and updates, as they arrive from a local caller
 * or from a peer. Every validator works on raw JavaScript values, because
 * an inbound update may be anything a peer chose to send.
 */
module Shapes {
  import opened Wrappers

  /** A JavaScript value, as far as the validators can tell them apart. */
  datatype JsValue =
    | Null
    | Undefined
    | Bool(b: bool)
    | Num(n: int)
    | Str(s: string)
    | Arr(elems: seq<JsValue>)
    | Obj  // any object that is not an array; its properties are never inspected

  /** `a[i]` in JavaScript: reading past the end, or from a non-array, gives `undefined`. */
  function At(a: JsValue, i: nat): JsValue
  {
    if a.Arr? && i < |a.elems| then a.elems[i] else Undefined
  }

  /** The one string that may never be a key. */
  const ReservedKey: string := "__proto__"

  predicate ValidKeyString(k: string)
  {
    |k| != 0 && k != ReservedKey
  }

  /** key ::= string of nonzero length, not equal to "__proto__" */
  predicate ValidKey(key: JsValue)
  {
    key.Str? && ValidKeyString(key.s)
  }

  /** `keys.every(_validKey)`, scanning from the left. */
  function EveryKey(keys: seq<JsValue>): (r: bool)
    ensures r <==> forall i :: 0 <= i < |keys| ==> ValidKey(keys[i])
  {
    |keys| == 0 || (ValidKey(keys[0]) && EveryKey(keys[1..]))
  }

  /** path ::= [key] | [key, ..path] */
  predicate ValidPath(path: JsValue)
  {
    path.Arr? && |path.elems| != 0 && EveryKey(path.elems)
  }

  /** A path once it has been validated: a non-empty sequence of valid keys. */
  predicate ValidKeyPath(p: seq<string>)
  {
    |p| != 0 && forall i :: 0 <= i < |p| ==> ValidKeyString(p[i])
  }

  /** value ::= undefined | null | boolean | number | string, that is, null or `typeof value != 'object'`. */
  function ValidValue(value: JsValue): (r: bool)
    ensures r <==> !value.Arr? && !value.Obj?
  {
    value == Null || !(value.Null? || value.Arr? || value.Obj?)
  }

  /** References are an empty set in the base document; a subclass would widen this. */
  predicate ValidRef(ref: JsValue)
  {
    false
  }

  /** change ::= [path] | [path, value] | [path, 'ref', key] */
  predicate ValidChange(change: JsValue)
  {
    && change.Arr?
    && ValidPath(At(change, 0))
    && (|| |change.elems| == 1
        || (|change.elems| == 2 && ValidValue(At(change, 1)))
        || (&& |change.elems| == 3
            && At(change, 1) == Str("ref")
            && ValidKey(At(change, 2))
            && ValidRef(At(change, 3))))
  }

  /** `changes.every(_validChange)`, scanning from the left. */
  function EveryChange(changes: seq<JsValue>): (r: bool)
    ensures r <==> forall i :: 0 <= i < |changes| ==> ValidChange(changes[i])
  {
    |changes| == 0 || (ValidChange(changes[0]) && EveryChange(changes[1..]))
  }

  /** transaction ::= [change] | [change, ..transaction] */
  predicate ValidTransaction(transaction: JsValue)
  {
    transaction.Arr? && |transaction.elems| != 0 && EveryChange(transaction.elems)
  }

  /**
   * update ::= [transaction, timestamp, node-id]. Only the transaction is
   * checked; the timestamp and the source id are taken as they come.
   */
  datatype Update = Update(txn: JsValue, ts: int, source: string)

  predicate ValidUpdate(update: Update)
  {
    ValidTransaction(update.txn)
  }

  /** A value a change may store: null or a scalar. */
  type Value = v: JsValue | ValidValue(v) witness Null

  /** What a valid change does at its path. */
  datatype Op = Delete | Set(value: Value)

  /** A validated change: its path as plain strings and what it does there. */
  datatype Change = Change(path: seq<string>, op: Op)

  function KeyStrings(keys: seq<JsValue>): (p: seq<string>)
    requires forall i :: 0 <= i < |keys| ==> ValidKey(keys[i])
    ensures |p| == |keys| && forall i :: 0 <= i < |p| ==> keys[i] == Str(p[i])
  {
    if |keys| == 0 then [] else assert ValidKey(keys[0]); [keys[0].s] + KeyStrings(keys[1..])
  }

  function KeyValues(p: seq<string>): (keys: seq<JsValue>)
    ensures |keys| == |p| && forall i :: 0 <= i < |p| ==> keys[i] == Str(p[i])
  {
    if |p| == 0 then [] else [Str(p[0])] + KeyValues(p[1..])
  }

  /** The typed reading of a change the validator accepted. */
  function ChangeOf(change: JsValue): Change
    requires ValidChange(change)
  {
    Change(KeyStrings(change.elems[0].elems),
           if |change.elems| == 1 then Delete else Set(change.elems[1]))
  }

  /** The wire form of a typed change. */
  function EncodeChange(c: Change): JsValue
  {
    Arr([Arr(KeyValues(c.path))] + match c.op case Delete => [] case Set(v) => [v])
  }

  /**
   * Reads a raw change: it succeeds exactly on the changes the validator
   * accepts, and what it reads encodes back to the very same raw value.
   */
  function ParseChange(change: JsValue): (r: Option<Change>)
    ensures r.Some? <==> ValidChange(change)
    ensures r.Some? ==> ValidKeyPath(r.value.path) && EncodeChange(r.value) == change
  {
    if ValidChange(change) then
      var c := ChangeOf(change);
      assert Arr(KeyValues(c.path)) == change.elems[0];
      assert EncodeChange(c).elems == change.elems;
      Some(c)
    else None
  }

  /** Encoding a change whose path is valid and reading it back gives the change. */
  lemma EncodeThenParse(c: Change)
    requires ValidKeyPath(c.path)
    ensures ValidChange(EncodeChange(c))
    ensures ParseChange(EncodeChange(c)) == Some(c)
  {
    var e := EncodeChange(c);
    assert At(e, 0) == Arr(KeyValues(c.path));
    assert KeyStrings(KeyValues(c.path)) == c.path;
  }

  /**
   * The reference form is never valid in the base document: a valid change
   * is exactly a delete `[path]` or a set `[path, value]`.
   */
  lemma ValidChangeForms(change: JsValue)
    ensures ValidChange(change) <==>
      && change.Arr?
      && |change.elems| != 0
      && ValidPath(change.elems[0])
      && (|change.elems| == 1 || (|change.elems| == 2 && ValidValue(change.elems[1])))
  {
  }

  /** A lone string given where a path is expected stands for the one-key path. */
  function NormalizePath(path: JsValue): JsValue
  {
    if path.Str? then Arr([path]) else path
  }

  /** `set(path, value)` builds `[path, value]`. */
  function SetChange(path: JsValue, value: JsValue): JsValue
  {
    Arr([NormalizePath(path), value])
  }

  /** `ref(path, key)` builds `[path, 'ref', key]`. */
  function RefChange(path: JsValue, key: JsValue): JsValue
  {
    Arr([NormalizePath(path), Str("ref"), key])
  }

  /** `delete(path)` builds `[path]`. */
  function DeleteChange(path: JsValue): JsValue
  {
    Arr([NormalizePath(path)])
  }

  /**
   * A string path is valid exactly when it is a valid key, and the builders
   * give valid changes exactly when their path (and value) are valid; a
   * reference is never accepted.
   */
  lemma BuildersValidity(path: JsValue, value: JsValue, key: JsValue)
    ensures path.Str? ==> (ValidPath(NormalizePath(path)) <==> ValidKeyString(path.s))
    ensures ValidChange(SetChange(path, value)) <==> ValidPath(NormalizePath(path)) && ValidValue(value)
    ensures ValidChange(DeleteChange(path)) <==> ValidPath(NormalizePath(path))
    ensures !ValidChange(RefChange(path, key))
  {
  }
}
