/**
 * The dataset collection the service stores its objects in, seen as a
 * map from key to JSON object, and `safeDatasetOp`, the single path by
 * which the handlers write to it.
 *
 * A write to the collection can fail for reasons outside this model (the
 * disk, the collection's own files); the caller passes that outcome in as
 * `writeOk`.
 */
module Dataset {
  import opened GoStrings
  import opened GoSort

  /**
   * A decoded JSON value. Only whether it is a JSON string matters to the
   * service; every other value (number, boolean, null, array, object) is
   * kept as its JSON text.
   */
  datatype Value = Str(s: string) | Other(json: string)

  /** A decoded JSON object. */
  type Document = map<string, Value>

  /** The reserved field holding an object's workflow state. */
  const StateField: string := "_State"

  /** The operation codes CREATE, READ, UPDATE, DELETE and ASSIGN. */
  datatype Op = Create | Read | Update | Delete | Assign

  /** The object's `_State` field is the JSON string `state`. */
  predicate HasState(doc: Document, state: string)
  {
    StateField in doc && doc[StateField] == Str(state)
  }

  class Collection {
    var docs: map<string, Document>

    constructor (docs: map<string, Document>)
      ensures this.docs == docs
    {
      this.docs := docs;
    }

    /**
     * Keys(): every key of the collection once, in an order the
     * collection chooses.
     */
    method Keys() returns (keys: seq<string>)
      ensures forall k :: k in keys <==> k in docs
      ensures Distinct(keys)
    {
      keys := [];
      var rest := docs.Keys;
      while rest != {}
        invariant rest <= docs.Keys
        invariant forall k :: k in keys <==> k in docs && k !in rest
        invariant Distinct(keys)
        decreases rest
      {
        var k :| k in rest;
        assert multiset(keys)[k] == 0;
        keys := keys + [k];
        rest := rest - {k};
      }
    }

    /**
     * KeyFilter(keys, `(eq ._State "state")`): the keys, in their order,
     * whose object has `state` as its `_State`.
     */
    function KeyFilter(keys: seq<string>, state: string): (r: seq<string>)
      reads this
      ensures forall k :: k in r <==> k in keys && k in docs && HasState(docs[k], state)
      ensures multiset(r) <= multiset(keys)
    {
      if keys == [] then []
      else
        var rest := KeyFilter(keys[..|keys| - 1], state);
        var k := keys[|keys| - 1];
        assert keys == keys[..|keys| - 1] + [k];
        if k in docs && HasState(docs[k], state) then rest + [k] else rest
    }
  }

  /**
   * safeDatasetOp: CREATE, UPDATE and DELETE become the matching write on
   * `key`; any other operation is refused. The result is true when an
   * error is reported, and then nothing has been written.
   */
  method SafeDatasetOp(c: Collection, key: string, obj: Document, op: Op, writeOk: bool)
    returns (err: bool)
    modifies c
    ensures op in {Create, Update, Delete} ==> err == !writeOk
    ensures !(op in {Create, Update, Delete}) ==> err
    ensures err ==> c.docs == old(c.docs)
    ensures !err && op == Create ==> c.docs == old(c.docs)[key := obj]
    ensures !err && op == Update ==> c.docs == old(c.docs)[key := obj]
    ensures !err && op == Delete ==> c.docs == old(c.docs) - {key}
  {
    match op
    case Create =>
      if writeOk { c.docs := c.docs[key := obj]; }
      err := !writeOk;
    case Update =>
      if writeOk { c.docs := c.docs[key := obj]; }
      err := !writeOk;
    case Delete =>
      if writeOk { c.docs := c.docs - {key}; }
      err := !writeOk;
    case _ =>
      err := true;
  }
}
