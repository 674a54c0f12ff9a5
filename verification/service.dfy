/**
 * The object handlers of the And/Or web service: create, read, update,
 * delete and assign an object of a dataset collection, and list its keys.
 *
 * The HTTP request is reduced to what the handlers decide on: the URL
 * path, the caller's roles, the decoded request body and whether the
 * collection accepts a write. The HTTP response becomes an `Outcome`.
 * The rules that decide who may do what (`isAllowed`, `canAssign`), the
 * reading of an object's state (`getState`) and the parsing of keys out
 * of the path (`getKey`, `getKeys`) are defined outside this model; a
 * `Service` holds them as given functions and the handlers never look
 * inside them.
 */
module AndOr {
  import opened GoStrings
  import opened GoSort
  import opened Dataset

  datatype Option<T> = None | Some(value: T)

  /** The role names of the caller. */
  type Roles = seq<string>

  /** The JSON the handler writes back. */
  datatype Payload =
    | Empty
    | Object(doc: Document)
    | Objects(docs: seq<Document>)
    | KeyList(keys: seq<string>)

  /**
   * The response of a handler: 200 with a payload, or an error status. An
   * update whose body is `null`, or whose `_State` is not a JSON string,
   * makes the handler panic; that is `Aborted`.
   */
  datatype Outcome =
    | Ok(payload: Payload)
    | BadRequest
    | Unauthorized
    | NotFound
    | MethodNotAllowed
    | NotAcceptable
    | UnsupportedMediaType
    | Aborted

  /**
   * The request body: a decoded object, the JSON literal `null` (which the
   * decoder accepts and which leaves the object a nil map), a body that
   * could not be read, or one that is not JSON.
   */
  datatype Body = Decoded(doc: Document) | Null | Unreadable | Malformed
  {
    /** The body decoded without error. */
    predicate IsJson()
    {
      Decoded? || Null?
    }

    /** The object the decoder filled in: a nil map reads as an empty object. */
    function Submitted(): (r: Document)
      requires IsJson()
      ensures Null? ==> r == map[]
      ensures Decoded? ==> r == doc
    {
      if Decoded? then doc else map[]
    }
  }

  /** The state a soft delete puts an object in. */
  const DeletedState: string := "deleted"

  /** The path prefix of an end point of collection `cName`: "/cName/action/". */
  function Route(cName: string, action: string): string
  {
    "/" + cName + "/" + action + "/"
  }

  /** The object with its `_State` set to `state` and every other field as it was. */
  function SetState(doc: Document, state: string): (r: Document)
    ensures r.Keys == doc.Keys + {StateField}
    ensures HasState(r, state)
    ensures forall f :: f in doc && f != StateField ==> r[f] == doc[f]
  {
    doc[StateField := Str(state)]
  }

  /** The object has no `_State`, or its `_State` is a JSON string. */
  predicate StateIsString(doc: Document)
  {
    StateField in doc ==> doc[StateField].Str?
  }

  /**
   * The state filter of a keys request: a path containing "/keys/state/"
   * whose remainder after "/cName/keys/state/" is not empty filters on that
   * remainder with surrounding white space trimmed.
   */
  function StateFilter(cName: string, path: string): (r: Option<string>)
    ensures r.Some? ==> Contains(path, "/keys/state/")
  {
    var state := TrimPrefix(path, Route(cName, "keys/state"));
    if Contains(path, "/keys/state/") && state != "" then Some(TrimSpace(state)) else None
  }

  /**
   * A keys path "/cName/keys/state/<s>" with a non-empty `s` filters on `s`
   * with its surrounding white space trimmed.
   */
  lemma StateFilterOfPath(cName: string, s: string)
    requires s != ""
    ensures StateFilter(cName, Route(cName, "keys/state") + s) == Some(TrimSpace(s))
  {
    var route := Route(cName, "keys/state");
    var path := route + s;
    assert path[|cName| + 1..|cName| + 1 + |"/keys/state/"|] == "/keys/state/";
    ContainsAt(path, "/keys/state/", |cName| + 1);
    assert path[..|route|] == route;
  }

  /** "/cName/keys/state/" with nothing after it lists every key unfiltered. */
  lemma EmptyStateIsNoFilter(cName: string)
    ensures StateFilter(cName, Route(cName, "keys/state")).None?
  {
    var route := Route(cName, "keys/state");
    assert route[..|route|] == route;
  }

  /** A path without "/keys/state/" never filters. */
  lemma NoStateSegmentIsNoFilter(cName: string, path: string)
    requires !Contains(path, "/keys/state/")
    ensures StateFilter(cName, path).None?
  {
  }

  class Service {
    const isAllowed: (Roles, string, Op) -> bool
    const canAssign: (Roles, string, string) -> bool
    const getState: Document -> string
    const getKey: (string, string) -> string
    const getKeys: (string, string) -> seq<string>

    constructor (
      isAllowed: (Roles, string, Op) -> bool,
      canAssign: (Roles, string, string) -> bool,
      getState: Document -> string,
      getKey: (string, string) -> string,
      getKeys: (string, string) -> seq<string>)
      ensures this.isAllowed == isAllowed && this.canAssign == canAssign
      ensures this.getState == getState
      ensures this.getKey == getKey && this.getKeys == getKeys
    {
      this.isAllowed := isAllowed;
      this.canAssign := canAssign;
      this.getState := getState;
      this.getKey := getKey;
      this.getKeys := getKeys;
    }

    // ---------------------------------------------------------------- keys

    /**
     * requestKeys: every key of the collection, sorted, or with a state
     * filter in the path only the keys whose object is in that state.
     */
    method RequestKeys(cName: string, c: Collection, path: string) returns (out: Outcome)
      ensures out.Ok? && out.payload.KeyList?
      ensures Sorted(out.payload.keys) && Distinct(out.payload.keys)
      ensures StateFilter(cName, path).None? ==>
        forall k :: k in out.payload.keys <==> k in c.docs
      ensures StateFilter(cName, path).Some? ==>
        forall k :: k in out.payload.keys <==>
          k in c.docs && HasState(c.docs[k], StateFilter(cName, path).value)
    {
      var keys := c.Keys();
      ghost var all := keys;
      if Contains(path, "/keys/state/") {
        var state := TrimPrefix(path, Route(cName, "keys/state"));
        if state != "" {
          var filtered := c.KeyFilter(keys, TrimSpace(state));
          DistinctSub(filtered, keys);
          keys := filtered;
        }
      }
      assert StateFilter(cName, path).None? ==> keys == all;
      var sorted := SortStrings(keys);
      DistinctSub(sorted, keys);
      forall k ensures k in sorted <==> k in keys {
        assert k in sorted <==> k in multiset(sorted);
        assert k in keys <==> k in multiset(keys);
      }
      return Ok(KeyList(sorted));
    }

    // -------------------------------------------------------------- create

    /**
     * requestCreate: the object is stored under the key from the path only
     * when the caller may create an object in its state and the key is
     * new. Permission is checked before the key.
     */
    method RequestCreate(cName: string, c: Collection, path: string, roles: Roles, body: Body, writeOk: bool)
      returns (out: Outcome)
      modifies c
      ensures body.Unreadable? ==> out == NotAcceptable && c.docs == old(c.docs)
      ensures body.Malformed? ==> out == BadRequest && c.docs == old(c.docs)
      ensures body.IsJson() && !isAllowed(roles, getState(body.Submitted()), Create) ==>
        out == Unauthorized && c.docs == old(c.docs)
      ensures body.IsJson() && isAllowed(roles, getState(body.Submitted()), Create) ==>
        var key := getKey(path, Route(cName, "create"));
        && (key in old(c.docs) ==> out == MethodNotAllowed && c.docs == old(c.docs))
        && (key !in old(c.docs) && !writeOk ==> out == NotAcceptable && c.docs == old(c.docs))
        && (key !in old(c.docs) && writeOk ==> out == Ok(Empty) && c.docs == old(c.docs)[key := body.Submitted()])
      ensures c.docs != old(c.docs) <==> out.Ok?
    {
      if body.Unreadable? {
        return NotAcceptable;
      }
      if body.Malformed? {
        return BadRequest;
      }
      var obj := body.Submitted();
      var state := getState(obj);
      if !isAllowed(roles, state, Create) {
        return Unauthorized;
      }
      var key := getKey(path, Route(cName, "create"));
      if key in c.docs {
        return MethodNotAllowed;
      }
      var err := SafeDatasetOp(c, key, obj, Create, writeOk);
      if err {
        return NotAcceptable;
      }
      assert key in c.docs;
      return Ok(Empty);
    }

    // ---------------------------------------------------------------- read

    /** A requested key, trimmed: not blank and present in the collection. */
    predicate Present(docs: map<string, Document>, key: string)
    {
      TrimSpace(key) != "" && TrimSpace(key) in docs
    }

    /** A present key whose object the roles may read in its state. */
    predicate Readable(docs: map<string, Document>, roles: Roles, key: string)
    {
      Present(docs, key) && isAllowed(roles, getState(docs[TrimSpace(key)]), Read)
    }

    /** A present key whose object the roles may not read in its state. */
    predicate Denied(docs: map<string, Document>, roles: Roles, key: string)
    {
      Present(docs, key) && !isAllowed(roles, getState(docs[TrimSpace(key)]), Read)
    }

    /** `key` is readable and names the object `d`. */
    predicate Shows(docs: map<string, Document>, roles: Roles, key: string, d: Document)
    {
      Readable(docs, roles, key) && docs[TrimSpace(key)] == d
    }

    /** The objects of the readable keys, in the order of the request. */
    function Visible(docs: map<string, Document>, roles: Roles, keys: seq<string>): (r: seq<Document>)
      ensures |r| <= |keys|
    {
      if keys == [] then []
      else
        var last := keys[|keys| - 1];
        Visible(docs, roles, keys[..|keys| - 1])
          + (if Readable(docs, roles, last) then [docs[TrimSpace(last)]] else [])
    }

    /**
     * An object is visible exactly when some readable requested key names
     * it. (That they come in request order is `Visible`'s own definition.)
     */
    lemma {:induction false} VisibleMembers(docs: map<string, Document>, roles: Roles, keys: seq<string>, d: Document)
      ensures d in Visible(docs, roles, keys) <==>
        exists i :: 0 <= i < |keys| && Shows(docs, roles, keys[i], d)
    {
      if keys != [] {
        var init, last := keys[..|keys| - 1], keys[|keys| - 1];
        VisibleMembers(docs, roles, init, d);
        assert forall i :: 0 <= i < |init| ==> init[i] == keys[i];
        assert d in Visible(docs, roles, keys) <==>
          d in Visible(docs, roles, init) || Shows(docs, roles, last, d);
      }
    }

    /** Some requested key was refused for lack of read permission. */
    predicate AnyDenied(docs: map<string, Document>, roles: Roles, keys: seq<string>)
    {
      keys != [] && (AnyDenied(docs, roles, keys[..|keys| - 1]) || Denied(docs, roles, keys[|keys| - 1]))
    }

    lemma {:induction false} AnyDeniedExists(docs: map<string, Document>, roles: Roles, keys: seq<string>)
      ensures AnyDenied(docs, roles, keys) <==> exists i :: 0 <= i < |keys| && Denied(docs, roles, keys[i])
    {
      if keys != [] {
        var init := keys[..|keys| - 1];
        AnyDeniedExists(docs, roles, init);
        assert forall i :: 0 <= i < |init| ==> init[i] == keys[i];
      }
    }

    /** Nothing is visible exactly when no requested key is readable. */
    lemma {:induction false} NothingVisible(docs: map<string, Document>, roles: Roles, keys: seq<string>)
      ensures Visible(docs, roles, keys) == [] <==>
        forall i :: 0 <= i < |keys| ==> !Readable(docs, roles, keys[i])
    {
      if keys != [] {
        var init := keys[..|keys| - 1];
        NothingVisible(docs, roles, init);
        assert forall i :: 0 <= i < |init| ==> init[i] == keys[i];
      }
    }

    /** One more requested key: its object, if readable, comes last. */
    lemma ReadStep(docs: map<string, Document>, roles: Roles, keys: seq<string>, i: nat)
      requires i < |keys|
      ensures Visible(docs, roles, keys[..i + 1]) ==
        Visible(docs, roles, keys[..i]) + (if Readable(docs, roles, keys[i]) then [docs[TrimSpace(keys[i])]] else [])
      ensures AnyDenied(docs, roles, keys[..i + 1]) == (AnyDenied(docs, roles, keys[..i]) || Denied(docs, roles, keys[i]))
    {
      assert keys[..i + 1][..i] == keys[..i];
      assert keys[..i + 1][i] == keys[i];
    }

    /**
     * requestRead: the objects of the requested keys that the caller may
     * read. Blank keys and keys that cannot be read are skipped; when
     * nothing is left, a key refused for lack of permission makes the
     * answer Unauthorized, otherwise NotFound.
     */
    method RequestRead(cName: string, c: Collection, path: string, roles: Roles) returns (out: Outcome)
      ensures getKeys(path, Route(cName, "read")) == [] ==> out == BadRequest
      ensures getKeys(path, Route(cName, "read")) != [] ==>
        var keys := getKeys(path, Route(cName, "read"));
        var objects := Visible(c.docs, roles, keys);
        && (|objects| == 0 && AnyDenied(c.docs, roles, keys) ==> out == Unauthorized)
        && (|objects| == 0 && !AnyDenied(c.docs, roles, keys) ==> out == NotFound)
        && (|objects| == 1 ==> out == Ok(Object(objects[0])))
        && (|objects| > 1 ==> out == Ok(Objects(objects)))
    {
      var keys := getKeys(path, Route(cName, "read"));
      if |keys| == 0 {
        return BadRequest;
      }
      var unauthorized := false;
      var objects: seq<Document> := [];
      for i := 0 to |keys|
        invariant objects == Visible(c.docs, roles, keys[..i])
        invariant unauthorized == AnyDenied(c.docs, roles, keys[..i])
      {
        ReadStep(c.docs, roles, keys, i);
        var key := TrimSpace(keys[i]);
        if key != "" {
          if key in c.docs {
            TrimSpaceIdempotent(keys[i]);
            var obj := c.docs[TrimSpace(key)];
            var state := getState(obj);
            if isAllowed(roles, state, Read) {
              objects := objects + [obj];
            } else {
              unauthorized := true;
            }
          }
        }
      }
      assert keys[..|keys|] == keys;
      if |objects| == 0 {
        if unauthorized {
          return Unauthorized;
        }
        return NotFound;
      } else if |objects| == 1 {
        return Ok(Object(objects[0]));
      }
      return Ok(Objects(objects));
    }

    /**
     * A refused key wins over a missing one: with one key the caller may
     * not read and one that is not there, nothing is visible and a key
     * was refused.
     */
    lemma RefusedBeatsMissing(docs: map<string, Document>, roles: Roles, k1: string, k2: string)
      requires Denied(docs, roles, k1) && !Present(docs, k2)
      ensures Visible(docs, roles, [k1, k2]) == []
      ensures AnyDenied(docs, roles, [k1, k2])
    {
    }

    // -------------------------------------------------------------- update

    /**
     * The object an update writes: the submitted fields, with `_State`
     * forced back to the current `state` when the submission has no
     * `_State`, or when it moves to a lexically smaller state the roles
     * may not assign.
     */
    function Revised(roles: Roles, state: string, submitted: Document): (r: Document)
      requires StateIsString(submitted)
      ensures r.Keys == submitted.Keys + {StateField}
      ensures forall f :: f in submitted && f != StateField ==> r[f] == submitted[f]
      ensures HasState(r, state) || (StateField in submitted && r[StateField] == submitted[StateField])
    {
      if StateField in submitted then
        var newState := submitted[StateField].s;
        if Compare(state, newState) > 0 && !canAssign(roles, state, newState) then
          SetState(submitted, state)
        else
          submitted
      else
        SetState(submitted, state)
    }

    /** When the written `_State` is the current state, and when it is the submitted one. */
    lemma RevisedState(roles: Roles, state: string, submitted: Document)
      requires StateIsString(submitted)
      ensures HasState(Revised(roles, state, submitted), state) <==>
        || StateField !in submitted
        || submitted[StateField] == Str(state)
        || (Compare(state, submitted[StateField].s) > 0 && !canAssign(roles, state, submitted[StateField].s))
      ensures StateField in submitted && !HasState(Revised(roles, state, submitted), state) ==>
        Revised(roles, state, submitted) == submitted
    {
    }

    /**
     * A move to a state that is not lexically smaller is written without
     * asking canAssign, whatever it answers.
     */
    lemma NonDecreasingStateNeedsNoGrant(roles: Roles, state: string, newState: string, submitted: Document)
      requires StateIsString(submitted) && HasState(submitted, newState)
      requires Compare(state, newState) <= 0
      ensures Revised(roles, state, submitted) == submitted
    {
    }

    /**
     * The order used is that of the names: a move from "review" to
     * "published" counts as going back and needs canAssign, while the move
     * from "published" back to "review" never asks for it.
     */
    lemma OrderIsLexical(roles: Roles)
      requires !canAssign(roles, "review", "published")
      ensures HasState(Revised(roles, "review", map[StateField := Str("published")]), "review")
      ensures HasState(Revised(roles, "published", map[StateField := Str("review")]), "review")
    {
      assert Compare("review", "published") > 0;
      assert Compare("published", "review") < 0;
    }

    /** Submitting the stored object back, with its state in `_State`, writes it unchanged. */
    lemma ResubmitIsIdempotent(roles: Roles, stored: Document)
      requires HasState(stored, getState(stored))
      ensures Revised(roles, getState(stored), stored) == stored
    {
    }

    /**
     * requestUpdate: reads the current object, and only when the caller may
     * update it in its current state reads the body and writes the revised
     * object. A caller without that permission gets no error and nothing
     * is written.
     */
    method RequestUpdate(cName: string, c: Collection, path: string, roles: Roles, body: Body, writeOk: bool)
      returns (out: Outcome)
      modifies c
      ensures var key := getKey(path, Route(cName, "update"));
        key !in old(c.docs) ==> out == NotFound && c.docs == old(c.docs)
      ensures var key := getKey(path, Route(cName, "update"));
        key in old(c.docs) && !isAllowed(roles, getState(old(c.docs)[key]), Update) ==>
          out == Ok(Empty) && c.docs == old(c.docs)
      ensures var key := getKey(path, Route(cName, "update"));
        key in old(c.docs) && isAllowed(roles, getState(old(c.docs)[key]), Update) ==>
          && (body.Unreadable? ==> out == NotAcceptable && c.docs == old(c.docs))
          && (body.Malformed? ==> out == UnsupportedMediaType && c.docs == old(c.docs))
          && (body.Null? ==> out == Aborted && c.docs == old(c.docs))
          && (body.Decoded? && !StateIsString(body.doc) ==> out == Aborted && c.docs == old(c.docs))
          && (body.Decoded? && StateIsString(body.doc) && !writeOk ==>
                out == NotAcceptable && c.docs == old(c.docs))
          && (body.Decoded? && StateIsString(body.doc) && writeOk ==>
                out == Ok(Empty) &&
                c.docs == old(c.docs)[key := Revised(roles, getState(old(c.docs)[key]), body.doc)])
    {
      var key := getKey(path, Route(cName, "update"));
      if key !in c.docs {
        return NotFound;
      }
      var obj := c.docs[key];
      var state := getState(obj);
      if isAllowed(roles, state, Update) {
        if body.Unreadable? {
          return NotAcceptable;
        }
        if body.Malformed? {
          return UnsupportedMediaType;
        }
        if body.Null? {
          // a nil map has no `_State`, and setting it panics
          return Aborted;
        }
        var updated := body.doc;
        if StateField in updated {
          if !updated[StateField].Str? {
            return Aborted;
          }
          var newState := updated[StateField].s;
          if Compare(state, newState) > 0 && !canAssign(roles, state, newState) {
            updated := updated[StateField := Str(state)];
          }
        } else {
          updated := updated[StateField := Str(state)];
        }
        assert updated == Revised(roles, state, body.doc);
        var err := SafeDatasetOp(c, key, updated, Update, writeOk);
        if err {
          return NotAcceptable;
        }
      }
      return Ok(Empty);
    }

    // -------------------------------------------------------------- delete

    /**
     * requestDelete: a soft delete. When the caller may delete the object
     * in its current state, the object stays under its key with `_State`
     * set to "deleted" and its other fields as they were. A caller without
     * that permission gets no error and nothing is written.
     */
    method RequestDelete(cName: string, c: Collection, path: string, roles: Roles, writeOk: bool)
      returns (out: Outcome)
      modifies c
      ensures var key := getKey(path, Route(cName, "delete"));
        key !in old(c.docs) ==> out == NotFound && c.docs == old(c.docs)
      ensures var key := getKey(path, Route(cName, "delete"));
        key in old(c.docs) && !isAllowed(roles, getState(old(c.docs)[key]), Delete) ==>
          out == Ok(Empty) && c.docs == old(c.docs)
      ensures var key := getKey(path, Route(cName, "delete"));
        key in old(c.docs) && isAllowed(roles, getState(old(c.docs)[key]), Delete) ==>
          && (!writeOk ==> out == NotAcceptable && c.docs == old(c.docs))
          && (writeOk ==>
                out == Ok(Empty) && c.docs == old(c.docs)[key := SetState(old(c.docs)[key], DeletedState)])
      ensures c.docs.Keys == old(c.docs.Keys)
    {
      var key := getKey(path, Route(cName, "delete"));
      if key !in c.docs {
        return NotFound;
      }
      var obj := c.docs[key];
      var state := getState(obj);
      if isAllowed(roles, state, Delete) {
        obj := obj[StateField := Str(DeletedState)];
        var err := SafeDatasetOp(c, key, obj, Update, writeOk);
        if err {
          return NotAcceptable;
        }
      }
      return Ok(Empty);
    }

    // -------------------------------------------------------------- assign

    /**
     * requestAssignment: the path remainder after "/cName/assign/" must be
     * "key/next". When both isAllowed(ASSIGN) at the current state and
     * canAssign from it to `next` hold, `_State` of that one object becomes
     * `next`; otherwise nothing is written and no error is reported.
     */
    method RequestAssignment(cName: string, c: Collection, path: string, roles: Roles, writeOk: bool)
      returns (out: Outcome)
      modifies c
      ensures var parts := Split(TrimPrefix(path, Route(cName, "assign")), '/');
        |parts| != 2 ==> out == BadRequest && c.docs == old(c.docs)
      ensures var parts := Split(TrimPrefix(path, Route(cName, "assign")), '/');
        |parts| == 2 ==>
          var key, next := TrimSpace(parts[0]), parts[1];
          && (key !in old(c.docs) ==> out == NotFound && c.docs == old(c.docs))
          && (key in old(c.docs) ==>
                var state := getState(old(c.docs)[key]);
                && (!(isAllowed(roles, state, Assign) && canAssign(roles, state, next)) ==>
                      out == Ok(Empty) && c.docs == old(c.docs))
                && (isAllowed(roles, state, Assign) && canAssign(roles, state, next) && !writeOk ==>
                      out == NotAcceptable && c.docs == old(c.docs))
                && (isAllowed(roles, state, Assign) && canAssign(roles, state, next) && writeOk ==>
                      out == Ok(Empty) && c.docs == old(c.docs)[key := SetState(old(c.docs)[key], next)]))
    {
      var parts := Split(TrimPrefix(path, Route(cName, "assign")), '/');
      if |parts| != 2 {
        return BadRequest;
      }
      var key, next := TrimSpace(parts[0]), parts[1];
      if key !in c.docs {
        return NotFound;
      }
      var obj := c.docs[key];
      var state := getState(obj);
      if isAllowed(roles, state, Assign) && canAssign(roles, state, next) {
        obj := obj[StateField := Str(next)];
        var err := SafeDatasetOp(c, key, obj, Update, writeOk);
        if err {
          return NotAcceptable;
        }
      }
      return Ok(Empty);
    }

    /**
     * A path "/cName/assign/<key>/<next>" whose key and next state hold no
     * '/' splits into exactly that key and that next state.
     */
    lemma AssignPathParts(cName: string, key: string, next: string)
      requires '/' !in key && '/' !in next
      ensures Split(TrimPrefix(Route(cName, "assign") + key + "/" + next, Route(cName, "assign")), '/') == [key, next]
    {
      var route := Route(cName, "assign");
      var path := route + key + "/" + next;
      assert path[..|route|] == route;
      assert path[|route|..] == key + "/" + next;
      assert Join([key, next], '/') == key + "/" + next;
      SplitJoin([key, next], '/');
    }
  }

  /** A list whose elements all come from a list without repeats has no repeats. */
  lemma DistinctSub(s: seq<string>, t: seq<string>)
    requires Distinct(t) && multiset(s) <= multiset(t)
    ensures Distinct(s)
  {
  }
}
