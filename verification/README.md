# And/Or object service: a Dafny model

And/Or is a small repository service. Its objects are JSON documents kept in a
dataset collection. Each object has a workflow state in its reserved `_State`
field. A web API lets a logged-in user do five things to objects, each gated by
the user's roles and the object's state:

- create an object;
- read one or several objects;
- update an object;
- delete an object (soft delete);
- assign an object to a new state.

The API can also list the collection's keys, optionally only those in one state.

This project models the decision logic of those handlers in `service.go`. For
each handler it models:

- which checks it makes, and in what order;
- what it writes to the collection, and when;
- which response it gives.

It also models `safeDatasetOp`, the single path through which every write goes.

Files:

- `gostrings.dfy`: the Go library behaviour the handlers depend on.
  - `strings.Compare`, `TrimSpace`, `TrimPrefix`, `Contains`, `Split`/`Join`.
  - `sort.Strings`.
  - Their laws: the comparison is a total order, `Split`/`Join` are inverses,
    and a sorted list is determined by its elements.
- `dataset.dfy`: the collection.
  - A `Collection` class whose `docs` field maps keys to documents.
  - Its `Keys` and `KeyFilter` queries.
  - `SafeDatasetOp`.
- `service.dfy`: the `Service` class and its handlers.
  - `RequestKeys`, `RequestCreate`, `RequestRead`, `RequestUpdate`,
    `RequestDelete` and `RequestAssignment`.
  - The functions that specify them, and lemmas about those functions.

How the request is modelled:

- **Path:** the URL path is a string parameter.
- **Roles:** the caller's roles are a parameter of type `seq<string>`.
- **Body:** the request body is already decoded (an object, or the JSON literal
  `null`), or it failed with one of two errors (`Body`).
- **Write failure:** a write to the collection can fail. The caller passes that
  in as `writeOk`, and a failed write gives `NotAcceptable`.
- **Response:** an `Outcome`, either `Ok(payload)` or one of the error statuses
  the handlers send.

Some helpers the handlers call are defined outside `service.go`:

- `isAllowed(roles, state, op)`;
- `canAssign(roles, from, to)`;
- `getState(object)`;
- `getKey(path, prefix)` and `getKeys(path, prefix)`.

Each is a function-typed field of `Service`. The model never assumes anything
about their bodies, so every property below holds whatever the permission
tables say.

Points of the handlers' behaviour worth knowing:

- **Create:** the code checks permission before it checks for a duplicate key.
- **Denied update, delete or assign:** the code writes nothing and still answers
  200 with an empty body.
- **Update regression test:** the code compares state names lexically
  (`strings.Compare(state, newState) > 0`).
  - Only a move to a lexically smaller name consults `canAssign`.
  - The comment above that code (service.go:302-304) says that any change of
    state should be checked. The code checks only lexically smaller ones, and
    `OrderIsLexical` shows the effect on a "review"/"published" workflow.

## Model

| member | source | states |
|---|---|---|
| `Dataset.SafeDatasetOp` | service.go:36-49 | CREATE and UPDATE store the object under the key, and DELETE removes the key. If the write fails, an error is reported and nothing changes. Any other operation code is an error and leaves the collection unchanged. |
| `Dataset.Collection.Keys` | service.go:104 | Lists every key of the collection exactly once (membership both ways, no repeats), in an order the collection chooses. |
| `Dataset.Collection.KeyFilter` | service.go:110 | A key is kept exactly when it was in the input and its object's `_State` is the given string. The result holds no more copies of any key than the input did. |
| `AndOr.StateFilter` | service.go:106-112 | A state filter applies only when the path contains "/keys/state/". |
| `AndOr.StateFilterOfPath` | service.go:106-112 | A path "/cName/keys/state/s" with a non-empty `s` filters on `s` with its surrounding white space trimmed. |
| `AndOr.EmptyStateIsNoFilter` | service.go:108-109 | The path "/cName/keys/state/" with nothing after it applies no filter. |
| `GoStrings.ContainsSpec` | service.go:107 | `Contains(s, sub)` holds exactly when `sub` starts at some position of `s`. |
| `GoStrings.ContainsAt` | service.go:107 | An occurrence of `sub` at a given position is found. |
| `AndOr.Service.RequestKeys` | service.go:99-121 | Answers Ok with a key list that is sorted ascending and has no repeats. Without a filter, it holds exactly the collection's keys. With a filter, it holds exactly the keys whose object's `_State` equals the filter value. Nothing is written. |
| `GoSort.SortStrings` | service.go:113 | The result is sorted in Go's string order and is a permutation of the input. |
| `GoSort.SortedUnique` | service.go:113 | Two sorted lists with the same elements are equal. So the key listing does not depend on the order in which the collection returns its keys. |
| `GoSort.Insert` | service.go:113 | Inserting into a sorted list keeps it sorted, and adds exactly one copy of the element. |
| `AndOr.Service.RequestCreate` | service.go:125-188 | Returns NotAcceptable for an unreadable body and BadRequest for a malformed one. A `null` body is an empty object. Returns Unauthorized when `isAllowed(roles, getState(obj), CREATE)` fails, before the key is looked at. Returns MethodNotAllowed for an existing key, and NotAcceptable for a failed write. Otherwise it stores the submitted object under the key. The collection changes exactly when the answer is Ok. |
| `AndOr.Service.Visible` | service.go:214-233 | The objects the read loop collects, in request order. There are never more of them than keys requested. |
| `AndOr.Service.VisibleMembers` | service.go:216-231 | An object is in the read result exactly when some requested key passes three tests. Trimmed, the key is not blank and is present. It names that object. The roles may read the object in its state. |
| `AndOr.Service.NothingVisible` | service.go:234-241 | The read result is empty exactly when no requested key is readable. |
| `AndOr.Service.AnyDeniedExists` | service.go:225-229 | The `unauthorized` flag holds exactly when some requested key is present but may not be read. |
| `AndOr.Service.ReadStep` | service.go:216-233 | One loop iteration appends the key's object only if it is readable. It sets the flag only if the key is denied. |
| `AndOr.Service.RequestRead` | service.go:192-253 | An empty key list gives BadRequest. Otherwise the result is exactly the readable objects, in request order: one object alone, or a list of several. If nothing is visible, a denied present key gives Unauthorized, and otherwise the answer is NotFound. The method writes nothing (it has no modifies clause). |
| `AndOr.Service.RefusedBeatsMissing` | service.go:234-240 | Take a key the caller may not read and a key that is absent. Nothing is visible and a key was denied, so the answer is Unauthorized rather than NotFound. |
| `AndOr.Service.Revised` | service.go:302-316 | The written object has the submitted fields plus `_State`. Every field other than `_State` comes from the submission. `_State` is either the current state or the submitted `_State`. |
| `AndOr.Service.RevisedState` | service.go:305-316 | The current state is kept exactly when one of three things holds: the submission has no `_State`; it repeats the current state; or it names a lexically smaller state that `canAssign` refuses. Otherwise the submission is written unchanged. |
| `AndOr.Service.NonDecreasingStateNeedsNoGrant` | service.go:307-308 | A submitted state that is not lexically smaller is written whatever `canAssign` answers. |
| `AndOr.Service.OrderIsLexical` | service.go:307 | If `canAssign` refuses review to published, an update from "review" to "published" keeps "review". An update from "published" to "review" goes through without asking. |
| `AndOr.Service.ResubmitIsIdempotent` | service.go:305-316 | Resubmitting the stored object writes it back unchanged. This needs its `_State` to be its current state. |
| `AndOr.Service.RequestUpdate` | service.go:257-330 | A missing key gives NotFound. Without UPDATE permission at the current state, nothing is written and the answer is Ok. With permission, there are five cases. An unreadable body gives NotAcceptable. A malformed body gives UnsupportedMediaType. A `null` body or a non-string `_State` aborts the handler. A failed write gives NotAcceptable. Otherwise the key maps to `Revised(...)` and nothing else changes. |
| `AndOr.SetState` | service.go:364 | Only `_State` changes: it becomes the given state and every other field is kept. |
| `AndOr.Service.RequestDelete` | service.go:336-374 | A missing key gives NotFound. Without DELETE permission, nothing is written and the answer is Ok. With permission, the key stays and its object gets `_State` "deleted" with its other fields unchanged. A failed write gives NotAcceptable. The key set never changes. |
| `AndOr.Service.RequestAssignment` | service.go:378-421 | BadRequest unless the path remainder splits into exactly two parts. A missing (trimmed) key gives NotFound. If both `isAllowed(ASSIGN)` and `canAssign(state, next)` hold, only that object's `_State` becomes `next`. Otherwise nothing is written and the answer is Ok. A failed write gives NotAcceptable. |
| `AndOr.Service.AssignPathParts` | service.go:398-403 | A path "/cName/assign/key/next" whose key and next state hold no '/' splits into exactly that key and that next state. |
| `GoStrings.Compare` | service.go:307 | The result is -1, 0 or 1. It is 0 exactly when the strings are equal. |
| `GoStrings.CompareAntisymmetric` | service.go:307 | Swapping the arguments negates the comparison. |
| `GoStrings.CompareTransitive` | service.go:307 | The order is transitive. |
| `GoStrings.PrefixComesFirst` | service.go:307 | A proper prefix sorts first. |
| `GoStrings.TrimSpaceSpec` | service.go:217 | The result is a middle part of the string with only Unicode white space cut off either side. It neither starts nor ends with white space. A string without white space at either end is unchanged. |
| `GoStrings.TrimSpaceEmpty` | service.go:217-218 | A key is blank after trimming exactly when it is all white space. |
| `GoStrings.TrimSpaceIdempotent` | service.go:217-220 | Trimming an already trimmed key changes nothing, so the second trim in the read loop has no effect. |
| `GoStrings.TrimPrefix` | service.go:108 | The prefix is dropped when the path starts with it. Otherwise the path is unchanged. |
| `GoStrings.Split` | service.go:398 | There is one more piece than there are separators, and no piece contains the separator. |
| `GoStrings.JoinSplit` | service.go:398 | Joining the pieces of a split gives the string back. |
| `GoStrings.SplitJoin` | service.go:398 | Splitting a join of pieces that have no separator gives the pieces back. |

## Left out

- HTTP method checks: the handlers' check that the method is POST is left out as a transport concern.
- User resolution: finding the user and their roles is left out. The roles are an input, and a request without a user or roles never reaches the model.
- Responses: `writeError`, `writeJSON`, JSON encoding of responses and its failure (service.go:114-119, 243-250), and logging are left out.
- `requestAccessInfo`, `addAccessRoute`, `assignHandlers` and `RunService` are route wiring and server start-up, and are not part of this model.
- The mutex in `safeDatasetOp` is left out. It serialises concurrent requests, and the model is sequential with a single caller.
- The dataset library is a map. Its write failures of every kind are the `writeOk` input, and its own checks for duplicate or missing keys are not modelled separately. A failed read is an absent key. The order in which `Keys` returns keys is left open.
- `Dataset.Collection.KeyFilter` never fails. In the source an error from KeyFilter is overwritten before it is looked at (service.go:110-114), and the key list it then returns is not modelled.
- `isAllowed`, `canAssign`, `getState`, `getKey`, `getKeys`, `getUsername`, `getUserRoles` and `getUserInfo` are not part of this model. They appear only as given functions or as inputs.
- Operation codes: the integer values of CREATE, READ, UPDATE, DELETE and ASSIGN are not part of this model. The codes are a five-case datatype, so the "unsupported operation" branch of `safeDatasetOp` is reached by READ and ASSIGN.
- Create with a `null` body: the nil map is modelled as an empty object. How the collection stores a nil map is not part of this model.
- JSON values: decoding is not modelled. A value is either a JSON string or some other JSON value kept as text, which is all the handlers distinguish.
- Update panic: in update, a `_State` that is not a string makes the Go type assertion panic, and a `null` body leaves a nil map whose `_State` assignment panics. The model reports both as `Aborted` and writes nothing. The HTTP server's recovery from the panic is not modelled.
- `user.go` (user records read from JSON/TOML files and stored in a collection) and `app/routes.py` (the web UI's login and form handlers) are not part of this model.
