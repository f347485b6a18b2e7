# Locker occupancy service — Dafny model

The service keeps a table `loker` of lockers, keyed by `loker_id`. Each row
has a free-text `status` ('Occupied' or 'Not Occupied') and a nullable
`occupied_by`, the refid of the card holding the locker. A "tap" with a
refid toggles a locker. A vacant locker is taken by the refid unless that
refid already holds an 'Occupied' locker. An occupied locker is released
only by the refid stored in it. Around the tap sit GET by id, POST and
DELETE.

The repository has three servers with the same core, modelled side by side:

- `api/index.js` (module `LokerApi`, class `ApiServer`): refuses a bad id or a
  falsy refid up front, and broadcasts every successful tap over socket.io.
  Its POST lets the store assign the id.
- `index.js` (module `LokerIndex`, class `IndexServer`): the same tap without
  the broadcast. Its POST takes a caller-chosen `loker_id` and checks it.
- `app.js` (module `LokerApp`, class `AppServer`): does not check the refid
  up front. A falsy refid is refused only when it would occupy a vacant
  locker, and only after the uniqueness scan. It has no POST and no DELETE.

Shared parts live in two modules:

- `LokerModel` (model.dfy): JSON body values and JavaScript truthiness, the
  text node-postgres sends for a query parameter, strict equality `===`, the
  table as `map<int, Locker>`, the HTTP outcomes, the GET lookup, the
  uniqueness scan and the two store invariants.
- `LokerTap` (tap.dfy): the tap of api/index.js and index.js as a pure
  function (`Tap`), with its status branch (`TapDecision`), its UPDATE
  (`Commit`) and the lemmas about it.

Each class holds the table as a `map` field, and `ApiServer` also holds the
broadcast log as a `seq` field. The methods work step by step as the handlers do:
early returns, the `newStatus`/`occupiedBy` decision, then an in-place
update of the row. The postconditions of `ApiServer.Tap` and
`IndexServer.Tap` tie the response and the new table to `LokerTap.Tap` in
tap.dfy. For `ApiServer.Tap` they also tie the new broadcast log to it.
`IndexServer` keeps no log. `AppServer.Tap` is tied the same way to
`LokerApp.AppTap` in app.dfy. Each tap method also states that the
invariants are kept.

Modelling choices:

- A request is one atomic step. The tap does a plain unconditional
  `UPDATE`, not a compare-and-set, and it has no `Conflict` outcome. The
  model does the same.
- A refid or `loker_id` from the body is a `JsonValue`: `Undefined` (left
  out of the body), `Null`, a boolean, a safe integer (at most
  2^53 − 1 = 9007199254740991 in absolute value) or a string.
  `!refid` is JavaScript falsiness. The query parameter is node-postgres's
  conversion: `undefined`/`null` become SQL NULL, anything else its
  `toString()`. For a safe integer that text is exactly its decimal digits
  (`IntText`). The stored row holds that text. The broadcast payload holds
  the refid as the body sent it, as `occupiedBy = refid` does.
- `currentOccupiedBy !== refid` is strict equality between the stored text
  (or `null`) and the body value. So `null` matches only `null`, never a
  missing refid, and a stored "5" does not match the number 5
  (`NumericRefidCannotRelease`).
- The scan `occupied_by = $1 AND status = 'Occupied'` never matches a NULL
  parameter (`AppTapMissingRefidBadRequest`).
- The id in the path, `parseInt(req.params.id)`, is an `Option<int>`, with
  `None` for NaN.
- The store invariants are `Consistent` (`occupied_by` is non-null exactly on
  'Occupied' rows) and `UniqueOccupancy` (no two 'Occupied' rows share a
  non-null `occupied_by`). Both taps keep them. POST with the default
  values keeps them, and DELETE keeps them.

## Model

| member | source | states |
|---|---|---|
| LokerModel.Truthy | api/index.js:120 | the falsy values of `!refid` are exactly undefined, null, false, 0 and the empty string |
| LokerModel.IntText | api/index.js:135-138 | `String(n)` of a safe integer, the canonical numeral: decimal digits with no leading zero (0 is "0"), with a leading '-' for a negative number, that read back as the number |
| LokerModel.SqlText | api/index.js:135-160 | undefined/null refid becomes SQL NULL; every truthy value becomes non-null text; a string is sent as itself, a number as its canonical decimal text, a boolean as "true"/"false" |
| LokerModel.StrictEquals | api/index.js:150 | a stored occupant strictly equals a refid only if the refid sends the same text; for a string refid that is an iff; a null refid equals exactly a stored NULL; undefined, booleans and numbers never equal a stored value |
| LokerModel.OccupyingRows | api/index.js:135-138 | the scan's result is exactly the set of 'Occupied' rows holding the given non-null refid, and empty for NULL |
| LokerModel.Lookup | app.js:24-35 | GET by id: 400 exactly for an unparsable id, 404 exactly for an absent id, otherwise 200 with the stored row unchanged |
| LokerModel.NewLocker | api/index.js:76 | POST defaults: status 'Not Occupied' when absent, occupied_by as given (null when absent) |
| LokerModel.ScanEmptyIffNoHolder | api/index.js:135-141 | the uniqueness scan is empty exactly when no 'Occupied' row holds that refid |
| LokerModel.ScanIsSingleton | api/index.js:134-141 | under the invariant the scan returns exactly the one locker the refid holds |
| LokerModel.ScanAtMostOne | api/index.js:134-141 | under the invariant the scan returns at most one row |
| LokerModel.UniqueOccupancyIffScanAtMostOne | api/index.js:134-141 | the uniqueness invariant holds iff the scan returns at most one row for every refid |
| LokerTap.TapDecision | api/index.js:144-155 | refusal (403) exactly for an occupied locker and a refid not strictly equal to the occupant; otherwise the status toggles, to (Occupied, refid) or (Not Occupied, null) |
| LokerTap.WrittenRow | api/index.js:157-160 | the UPDATE writes the new status as given; occupied_by is NULL exactly for an undefined/null value; a string refid is stored as itself and then strictly equals it; a number is stored as its canonical decimal text |
| LokerTap.Commit | api/index.js:157-167 | a refusal changes nothing; a write replaces exactly the tapped row, returns it, and reports a change that matches it |
| LokerTap.Tap | api/index.js:116-172 | every failure leaves the table unchanged and reports no change; a success touches only the tapped row and reports exactly one change equal to the new row; the outcome is one of 200/400/404/403 |
| LokerTap.TapRejectsMalformedRequest | api/index.js:117-122 | an unparsable id or a falsy refid gives 400, no table change, no broadcast |
| LokerTap.TapAbsentLockerNotFound | api/index.js:125-129 | a well-formed tap on an absent id gives 404, no table change, no broadcast |
| LokerTap.TapForbiddenWhenOccupyingElsewhere | api/index.js:134-141 | a vacant locker tapped by a refid that holds another 'Occupied' locker gives 403 and nothing changes |
| LokerTap.TapOccupiesVacantLocker | api/index.js:146-160 | a vacant locker tapped by a refid holding nothing becomes ('Occupied', refid); every other row is unchanged; the broadcast is (id, 'Occupied', refid) |
| LokerTap.TapReleasesOwnLocker | api/index.js:149-160 | an occupied locker tapped by its stored refid becomes ('Not Occupied', null); the broadcast is (id, 'Not Occupied', null) |
| LokerTap.TapWrongOccupantForbidden | api/index.js:149-152 | an occupied locker tapped by any other refid gives 403 and nothing changes |
| LokerTap.TapPreservesValid | api/index.js:134-160 | a tap keeps "occupied_by non-null iff Occupied" and "at most one Occupied locker per refid" |
| LokerTap.TapTwiceRestores | api/index.js:134-155 | in a valid table, two successful taps by the same string refid both succeed and return the table to its start state, from either status |
| LokerTap.NumericRefidCannotRelease | api/index.js:144-160 | a numeric refid occupies a locker as its decimal text; tapping again with the same number is 403, with that text it releases |
| LokerTap.TapScenarioCard9 | api/index.js:134-167 | with lockers 1 vacant and 2 held by "card-9": tapping 1 with "card-9" is 403 and changes nothing; tapping 2 releases it and broadcasts (2, 'Not Occupied', null) |
| LokerApi.ApiServer.Get | api/index.js:56-72 | the response is the GET lookup of the current table; nothing changes |
| LokerApi.ApiServer.Insert | api/index.js:74-91 | 201 with the new row; the table gains exactly that row under a fresh store-assigned id; defaults keep the invariants; no broadcast |
| LokerApi.ApiServer.Delete | api/index.js:93-113 | 400 for an unparsable id, 404 for an absent one, both unchanged; otherwise returns the removed row, removes exactly it, and a later GET is 404 |
| LokerApi.ApiServer.Tap | api/index.js:115-178 | response and new table are those of the tap function; the broadcast log grows by the one change on success and by nothing otherwise; the invariants are kept |
| LokerIndex.AcceptedLokerId | index.js:53-57 | a POST `loker_id` is accepted exactly when it is a non-zero number |
| LokerIndex.IndexServer.Get | index.js:32-49 | the response is the GET lookup of the current table |
| LokerIndex.IndexServer.Insert | index.js:51-72 | a missing, zero or non-number `loker_id` gives 400 and inserts nothing; otherwise the row is stored under the caller's id with the POST defaults |
| LokerIndex.IndexServer.Delete | index.js:74-94 | 400 for an unparsable id, 404 for an absent one, both unchanged; otherwise returns and removes exactly that row, all other rows unchanged |
| LokerIndex.IndexServer.Tap | index.js:96-154 | response and new table are those of the api/index.js tap, without a broadcast; the invariants are kept |
| LokerApp.AppTapDecision | app.js:71-88 | 400 exactly for a vacant locker and a falsy refid; 403 exactly for an occupied locker and a refid not strictly equal to the occupant; no other refusal, so every other case toggles (a falsy refid equal to the occupant releases); with a truthy refid it is the api/index.js decision |
| LokerApp.AppTap | app.js:43-99 | every failure leaves the table unchanged; a success changes only the tapped row |
| LokerApp.AppTapRejectsInvalidId | app.js:44-49 | an unparsable id gives 400 whatever the refid |
| LokerApp.AppTapAbsentLockerNotFound | app.js:53-57 | an absent locker gives 404 with no change, even with a missing refid |
| LokerApp.AppTapForbiddenWhenOccupyingElsewhere | app.js:63-68 | a vacant locker tapped by a refid already holding another locker gives 403 and nothing changes |
| LokerApp.AppTapMissingRefidBadRequest | app.js:63-77 | on a vacant locker a missing refid passes the scan, which matches no row, and then gives 400 with no change |
| LokerApp.AppTapOccupiesVacantLocker | app.js:74-94 | a vacant locker tapped by a truthy refid holding nothing becomes ('Occupied', refid); only that row changes |
| LokerApp.AppTapOnOccupiedLocker | app.js:82-88 | an occupied locker is released to ('Not Occupied', null) by a refid strictly equal to the occupant; any other refid gives 403 and no change |
| LokerApp.AppTapMissingRefidCannotRelease | app.js:82-85 | in a consistent table a missing refid on an occupied locker gives 403 |
| LokerApp.AppTapAgreesWithTap | app.js:43-94 | with a truthy refid the app.js tap equals the api/index.js tap |
| LokerApp.AppTapFalsyRefidNeverOccupies | app.js:74-77 | a falsy refid never leaves a locker 'Occupied' |
| LokerApp.AppTapPreservesValid | app.js:62-94 | the app.js tap keeps both store invariants |
| LokerApp.AppServer.Get | app.js:23-40 | the response is the GET lookup of the current table |
| LokerApp.AppServer.Tap | app.js:42-105 | response and new table are those of the app.js tap function; the invariants are kept |

## Left out

- HTTP plumbing (Express routing, JSON parsing, message strings, `res.status(...)`) is left out. Each handler returns a `Response` value instead.
- Database plumbing (the pg `Pool`, connection callbacks, dotenv, ports, `listen`) is I/O. The table is a `map` field of each server class.
- Socket.io connection handling and the welcome message are network I/O. Only `io.emit` is modelled, as an append to `ApiServer.events`.
- Concurrency is left out. In the source, another request can change the table between the SELECTs and the UPDATE, and the UPDATE can hit a row that is gone. Each request is one atomic step here.
- Database failures (the 500 paths) and `console.error` logging are external failures and side output.
- `parseInt` semantics (hex prefixes, trailing garbage) belong to a JavaScript builtin. The parsed id is an abstract `Option<int>`.
- The list-all endpoints (`GET /lokers`, `GET /api/lokers`) only return the table's rows in an unspecified order (no ORDER BY), so they are not modelled.
- LokerModel.SqlText: numbers beyond ±(2^53 − 1) are not modelled. `JSON.parse` rounds them to the nearest double, and `String` then prints rounded digits (2^60 becomes "1152921504606847000") or, from 10^21 on, exponent form ("1e+21"). The model would need IEEE-754 doubles to follow that.
- LokerTap.NumericRefidCannotRelease: is stated only for safe integers, the only numbers the model has. For larger numbers the stored text and the number's own digits can differ.
- JSON values that are objects, arrays or fractional numbers are not modelled for `refid` or `loker_id`. For POST `status` and `occupied_by`, only an absent field or a string is modelled; an explicit JSON `null` status is left out.
- LokerTap.Tap: requires the tapped row's status to be 'Occupied' or 'Not Occupied' whenever the handler reaches its status branch. For any other text, `newStatus` stays `undefined`, and the result depends on the column's schema, which is not part of this model.
- LokerApi.ApiServer.Tap: has the same requirement on the tapped row's status, for the same reason.
- LokerIndex.IndexServer.Tap: has the same requirement on the tapped row's status, for the same reason.
- LokerApp.AppTap: has the same requirement on the tapped row's status, for the same reason.
- LokerApp.AppServer.Tap: has the same requirement on the tapped row's status, for the same reason.
- LokerApi.ApiServer.Insert: the store-assigned id is a parameter, required to be absent from the table. How Postgres picks it belongs to the schema.
- LokerIndex.IndexServer.Insert: requires an accepted `loker_id` to be absent from the table. A duplicate key fails in the store according to a schema that is not part of this model.
