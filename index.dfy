/** The server of index.js: the `loker` table with the handlers for GET by
    id, POST with a caller-chosen `loker_id`, DELETE and the tap. The tap is
    the one of api/index.js without the broadcast. */
module LokerIndex {
  import opened LokerModel
  import opened LokerTap

  /** The `loker_id` a POST body supplies, if the handler accepts it:
      `!loker_id || typeof loker_id !== 'number'` refuses the rest. */
  function AcceptedLokerId(v: JsonValue): (r: Option<int>)
    ensures r.Some? <==> v.Number? && v.n != 0
    ensures r.Some? ==> r.value == v.n
  {
    if !Truthy(v) || !v.Number? then None else Some(v.n)
  }

  class IndexServer {
    /** The `loker` table. */
    var lokers: Table

    constructor(rows: Table)
      ensures lokers == rows
    {
      lokers := rows;
    }

    /** GET /lokers/:id */
    method Get(id: Option<int>) returns (res: Response)
      ensures res == Lookup(lokers, id)
    {
      if id.None? {
        return BadRequest;
      }
      if id.value !in lokers {
        return NotFound;
      }
      res := Ok(id.value, lokers[id.value]);
    }

    /** POST /lokers: a refused `loker_id` inserts nothing; an accepted one
        is stored with the defaults of `NewLocker`. */
    method Insert(lokerId: JsonValue, status: Option<string>, occupiedBy: Option<string>) returns (res: Response)
      requires AcceptedLokerId(lokerId).Some? ==> AcceptedLokerId(lokerId).value !in lokers
      modifies this
      ensures AcceptedLokerId(lokerId).None? ==> res == BadRequest && lokers == old(lokers)
      ensures AcceptedLokerId(lokerId).Some? ==>
        && res == Created(lokerId.n, NewLocker(status, occupiedBy))
        && lokers == old(lokers)[lokerId.n := NewLocker(status, occupiedBy)]
      ensures status.None? && occupiedBy.None? && Valid(old(lokers)) ==> Valid(lokers)
    {
      if !Truthy(lokerId) || !lokerId.Number? {
        return BadRequest;
      }
      var row := NewLocker(status, occupiedBy);
      lokers := lokers[lokerId.n := row];
      res := Created(lokerId.n, row);
    }

    /** DELETE /lokers/:id */
    method Delete(id: Option<int>) returns (res: Response)
      modifies this
      ensures id.None? ==> res == BadRequest && lokers == old(lokers)
      ensures id.Some? && id.value !in old(lokers) ==> res == NotFound && lokers == old(lokers)
      ensures id.Some? && id.value in old(lokers) ==>
        && res == Ok(id.value, old(lokers)[id.value])
        && lokers.Keys == old(lokers).Keys - {id.value}
        && (forall k :: k in lokers ==> lokers[k] == old(lokers)[k])
      ensures res.Ok? ==> Lookup(lokers, id) == NotFound
      ensures Valid(old(lokers)) ==> Valid(lokers)
    {
      if id.None? {
        return BadRequest;
      }
      var lokerId := id.value;
      if lokerId !in lokers {
        return NotFound;
      }
      res := Ok(lokerId, lokers[lokerId]);
      lokers := lokers - {lokerId};
    }

    /** PUT /lokers/:id/tap */
    method Tap(id: Option<int>, refid: JsonValue) returns (res: Response)
      requires Truthy(refid) ==> TargetKnown(lokers, id)
      modifies this
      ensures var r := LokerTap.Tap(old(lokers), id, refid);
        res == r.response && lokers == r.rows
      ensures Valid(old(lokers)) ==> Valid(lokers)
    {
      TapPreservesValid(lokers, id, refid);
      if id.None? || !Truthy(refid) {
        return BadRequest;
      }
      var lokerId := id.value;
      if lokerId !in lokers {
        return NotFound;
      }
      var current := lokers[lokerId];
      if current.status == NOT_OCCUPIED {
        var refidCheck := OccupyingRows(lokers, SqlText(refid));
        if refidCheck != {} {
          return Forbidden;
        }
      }
      var decision := TapDecision(current, refid);
      if decision.Reject? {
        return decision.response;
      }
      var newStatus, occupiedBy := decision.status, decision.occupiedBy;
      var row := WrittenRow(newStatus, occupiedBy);
      lokers := lokers[lokerId := row];
      res := Ok(lokerId, row);
    }
  }
}
