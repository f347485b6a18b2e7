/** The server of api/index.js: the `loker` table and the stream of
    'loker-status-changed' broadcasts, with the handlers for GET by id,
    POST, DELETE and the tap. */
module LokerApi {
  import opened LokerModel
  import opened LokerTap

  class ApiServer {
    /** The `loker` table. */
    var lokers: Table
    /** Every payload `io.emit('loker-status-changed', ...)` has sent, oldest first. */
    var events: seq<StatusChange>

    constructor(rows: Table)
      ensures lokers == rows && events == []
    {
      lokers := rows;
      events := [];
    }

    /** GET /api/lokers/:id */
    method Get(id: Option<int>) returns (res: Response)
      ensures res == Lookup(lokers, id)
    {
      if id.None? {
        return BadRequest;
      }
      if id.value !in lokers {
        return NotFound;
      }
      res := Ok(id.value, lokers[id.value]);
    }

    /** POST /api/lokers; `assignedId` is the key the store assigns. */
    method Insert(status: Option<string>, occupiedBy: Option<string>, assignedId: int) returns (res: Response)
      requires assignedId !in lokers
      modifies this
      ensures res == Created(assignedId, NewLocker(status, occupiedBy))
      ensures lokers == old(lokers)[assignedId := NewLocker(status, occupiedBy)]
      ensures events == old(events)
      ensures status.None? && occupiedBy.None? && Valid(old(lokers)) ==> Valid(lokers)
    {
      var row := NewLocker(status, occupiedBy);
      lokers := lokers[assignedId := row];
      res := Created(assignedId, row);
    }

    /** DELETE /api/lokers/:id */
    method Delete(id: Option<int>) returns (res: Response)
      modifies this
      ensures id.None? ==> res == BadRequest && lokers == old(lokers)
      ensures id.Some? && id.value !in old(lokers) ==> res == NotFound && lokers == old(lokers)
      ensures id.Some? && id.value in old(lokers) ==>
        res == Ok(id.value, old(lokers)[id.value]) && lokers == old(lokers) - {id.value}
      ensures res.Ok? ==> Lookup(lokers, id) == NotFound
      ensures events == old(events)
      ensures Valid(old(lokers)) ==> Valid(lokers)
    {
      if id.None? {
        return BadRequest;
      }
      var lokerId := id.value;
      if lokerId !in lokers {
        return NotFound;
      }
      res := Ok(lokerId, lokers[lokerId]);
      lokers := lokers - {lokerId};
    }

    /** PUT /api/lokers/:id/tap: on success the row is updated in place and
        exactly one payload, the new state, is appended to the broadcasts. */
    method Tap(id: Option<int>, refid: JsonValue) returns (res: Response)
      requires Truthy(refid) ==> TargetKnown(lokers, id)
      modifies this
      ensures var r := LokerTap.Tap(old(lokers), id, refid);
        && res == r.response
        && lokers == r.rows
        && events == old(events) + (if r.change.Some? then [r.change.value] else [])
      ensures Valid(old(lokers)) ==> Valid(lokers)
    {
      TapPreservesValid(lokers, id, refid);
      if id.None? || !Truthy(refid) {
        return BadRequest;
      }
      var lokerId := id.value;
      if lokerId !in lokers {
        return NotFound;
      }
      var current := lokers[lokerId];
      if current.status == NOT_OCCUPIED {
        var refidCheck := OccupyingRows(lokers, SqlText(refid));
        if refidCheck != {} {
          return Forbidden;
        }
      }
      var decision := TapDecision(current, refid);
      if decision.Reject? {
        return decision.response;
      }
      var newStatus, occupiedBy := decision.status, decision.occupiedBy;
      var row := WrittenRow(newStatus, occupiedBy);
      lokers := lokers[lokerId := row];
      events := events + [StatusChange(lokerId, newStatus, occupiedBy)];
      res := Ok(lokerId, row);
    }
  }
}
