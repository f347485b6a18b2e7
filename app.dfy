/** The server of app.js: GET by id and a tap that does not check the refid
    up front. A falsy refid is refused only when it would occupy a vacant
    locker, and only after the uniqueness scan. */
module LokerApp {
  import opened LokerModel
  import opened LokerTap

  /** The status branch of the app.js tap once the uniqueness scan has passed. */
  function AppTapDecision(current: Locker, refid: JsonValue): (d: Decision)
    requires KnownStatus(current.status)
    ensures d.Reject? ==> d.response == BadRequest || d.response == Forbidden
    ensures d == Reject(BadRequest) <==> current.status == NOT_OCCUPIED && !Truthy(refid)
    ensures d == Reject(Forbidden) <==> current.status == OCCUPIED && !StrictEquals(current.occupiedBy, refid)
    ensures d.Write? ==> KnownStatus(d.status) && d.status != current.status
    ensures d.Write? && d.status == OCCUPIED ==> d.occupiedBy == refid && Truthy(refid)
    ensures d.Write? && d.status == NOT_OCCUPIED ==> d.occupiedBy == Null
    ensures Truthy(refid) ==> d == TapDecision(current, refid)
  {
    if current.status == NOT_OCCUPIED then
      if !Truthy(refid) then Reject(BadRequest) else Write(OCCUPIED, refid)
    else if !StrictEquals(current.occupiedBy, refid) then Reject(Forbidden)
    else Write(NOT_OCCUPIED, Null)
  }

  /** The whole app.js tap request. app.js broadcasts nothing, so the
      `change` that `Commit` reports is not used by this server. */
  function AppTap(rows: Table, id: Option<int>, refid: JsonValue): (r: TapResult)
    requires TargetKnown(rows, id)
    ensures !r.response.Ok? ==> r.rows == rows && r.change.None?
    ensures r.response.Ok? ==>
      && id.Some? && id.value in rows
      && r.response.lokerId == id.value
      && r.rows == rows[id.value := r.response.loker]
    ensures r.response.Ok? || r.response.BadRequest? || r.response.NotFound? || r.response.Forbidden?
  {
    if id.None? then TapResult(BadRequest, rows, None)
    else if id.value !in rows then TapResult(NotFound, rows, None)
    else if rows[id.value].status == NOT_OCCUPIED && OccupyingRows(rows, SqlText(refid)) != {} then
      TapResult(Forbidden, rows, None)
    else Commit(rows, id.value, AppTapDecision(rows[id.value], refid))
  }

  /** An id that does not parse is refused whatever the refid. */
  lemma AppTapRejectsInvalidId(rows: Table, refid: JsonValue)
    ensures AppTap(rows, None, refid) == TapResult(BadRequest, rows, None)
  {
  }

  /** A tap on an absent locker is 404, even with a missing refid. */
  lemma AppTapAbsentLockerNotFound(rows: Table, k: int, refid: JsonValue)
    requires k !in rows
    ensures AppTap(rows, Some(k), refid) == TapResult(NotFound, rows, None)
  {
  }

  /** A refid that already holds locker `j` cannot take a vacant locker `k`. */
  lemma AppTapForbiddenWhenOccupyingElsewhere(rows: Table, k: int, j: int, refid: JsonValue)
    requires k in rows && rows[k].status == NOT_OCCUPIED
    requires j in rows && rows[j].status == OCCUPIED
    requires rows[j].occupiedBy.Some? && rows[j].occupiedBy == SqlText(refid)
    ensures AppTap(rows, Some(k), refid) == TapResult(Forbidden, rows, None)
  {
    assert j in OccupyingRows(rows, SqlText(refid));
  }

  /** A missing refid on a vacant locker is 400: the scan before it matches
      no row, since `occupied_by = NULL` never holds. */
  lemma AppTapMissingRefidBadRequest(rows: Table, k: int, refid: JsonValue)
    requires k in rows && rows[k].status == NOT_OCCUPIED
    requires refid.Undefined? || refid.Null?
    ensures OccupyingRows(rows, SqlText(refid)) == {}
    ensures AppTap(rows, Some(k), refid) == TapResult(BadRequest, rows, None)
  {
  }

  /** A vacant locker tapped by a truthy refid that holds nothing is taken
      by it; no other row changes. */
  lemma AppTapOccupiesVacantLocker(rows: Table, k: int, refid: JsonValue)
    requires Truthy(refid) && k in rows && rows[k].status == NOT_OCCUPIED
    requires forall j :: j in rows ==> !(rows[j].status == OCCUPIED && rows[j].occupiedBy == SqlText(refid))
    ensures var r := AppTap(rows, Some(k), refid);
      && r.response == Ok(k, Locker(OCCUPIED, SqlText(refid)))
      && r.rows == rows[k := Locker(OCCUPIED, SqlText(refid))]
  {
    ScanEmptyIffNoHolder(rows, SqlText(refid).value);
  }

  /** An occupied locker is released by a refid strictly equal to the stored
      occupant, and refused (403, no change) for any other refid. */
  lemma AppTapOnOccupiedLocker(rows: Table, k: int, refid: JsonValue)
    requires k in rows && rows[k].status == OCCUPIED
    ensures var r := AppTap(rows, Some(k), refid);
      if StrictEquals(rows[k].occupiedBy, refid) then
        && r.response == Ok(k, Locker(NOT_OCCUPIED, None))
        && r.rows == rows[k := Locker(NOT_OCCUPIED, None)]
      else r == TapResult(Forbidden, rows, None)
  {
  }

  /** In a consistent table a missing refid can never release a locker. */
  lemma AppTapMissingRefidCannotRelease(rows: Table, k: int, refid: JsonValue)
    requires Consistent(rows) && k in rows && rows[k].status == OCCUPIED
    requires refid.Undefined? || refid.Null?
    ensures AppTap(rows, Some(k), refid) == TapResult(Forbidden, rows, None)
  {
    assert rows[k].occupiedBy.Some?;
  }

  /** With a truthy refid the app.js tap and the api/index.js tap agree. */
  lemma AppTapAgreesWithTap(rows: Table, id: Option<int>, refid: JsonValue)
    requires Truthy(refid) && TargetKnown(rows, id)
    ensures AppTap(rows, id, refid) == LokerTap.Tap(rows, id, refid)
  {
  }

  /** A falsy refid never leaves a locker occupied. */
  lemma AppTapFalsyRefidNeverOccupies(rows: Table, id: Option<int>, refid: JsonValue)
    requires !Truthy(refid) && TargetKnown(rows, id)
    ensures AppTap(rows, id, refid).response.Ok? ==> AppTap(rows, id, refid).response.loker.status == NOT_OCCUPIED
  {
  }

  /** The app.js tap keeps both store invariants. */
  lemma AppTapPreservesValid(rows: Table, id: Option<int>, refid: JsonValue)
    requires TargetKnown(rows, id)
    ensures Valid(rows) ==> Valid(AppTap(rows, id, refid).rows)
  {
    if Valid(rows) && Truthy(refid) {
      AppTapAgreesWithTap(rows, id, refid);
      TapPreservesValid(rows, id, refid);
    }
  }

  class AppServer {
    /** The `loker` table. */
    var lokers: Table

    constructor(rows: Table)
      ensures lokers == rows
    {
      lokers := rows;
    }

    /** GET /lokers/:id */
    method Get(id: Option<int>) returns (res: Response)
      ensures res == Lookup(lokers, id)
    {
      if id.None? {
        return BadRequest;
      }
      if id.value !in lokers {
        return NotFound;
      }
      res := Ok(id.value, lokers[id.value]);
    }

    /** PUT /lokers/:id/tap */
    method Tap(id: Option<int>, refid: JsonValue) returns (res: Response)
      requires TargetKnown(lokers, id)
      modifies this
      ensures var r := AppTap(old(lokers), id, refid);
        res == r.response && lokers == r.rows
      ensures Valid(old(lokers)) ==> Valid(lokers)
    {
      AppTapPreservesValid(lokers, id, refid);
      if id.None? {
        return BadRequest;
      }
      var lokerId := id.value;
      if lokerId !in lokers {
        return NotFound;
      }
      var current := lokers[lokerId];
      if current.status == NOT_OCCUPIED {
        var refidCheck := OccupyingRows(lokers, SqlText(refid));
        if refidCheck != {} {
          return Forbidden;
        }
      }
      var decision := AppTapDecision(current, refid);
      if decision.Reject? {
        return decision.response;
      }
      var newStatus, occupiedBy := decision.status, decision.occupiedBy;
      var row := WrittenRow(newStatus, occupiedBy);
      lokers := lokers[lokerId := row];
      res := Ok(lokerId, row);
    }
  }
}
