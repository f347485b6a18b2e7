/** The tap handler that api/index.js and index.js share: reject a request
    whose id does not parse or whose refid is falsy, look the locker up, run
    the uniqueness scan on a vacant locker, decide the new state, and write
    it with a plain UPDATE. Each request is one atomic step. */
module LokerTap {
  import opened LokerModel

  /** The new state as the handler holds it in `newStatus` and `occupiedBy`
      (`occupiedBy` is the refid exactly as the body sent it); api/index.js
      broadcasts it as the payload of 'loker-status-changed'. */
  datatype StatusChange = StatusChange(lokerId: int, status: string, occupiedBy: JsonValue)

  /** What the status branch decides: a refusal, or the values to write. */
  datatype Decision = Reject(response: Response) | Write(status: string, occupiedBy: JsonValue)

  /** The outcome of one tap request: the response, the table afterwards and
      the change a successful tap made. */
  datatype TapResult = TapResult(response: Response, rows: Table, change: Option<StatusChange>)

  /** The tap handlers branch on 'Occupied' and 'Not Occupied' only. */
  predicate TargetKnown(rows: Table, id: Option<int>) {
    id.Some? && id.value in rows ==> KnownStatus(rows[id.value].status)
  }

  /** The row `UPDATE loker SET status = $1, occupied_by = $2 ... RETURNING *` leaves. */
  function WrittenRow(status: string, occupiedBy: JsonValue): (r: Locker)
    ensures r.status == status
    ensures r.occupiedBy.None? <==> occupiedBy.Undefined? || occupiedBy.Null?
    ensures Truthy(occupiedBy) ==> r.occupiedBy.Some?
    ensures occupiedBy.Text? ==> StrictEquals(r.occupiedBy, occupiedBy)
    ensures occupiedBy.Number? ==> r.occupiedBy == Some(IntText(occupiedBy.n))
  {
    Locker(status, SqlText(occupiedBy))
  }

  /** The broadcast payload describes the row the UPDATE wrote. */
  predicate ChangeMatchesRow(c: StatusChange, lokerId: int, row: Locker) {
    c.lokerId == lokerId && c.status == row.status && SqlText(c.occupiedBy) == row.occupiedBy
  }

  /** The status branch of the handler once the uniqueness scan has passed:
      a vacant locker is taken by the refid; an occupied one is released only
      by a refid strictly equal to the stored occupant. */
  function TapDecision(current: Locker, refid: JsonValue): (d: Decision)
    requires KnownStatus(current.status)
    ensures d.Reject? <==> current.status == OCCUPIED && !StrictEquals(current.occupiedBy, refid)
    ensures d.Reject? ==> d.response == Forbidden
    ensures d.Write? ==> KnownStatus(d.status) && d.status != current.status
    ensures d.Write? && d.status == OCCUPIED ==> d.occupiedBy == refid
    ensures d.Write? && d.status == NOT_OCCUPIED ==> d.occupiedBy == Null
  {
    if current.status == NOT_OCCUPIED then Write(OCCUPIED, refid)
    else if !StrictEquals(current.occupiedBy, refid) then Reject(Forbidden)
    else Write(NOT_OCCUPIED, Null)
  }

  /** Carry out a decision on locker `lokerId`: a refusal changes nothing; a
      write replaces that one row and reports the change. */
  function Commit(rows: Table, lokerId: int, d: Decision): (r: TapResult)
    ensures d.Reject? ==> r == TapResult(d.response, rows, None)
    ensures d.Write? ==> r.response == Ok(lokerId, WrittenRow(d.status, d.occupiedBy))
    ensures d.Write? ==> r.rows == rows[lokerId := r.response.loker]
    ensures d.Write? ==> r.change.Some? && ChangeMatchesRow(r.change.value, lokerId, r.response.loker)
  {
    match d
    case Reject(response) => TapResult(response, rows, None)
    case Write(status, occupiedBy) =>
      var row := WrittenRow(status, occupiedBy);
      TapResult(Ok(lokerId, row), rows[lokerId := row], Some(StatusChange(lokerId, status, occupiedBy)))
  }

  /** The whole tap request. */
  function Tap(rows: Table, id: Option<int>, refid: JsonValue): (r: TapResult)
    requires Truthy(refid) ==> TargetKnown(rows, id)
    ensures !r.response.Ok? ==> r.rows == rows && r.change.None?
    ensures r.response.Ok? ==>
      && id.Some? && id.value in rows
      && r.response.lokerId == id.value
      && r.rows == rows[id.value := r.response.loker]
      && r.change.Some? && ChangeMatchesRow(r.change.value, id.value, r.response.loker)
    ensures r.response.Ok? || r.response.BadRequest? || r.response.NotFound? || r.response.Forbidden?
  {
    if id.None? || !Truthy(refid) then TapResult(BadRequest, rows, None)
    else if id.value !in rows then TapResult(NotFound, rows, None)
    else if rows[id.value].status == NOT_OCCUPIED && OccupyingRows(rows, SqlText(refid)) != {} then
      TapResult(Forbidden, rows, None)
    else Commit(rows, id.value, TapDecision(rows[id.value], refid))
  }

  /** An id that does not parse or a falsy refid is refused before the table is read. */
  lemma TapRejectsMalformedRequest(rows: Table, id: Option<int>, refid: JsonValue)
    requires id.None? || !Truthy(refid)
    ensures Tap(rows, id, refid) == TapResult(BadRequest, rows, None)
  {
  }

  /** A well-formed tap on an absent locker is 404 and changes nothing. */
  lemma TapAbsentLockerNotFound(rows: Table, k: int, refid: JsonValue)
    requires Truthy(refid) && k !in rows
    ensures Tap(rows, Some(k), refid) == TapResult(NotFound, rows, None)
  {
  }

  /** A refid that already holds locker `j` cannot take a vacant locker `k`. */
  lemma TapForbiddenWhenOccupyingElsewhere(rows: Table, k: int, j: int, refid: JsonValue)
    requires Truthy(refid) && k in rows && rows[k].status == NOT_OCCUPIED
    requires j in rows && rows[j].status == OCCUPIED && rows[j].occupiedBy == SqlText(refid)
    ensures Tap(rows, Some(k), refid) == TapResult(Forbidden, rows, None)
  {
    assert j in OccupyingRows(rows, SqlText(refid));
  }

  /** A vacant locker tapped by a refid that holds nothing is taken by it;
      no other row changes and the change reported is the row written. */
  lemma TapOccupiesVacantLocker(rows: Table, k: int, refid: JsonValue)
    requires Truthy(refid) && k in rows && rows[k].status == NOT_OCCUPIED
    requires forall j :: j in rows ==> !(rows[j].status == OCCUPIED && rows[j].occupiedBy == SqlText(refid))
    ensures var r := Tap(rows, Some(k), refid);
      && r.response == Ok(k, Locker(OCCUPIED, SqlText(refid)))
      && r.rows.Keys == rows.Keys
      && r.rows[k] == Locker(OCCUPIED, SqlText(refid))
      && (forall j :: j in rows && j != k ==> r.rows[j] == rows[j])
      && r.change == Some(StatusChange(k, OCCUPIED, refid))
  {
    ScanEmptyIffNoHolder(rows, SqlText(refid).value);
  }

  /** An occupied locker is released by the refid it stores, to
      ('Not Occupied', null); no other row changes. */
  lemma TapReleasesOwnLocker(rows: Table, k: int, refid: JsonValue)
    requires Truthy(refid) && k in rows && rows[k].status == OCCUPIED
    requires StrictEquals(rows[k].occupiedBy, refid)
    ensures var r := Tap(rows, Some(k), refid);
      && r.response == Ok(k, Locker(NOT_OCCUPIED, None))
      && r.rows == rows[k := Locker(NOT_OCCUPIED, None)]
      && r.change == Some(StatusChange(k, NOT_OCCUPIED, Null))
  {
  }

  /** Any other refid is refused on an occupied locker and nothing changes. */
  lemma TapWrongOccupantForbidden(rows: Table, k: int, refid: JsonValue)
    requires Truthy(refid) && k in rows && rows[k].status == OCCUPIED
    requires !StrictEquals(rows[k].occupiedBy, refid)
    ensures Tap(rows, Some(k), refid) == TapResult(Forbidden, rows, None)
  {
  }

  /** A tap keeps both store invariants: non-null occupant exactly on
      'Occupied' rows, and at most one 'Occupied' row per refid. */
  lemma TapPreservesValid(rows: Table, id: Option<int>, refid: JsonValue)
    requires Truthy(refid) ==> TargetKnown(rows, id)
    ensures Valid(rows) ==> Valid(Tap(rows, id, refid).rows)
  {
    var r := Tap(rows, id, refid);
    if Valid(rows) && r.response.Ok? {
      var k := id.value;
      if rows[k].status == NOT_OCCUPIED {
        ScanEmptyIffNoHolder(rows, SqlText(refid).value);
      }
    }
  }

  /** In a valid table, two successful taps by the same text refid put the
      locker back as it was, whichever state it started in. */
  lemma TapTwiceRestores(rows: Table, k: int, s: string)
    requires Valid(rows) && k in rows && KnownStatus(rows[k].status) && s != ""
    requires Tap(rows, Some(k), Text(s)).response.Ok?
    ensures TargetKnown(Tap(rows, Some(k), Text(s)).rows, Some(k))
    ensures Tap(Tap(rows, Some(k), Text(s)).rows, Some(k), Text(s)).response.Ok?
    ensures Tap(Tap(rows, Some(k), Text(s)).rows, Some(k), Text(s)).rows == rows
  {
    var refid := Text(s);
    var first := Tap(rows, Some(k), refid);
    if rows[k].status == NOT_OCCUPIED {
      ScanEmptyIffNoHolder(rows, s);
      TapOccupiesVacantLocker(rows, k, refid);
      assert rows[k].occupiedBy == None;
      TapReleasesOwnLocker(first.rows, k, refid);
      assert first.rows[k := Locker(NOT_OCCUPIED, None)] == rows;
    } else {
      TapReleasesOwnLocker(rows, k, refid);
      assert rows[k].occupiedBy == Some(s);
      forall j | j in first.rows
        ensures !(first.rows[j].status == OCCUPIED && first.rows[j].occupiedBy == Some(s))
      {
        if j != k {
          assert first.rows[j] == rows[j];
        }
      }
      TapOccupiesVacantLocker(first.rows, k, refid);
      assert first.rows[k := Locker(OCCUPIED, Some(s))] == rows;
    }
  }

  /** A numeric refid is stored as its decimal text, so the same number cannot
      release the locker again (`"5" !== 5`); only that text can. This holds
      for every safe integer, the only numbers the model has. */
  lemma NumericRefidCannotRelease(rows: Table, k: int, n: SafeInteger)
    requires n != 0 && k in rows && rows[k].status == NOT_OCCUPIED
    requires forall j :: j in rows ==> !(rows[j].status == OCCUPIED && rows[j].occupiedBy == Some(IntText(n)))
    ensures Tap(rows, Some(k), Number(n)).response.Ok?
    ensures TargetKnown(Tap(rows, Some(k), Number(n)).rows, Some(k))
    ensures Tap(Tap(rows, Some(k), Number(n)).rows, Some(k), Number(n)).response == Forbidden
    ensures Tap(Tap(rows, Some(k), Number(n)).rows, Some(k), Text(IntText(n))).response == Ok(k, Locker(NOT_OCCUPIED, None))
  {
    TapOccupiesVacantLocker(rows, k, Number(n));
    var first := Tap(rows, Some(k), Number(n));
    assert first.rows[k] == Locker(OCCUPIED, Some(IntText(n)));
    TapWrongOccupantForbidden(first.rows, k, Number(n));
    TapReleasesOwnLocker(first.rows, k, Text(IntText(n)));
  }

  /** Two lockers, the second held by "card-9": "card-9" cannot take the
      first, and releasing the second reports ('Not Occupied', null). */
  lemma TapScenarioCard9()
    ensures var rows := map[1 := Locker(NOT_OCCUPIED, None), 2 := Locker(OCCUPIED, Some("card-9"))];
      && Tap(rows, Some(1), Text("card-9")) == TapResult(Forbidden, rows, None)
      && Tap(rows, Some(2), Text("card-9")) ==
           TapResult(Ok(2, Locker(NOT_OCCUPIED, None)),
                     rows[2 := Locker(NOT_OCCUPIED, None)],
                     Some(StatusChange(2, NOT_OCCUPIED, Null)))
  {
    var rows := map[1 := Locker(NOT_OCCUPIED, None), 2 := Locker(OCCUPIED, Some("card-9"))];
    TapForbiddenWhenOccupyingElsewhere(rows, 1, 2, Text("card-9"));
    TapReleasesOwnLocker(rows, 2, Text("card-9"));
  }
}
