/** Shared data model of the locker service: the JSON values a request body
    carries, the text node-postgres sends for them, the rows of the `loker`
    table, the HTTP outcomes of the handlers, the GET-by-id lookup that all
    three servers share, and the store-wide occupancy invariant. */
module LokerModel {

  datatype Option<+T> = None | Some(value: T)

  /** The largest integer a JavaScript number holds exactly (`Number.MAX_SAFE_INTEGER`). */
  const MAX_SAFE_INTEGER: int := 0x1F_FFFF_FFFF_FFFF

  /** The integral JavaScript numbers the model covers: the safe integers,
      which `JSON.parse` reads exactly and `String` prints digit for digit. */
  type SafeInteger = n: int | -MAX_SAFE_INTEGER <= n <= MAX_SAFE_INTEGER

  /** A value read from a JSON request body. `Undefined` is a field the body
      leaves out; numbers are safe integers. */
  datatype JsonValue = Undefined | Null | Bool(b: bool) | Number(n: SafeInteger) | Text(s: string)

  /** JavaScript truthiness, as tested by `!refid` and `!loker_id`: the falsy
      values are exactly `undefined`, `null`, `false`, `0` and `""`. */
  predicate Truthy(v: JsonValue)
    ensures Truthy(v) <==> v !in {Undefined, Null, Bool(false), Number(0), Text("")}
  {
    match v
    case Undefined => false
    case Null => false
    case Bool(b) => b
    case Number(n) => n != 0
    case Text(s) => s != ""
  }

  /** The character of the decimal digit `d`. */
  function DigitChar(d: int): (c: char)
    requires 0 <= d < 10
    ensures IsDigit(c) && c as int - '0' as int == d
  {
    ('0' as int + d) as char
  }

  predicate IsDigit(c: char) {
    '0' <= c <= '9'
  }

  /** The value of a string of decimal digits, most significant digit first. */
  function DecimalValue(s: string): (v: int)
    requires forall i :: 0 <= i < |s| ==> IsDigit(s[i])
    ensures v >= 0
    decreases |s|
  {
    if s == [] then 0
    else
      assert IsDigit(s[|s| - 1]);
      DecimalValue(s[..|s| - 1]) * 10 + (s[|s| - 1] as int - '0' as int)
  }

  /** Decimal notation of a natural number, most significant digit first. */
  function DecimalDigits(n: nat): (s: string)
    ensures |s| > 0
    decreases n
  {
    if n < 10 then [DigitChar(n)] else DecimalDigits(n / 10) + [DigitChar(n % 10)]
  }

  /** `DecimalDigits` writes only digits, with no leading zero except in "0",
      and reading them back gives the number. */
  lemma {:induction false} DecimalDigitsRoundTrip(n: nat)
    ensures forall i :: 0 <= i < |DecimalDigits(n)| ==> IsDigit(DecimalDigits(n)[i])
    ensures n >= 1 ==> DecimalDigits(n)[0] != '0'
    ensures n == 0 ==> DecimalDigits(n) == "0"
    ensures DecimalValue(DecimalDigits(n)) == n
    decreases n
  {
    var s := DecimalDigits(n);
    if n >= 10 {
      DecimalDigitsRoundTrip(n / 10);
      var front := DecimalDigits(n / 10);
      assert s == front + [DigitChar(n % 10)];
      assert s[..|s| - 1] == front;
      assert s[0] == front[0];
    }
  }

  /** `String(n)` for a safe integer, the canonical numeral: an optional minus
      sign, then the decimal digits of `|n|` with no leading zero (only 0
      itself is "0"), which read back as `|n|`. */
  function IntText(n: SafeInteger): (s: string)
    ensures |s| > 0
    ensures n >= 0 ==> (forall i :: 0 <= i < |s| ==> IsDigit(s[i])) && DecimalValue(s) == n
    ensures n >= 0 ==> (s == "0" || s[0] != '0')
    ensures n < 0 ==> (|s| > 1 && s[0] == '-' && s[1] != '0'
      && (forall i :: 1 <= i < |s| ==> IsDigit(s[i])) && DecimalValue(s[1..]) == -n)
  {
    if n < 0 then
      DecimalDigitsRoundTrip(-n);
      var digits := DecimalDigits(-n);
      assert ("-" + digits)[1..] == digits;
      "-" + digits
    else
      DecimalDigitsRoundTrip(n);
      DecimalDigits(n)
  }

  /** The text node-postgres sends for a query parameter: `undefined` and
      `null` become SQL NULL, every other value its `toString()`. */
  function SqlText(v: JsonValue): (r: Option<string>)
    ensures r.None? <==> v.Undefined? || v.Null?
    ensures Truthy(v) ==> r.Some?
    ensures v.Text? ==> r == Some(v.s)
    ensures v.Number? ==> r == Some(IntText(v.n))
    ensures v.Bool? ==> r == Some(if v.b then "true" else "false")
  {
    match v
    case Undefined => None
    case Null => None
    case Bool(b) => Some(if b then "true" else "false")
    case Number(n) => Some(IntText(n))
    case Text(s) => Some(s)
  }

  /** JavaScript strict equality `stored === v` between a column read back
      from the store (a string or SQL NULL, which arrives as `null`) and a
      value from the request body. `null === undefined` is false. */
  predicate StrictEquals(stored: Option<string>, v: JsonValue)
    ensures StrictEquals(stored, v) ==> SqlText(v) == stored
    ensures v.Text? ==> (StrictEquals(stored, v) <==> stored == SqlText(v))
    ensures v.Undefined? || v.Bool? || v.Number? ==> !StrictEquals(stored, v)
    ensures v.Null? ==> (StrictEquals(stored, v) <==> stored.None?)
  {
    match stored
    case None => v.Null?
    case Some(s) => v == Text(s)
  }

  const OCCUPIED: string := "Occupied"
  const NOT_OCCUPIED: string := "Not Occupied"

  /** The `status` column is free text; the tap handlers branch on these two values only. */
  predicate KnownStatus(status: string) {
    status == OCCUPIED || status == NOT_OCCUPIED
  }

  /** One row of the `loker` table, without its key `loker_id`. */
  datatype Locker = Locker(status: string, occupiedBy: Option<string>)

  /** The `loker` table, keyed by `loker_id`. */
  type Table = map<int, Locker>

  /** The HTTP outcome of a handler; `Ok` and `Created` carry the row the
      handler sends back (`RETURNING *` or the selected row). */
  datatype Response =
    | Ok(lokerId: int, loker: Locker)
    | Created(lokerId: int, loker: Locker)
    | BadRequest
    | NotFound
    | Forbidden

  /** GET by id: 400 for an id `parseInt` could not read, 404 for an absent
      id, otherwise the stored row as it is. */
  function Lookup(rows: Table, id: Option<int>): (r: Response)
    ensures r.BadRequest? <==> id.None?
    ensures r.NotFound? <==> id.Some? && id.value !in rows
    ensures r.Ok? <==> id.Some? && id.value in rows
    ensures r.Ok? ==> r.lokerId == id.value && r.loker == rows[id.value]
  {
    if id.None? then BadRequest
    else if id.value !in rows then NotFound
    else Ok(id.value, rows[id.value])
  }

  /** The row a POST inserts: `status` defaults to 'Not Occupied' and
      `occupied_by` to null when the body leaves them out. */
  function NewLocker(status: Option<string>, occupiedBy: Option<string>): (l: Locker)
    ensures status.Some? ==> l.status == status.value
    ensures status.None? ==> l.status == NOT_OCCUPIED
    ensures l.occupiedBy == occupiedBy
  {
    Locker(if status.Some? then status.value else NOT_OCCUPIED, occupiedBy)
  }

  /** The keys of the rows that
      `SELECT * FROM loker WHERE occupied_by = $1 AND status = 'Occupied'`
      returns; `occupied_by = NULL` holds of no row. */
  function OccupyingRows(rows: Table, occupant: Option<string>): (r: set<int>)
    ensures r <= rows.Keys
    ensures forall k :: k in r ==> rows[k].status == OCCUPIED && rows[k].occupiedBy == occupant
    ensures forall k :: k in r ==> occupant.Some?
    ensures forall k ::
      k in rows && occupant.Some? && rows[k].status == OCCUPIED && rows[k].occupiedBy == occupant ==> k in r
  {
    set k | k in rows && occupant.Some? && rows[k].occupiedBy == occupant && rows[k].status == OCCUPIED
  }

  /** `occupied_by` is non-null exactly on the 'Occupied' rows. */
  predicate Consistent(rows: Table) {
    forall k :: k in rows ==> (rows[k].occupiedBy.Some? <==> rows[k].status == OCCUPIED)
  }

  /** No two 'Occupied' rows hold the same non-null `occupied_by`. */
  predicate UniqueOccupancy(rows: Table) {
    forall i, j ::
      (i in rows && j in rows && i != j && rows[i].status == OCCUPIED && rows[j].status == OCCUPIED
       && rows[i].occupiedBy.Some?) ==> rows[i].occupiedBy != rows[j].occupiedBy
  }

  predicate Valid(rows: Table) {
    Consistent(rows) && UniqueOccupancy(rows)
  }

  /** The scan comes back empty exactly when no 'Occupied' row holds the occupant. */
  lemma ScanEmptyIffNoHolder(rows: Table, p: string)
    ensures OccupyingRows(rows, Some(p)) == {} <==>
      forall j :: j in rows ==> !(rows[j].status == OCCUPIED && rows[j].occupiedBy == Some(p))
  {
    var hits := OccupyingRows(rows, Some(p));
    if forall j :: j in rows ==> !(rows[j].status == OCCUPIED && rows[j].occupiedBy == Some(p)) {
      forall x ensures x !in hits { }
    } else {
      var j :| j in rows && rows[j].status == OCCUPIED && rows[j].occupiedBy == Some(p);
      assert j in hits;
    }
  }

  /** Under the invariant, the scan finds the locker a refid holds and no other. */
  lemma ScanIsSingleton(rows: Table, p: string, k: int)
    requires UniqueOccupancy(rows)
    requires k in OccupyingRows(rows, Some(p))
    ensures OccupyingRows(rows, Some(p)) == {k}
  {
    var hits := OccupyingRows(rows, Some(p));
    forall x | x in hits ensures x in {k} {
      assert rows[x].occupiedBy == rows[k].occupiedBy;
    }
    assert hits <= {k};
  }

  lemma ScanAtMostOne(rows: Table, p: string)
    requires UniqueOccupancy(rows)
    ensures |OccupyingRows(rows, Some(p))| <= 1
  {
    var hits := OccupyingRows(rows, Some(p));
    if exists k :: k in rows && rows[k].occupiedBy == Some(p) && rows[k].status == OCCUPIED {
      var k :| k in rows && rows[k].occupiedBy == Some(p) && rows[k].status == OCCUPIED;
      ScanIsSingleton(rows, p, k);
    } else {
      forall x ensures x !in hits { }
      assert hits == {};
    }
  }

  /** Uniqueness stated in the terms of the handlers' scan: the invariant
      holds exactly when the scan returns at most one row for every refid. */
  lemma UniqueOccupancyIffScanAtMostOne(rows: Table)
    ensures UniqueOccupancy(rows) <==> forall p :: |OccupyingRows(rows, Some(p))| <= 1
  {
    if UniqueOccupancy(rows) {
      forall p ensures |OccupyingRows(rows, Some(p))| <= 1 {
        ScanAtMostOne(rows, p);
      }
    } else {
      var i, j :| i in rows && j in rows && i != j && rows[i].status == OCCUPIED
        && rows[j].status == OCCUPIED && rows[i].occupiedBy.Some?
        && rows[i].occupiedBy == rows[j].occupiedBy;
      var p := rows[i].occupiedBy.value;
      var hits := OccupyingRows(rows, Some(p));
      assert i in hits && j in hits - {i};
      assert |hits - {i}| == |hits| - 1;
      assert |hits - {i}| > 0;
    }
  }
}
