/** The mutation rules of the notes API (backend/routes.js): what
    `POST /notes`, `PUT /notes/:id` and `DELETE /notes/:id` answer, how they
    change the stored notes, and which change event each one broadcasts.

    The database is a map from row id to row plus the next id its `SERIAL`
    column hands out; how the query reaches it is not modelled, only whether
    it fails (`DbHealth`). The database clock (`NOW()`, the column defaults)
    and `Date.now()` are parameters. Each handler is a function from the
    request and the store before it to an `Outcome`: the response, the store
    after it, and the broadcast it sends, if any. */
module Routes {
  import opened Wrappers
  import opened JsString
  import opened Types

  /** A field of the parsed JSON body: left out (`undefined`), `null`, or a
      string. */
  datatype Field = Missing | Null | Text(value: string)

  /** The body of a POST or PUT request; its other members are never read. */
  datatype NoteBody = NoteBody(name: Field, description: Field, bgColor: Field)

  /** A row of the `notes` table, as `RETURNING id, name, description,
      bg_color, created_at, updated_at` gives it back. Timestamps are the
      database clock's readings. */
  datatype Row = Row(id: int, name: string, description: string, bgColor: string,
                     createdAt: int, updatedAt: int)

  /** The `notes` table and the next value of its id sequence. */
  datatype Store = Store(rows: map<int, Row>, nextId: int)

  /** Every row is filed under its own id, and the id sequence is past every
      id handed out (a `SERIAL` starts at 1). */
  predicate StoreValid(s: Store) {
    && 1 <= s.nextId
    && forall k :: k in s.rows ==> s.rows[k].id == k && 1 <= k < s.nextId
  }

  /** The table before any request: empty, the sequence at 1. */
  const EmptyStore := Store(map[], 1)

  /** Whether the query reaches a working database, or fails with the
      driver's error message. */
  datatype DbHealth = Healthy | Fails(message: string)

  /** The object handed to `broadcastNoteChange`. A created or updated event
      carries the returned row; a deleted one carries `{ id }` with `id` the
      route parameter exactly as it came in, a string. */
  datatype ServerEvent =
    | Created(note: Row, timestamp: int)
    | Updated(note: Row, timestamp: int)
    | Deleted(id: string, timestamp: int)

  /** The JSON body of a response. */
  datatype ReplyBody =
    | RowBody(row: Row)
    | ErrorBody(error: string, details: Option<string>)
    | MessageBody(message: string)

  datatype Reply = Reply(status: int, body: ReplyBody)

  /** What a handler does: its response, the store afterwards, and the
      event it broadcasts. */
  datatype Outcome = Outcome(reply: Reply, store: Store, event: Option<ServerEvent>)

  const NameRequired := "Name is required"
  const NotFound := "Note not found"
  const CreateFailed := "Failed to create note"
  const UpdateFailed := "Failed to update note"
  const DeleteFailed := "Failed to delete note"
  const NoteDeleted := "Note deleted"

  /** A response that changes nothing and broadcasts nothing. */
  function Refuse(s: Store, status: int, error: string): (o: Outcome)
    ensures o.store == s && o.event.None? && o.reply.status == status
    ensures o.reply.body == ErrorBody(error, None)
  {
    Outcome(Reply(status, ErrorBody(error, None)), s, None)
  }

  // ---------------------------------------------------------------------
  // The route parameter as PostgreSQL reads an integer
  // ---------------------------------------------------------------------

  const MinInt4 := -0x8000_0000
  const MaxInt4 := 0x7FFF_FFFF

  /** The white space PostgreSQL skips around an integer (C's `isspace`). */
  predicate IsPgSpace(c: char) {
    c == ' ' || c == '\t' || c == '\n' || c == '\r' || c == '\U{000B}' || c == '\U{000C}'
  }

  predicate IsDigit(c: char) {
    '0' <= c <= '9'
  }

  predicate AllDigits(s: string) {
    forall i :: 0 <= i < |s| ==> IsDigit(s[i])
  }

  /** The number a string of decimal digits spells. */
  function DigitsValue(s: string): nat
    requires AllDigits(s)
  {
    if s == [] then 0
    else DigitsValue(s[..|s| - 1]) * 10 + (s[|s| - 1] as int - '0' as int)
  }

  /** The number of PostgreSQL spaces at the start of `s`. */
  function LeadingPgSpace(s: string): (n: nat)
    ensures n <= |s|
    ensures forall i :: 0 <= i < n ==> IsPgSpace(s[i])
    ensures n < |s| ==> !IsPgSpace(s[n])
  {
    if s != [] && IsPgSpace(s[0]) then 1 + LeadingPgSpace(s[1..]) else 0
  }

  /** The number of PostgreSQL spaces at the end of `s`. */
  function TrailingPgSpace(s: string): (n: nat)
    ensures n <= |s|
    ensures forall i :: |s| - n <= i < |s| ==> IsPgSpace(s[i])
    ensures n < |s| ==> !IsPgSpace(s[|s| - n - 1])
  {
    if s != [] && IsPgSpace(s[|s| - 1]) then 1 + TrailingPgSpace(s[..|s| - 1]) else 0
  }

  /** The route parameter cast to the `integer` id column: spaces around it,
      an optional sign, at least one decimal digit, and a value in the 32-bit
      range; anything else is an invalid input and the query fails. */
  function ParseRowId(s: string): (r: Option<int>)
    ensures r.Some? ==> MinInt4 <= r.value <= MaxInt4
  {
    var a := LeadingPgSpace(s);
    var t := s[a..];
    var u := t[..|t| - TrailingPgSpace(t)];
    var negative := u != [] && u[0] == '-';
    var digits := if u != [] && (u[0] == '-' || u[0] == '+') then u[1..] else u;
    if digits == [] || !AllDigits(digits) then None
    else
      var magnitude: int := DigitsValue(digits);
      var v := if negative then -magnitude else magnitude;
      if MinInt4 <= v <= MaxInt4 then Some(v) else None
  }

  /** The decimal form JavaScript gives a non-negative integer (`${id}`). */
  function Decimal(n: nat): (s: string)
    ensures s != [] && AllDigits(s)
    ensures DigitsValue(s) == n
  {
    var last := [(('0' as int) + n % 10) as char];
    if n < 10 then last
    else
      var init := Decimal(n / 10);
      assert (init + last)[..|init + last| - 1] == init;
      init + last
  }

  /** The paths the browser builds, `/notes/${id}`, name row `id` to the
      server: every id the sequence can hand out survives the round trip
      through its decimal form. */
  lemma ParseRowIdOfDecimal(n: nat)
    requires n <= MaxInt4
    ensures ParseRowId(Decimal(n)) == Some(n)
  {
    var s := Decimal(n);
    assert IsDigit(s[0]) && IsDigit(s[|s| - 1]);
    assert LeadingPgSpace(s) == 0 && TrailingPgSpace(s) == 0;
    assert s[0..][..|s| - 0] == s;
  }

  // ---------------------------------------------------------------------
  // POST /notes
  // ---------------------------------------------------------------------

  /** The test at the top of the POST handler passes: the name is a string
      that is not blank (`!name || !name.trim()` is false). */
  predicate NamePresent(name: Field) {
    name.Text? && Trim(name.value) != ""
  }

  /** `x || ''` and `x || '#ffffff'` on a body field: a non-empty string is
      kept, anything falsy gives the default. */
  function OrDefault(f: Field, default: string): (v: string)
    ensures f.Text? && f.value != "" ==> v == f.value
    ensures !(f.Text? && f.value != "") ==> v == default
  {
    if f.Text? && f.value != "" then f.value else default
  }

  /** `POST /notes`. A missing or blank name is refused with 400. Otherwise
      the row is inserted with the trimmed name, an empty description and a
      white colour standing in for falsy ones, the next id, and the database
      clock `dbNow` as both timestamps; the new row is broadcast as
      `created` with `Date.now()` = `now` and returned with 201. A failing
      query answers 500 with the driver's message as `details` and changes
      nothing. */
  function HandlePost(s: Store, body: NoteBody, db: DbHealth, dbNow: int, now: int): (o: Outcome)
    ensures o.reply.status == 400 <==> !NamePresent(body.name)
    ensures o.reply.status == 201 <==> NamePresent(body.name) && db.Healthy?
    ensures o.reply.status == 500 <==> NamePresent(body.name) && db.Fails?
    ensures o.reply.status != 201 ==> o.store == s && o.event.None?
    ensures o.reply.status == 500 ==> o.reply.body == ErrorBody(CreateFailed, Some(db.message))
    ensures o.reply.status == 201 ==>
      var row := Row(s.nextId, Trim(body.name.value), OrDefault(body.description, ""),
                     OrDefault(body.bgColor, DefaultColor), dbNow, dbNow);
      && o.store == Store(s.rows[s.nextId := row], s.nextId + 1)
      && o.event == Some(Created(row, now))
      && o.reply.body == RowBody(row)
  {
    if !NamePresent(body.name) then
      Refuse(s, 400, NameRequired)
    else if db.Fails? then
      Outcome(Reply(500, ErrorBody(CreateFailed, Some(db.message))), s, None)
    else
      var row := Row(s.nextId, Trim(body.name.value), OrDefault(body.description, ""),
                     OrDefault(body.bgColor, DefaultColor), dbNow, dbNow);
      Outcome(Reply(201, RowBody(row)), Store(s.rows[s.nextId := row], s.nextId + 1),
              Some(Created(row, now)))
  }

  /** A created row is new: its id was not in the table, every earlier row
      is still there as it was, the table stays valid, and the stored name
      is trimmed and not empty. */
  lemma PostInsertsFreshRow(s: Store, body: NoteBody, db: DbHealth, dbNow: int, now: int)
    requires StoreValid(s)
    ensures var o := HandlePost(s, body, db, dbNow, now);
      && StoreValid(o.store)
      && (o.reply.status == 201 ==>
            && s.nextId !in s.rows
            && o.store.rows.Keys == s.rows.Keys + {s.nextId}
            && (forall k :: k in s.rows ==> o.store.rows[k] == s.rows[k])
            && var name := o.store.rows[s.nextId].name; name != "" && Trim(name) == name)
  {
    TrimIdempotent(if body.name.Text? then body.name.value else "");
  }

  // ---------------------------------------------------------------------
  // PUT /notes/:id
  // ---------------------------------------------------------------------

  /** `COALESCE($n, column)`: a string given in the body replaces the
      column, `null` and a missing member (which the driver sends as `null`)
      keep it. */
  function Coalesce(f: Field, current: string): (v: string)
    ensures f.Text? ==> v == f.value
    ensures !f.Text? ==> v == current
  {
    if f.Text? then f.value else current
  }

  /** The row the UPDATE writes: the name trimmed when given, each field
      the body leaves out kept, `updated_at` set to the database clock. */
  function Merge(row: Row, body: NoteBody, dbNow: int): (r: Row)
    requires !body.name.Null?
    ensures r.id == row.id && r.createdAt == row.createdAt && r.updatedAt == dbNow
    ensures r.name == (if body.name.Text? then Trim(body.name.value) else row.name)
    ensures r.description == Coalesce(body.description, row.description)
    ensures r.bgColor == Coalesce(body.bgColor, row.bgColor)
  {
    row.(name := Coalesce(if body.name.Text? then Text(Trim(body.name.value)) else Null, row.name),
         description := Coalesce(body.description, row.description),
         bgColor := Coalesce(body.bgColor, row.bgColor),
         updatedAt := dbNow)
  }

  /** `PUT /notes/:id`. A `null` name makes `name.trim()` throw, and a route
      parameter that is not an integer or a failing query makes the query
      throw: each answers 500. An id without a row answers 404. Otherwise
      the row is merged with the body, broadcast as `updated` and returned
      with 200. Only that row changes, and the name is not checked for
      being blank. */
  function HandlePut(s: Store, idParam: string, body: NoteBody, db: DbHealth, dbNow: int, now: int): (o: Outcome)
    ensures o.reply.status == 500 <==>
              body.name.Null? || ParseRowId(idParam).None? || db.Fails?
    ensures o.reply.status == 404 <==>
              !body.name.Null? && ParseRowId(idParam).Some? && db.Healthy?
              && ParseRowId(idParam).value !in s.rows
    ensures o.reply.status != 200 ==> o.store == s && o.event.None?
    ensures o.reply.status == 500 ==> o.reply.body == ErrorBody(UpdateFailed, None)
    ensures o.reply.status == 404 ==> o.reply.body == ErrorBody(NotFound, None)
    ensures o.reply.status in {200, 404, 500}
    ensures o.reply.status == 200 ==>
      var k := ParseRowId(idParam).value;
      && k in s.rows
      && var row := Merge(s.rows[k], body, dbNow);
      && o.store == s.(rows := s.rows[k := row])
      && o.event == Some(Updated(row, now))
      && o.reply.body == RowBody(row)
  {
    if body.name.Null? then Refuse(s, 500, UpdateFailed)
    else match ParseRowId(idParam)
      case None => Refuse(s, 500, UpdateFailed)
      case Some(k) =>
        if db.Fails? then Refuse(s, 500, UpdateFailed)
        else if k !in s.rows then Refuse(s, 404, NotFound)
        else
          var row := Merge(s.rows[k], body, dbNow);
          Outcome(Reply(200, RowBody(row)), s.(rows := s.rows[k := row]), Some(Updated(row, now)))
  }

  /** An update keeps the table valid and touches no other row; the set of
      ids and the id sequence are unchanged. */
  lemma PutKeepsOtherRows(s: Store, idParam: string, body: NoteBody, db: DbHealth, dbNow: int, now: int)
    requires StoreValid(s)
    ensures var o := HandlePut(s, idParam, body, db, dbNow, now);
      && StoreValid(o.store)
      && o.store.rows.Keys == s.rows.Keys && o.store.nextId == s.nextId
      && (forall k :: k in s.rows && Some(k) != ParseRowId(idParam) ==> o.store.rows[k] == s.rows[k])
  {
  }

  /** An update whose body leaves every field out (or sets the description
      and colour to `null`) keeps the row's contents and only moves its
      `updated_at`. */
  lemma PutWithoutFieldsOnlyTouches(s: Store, idParam: string, description: Field, bgColor: Field, dbNow: int, now: int)
    requires !description.Text? && !bgColor.Text?
    requires ParseRowId(idParam).Some? && ParseRowId(idParam).value in s.rows
    ensures var o := HandlePut(s, idParam, NoteBody(Missing, description, bgColor), Healthy, dbNow, now);
      var k := ParseRowId(idParam).value;
      o.reply.status == 200 && o.store.rows[k] == s.rows[k].(updatedAt := dbNow)
  {
  }

  /** Unlike a create, an update stores a blank name as it is given, trimmed
      to "": the handler has no blank-name check. */
  lemma PutMayStoreBlankName()
    ensures var s := Store(map[1 := Row(1, "Groceries", "", DefaultColor, 0, 0)], 2);
      var o := HandlePut(s, "1", NoteBody(Text("   "), Missing, Missing), Healthy, 5, 7);
      o.reply.status == 200 && o.store.rows[1].name == ""
  {
    var s := Store(map[1 := Row(1, "Groceries", "", DefaultColor, 0, 0)], 2);
    ParseRowIdOfDecimal(1);
    assert Decimal(1) == "1";
    assert AllWhiteSpace("   ");
    TrimEmptyIffBlank("   ");
  }

  // ---------------------------------------------------------------------
  // DELETE /notes/:id
  // ---------------------------------------------------------------------

  /** `DELETE /notes/:id`. A route parameter that is not an integer or a
      failing query answers 500; an id without a row answers 404; otherwise
      the row is removed, `deleted` is broadcast with the parameter string as
      the id, and `{ message: 'Note deleted' }` comes back with 200. */
  function HandleDelete(s: Store, idParam: string, db: DbHealth, now: int): (o: Outcome)
    ensures o.reply.status == 500 <==> ParseRowId(idParam).None? || db.Fails?
    ensures o.reply.status == 404 <==>
              ParseRowId(idParam).Some? && db.Healthy? && ParseRowId(idParam).value !in s.rows
    ensures o.reply.status != 200 ==> o.store == s && o.event.None?
    ensures o.reply.status == 500 ==> o.reply.body == ErrorBody(DeleteFailed, None)
    ensures o.reply.status == 404 ==> o.reply.body == ErrorBody(NotFound, None)
    ensures o.reply.status in {200, 404, 500}
    ensures o.reply.status == 200 ==>
      && o.store == s.(rows := s.rows - {ParseRowId(idParam).value})
      && o.event == Some(Deleted(idParam, now))
      && o.reply.body == MessageBody(NoteDeleted)
  {
    match ParseRowId(idParam)
    case None => Refuse(s, 500, DeleteFailed)
    case Some(k) =>
      if db.Fails? then Refuse(s, 500, DeleteFailed)
      else if k !in s.rows then Refuse(s, 404, NotFound)
      else Outcome(Reply(200, MessageBody(NoteDeleted)), s.(rows := s.rows - {k}), Some(Deleted(idParam, now)))
  }

  /** A delete keeps the table valid, removes exactly the named row, and
      never gives an id back to the sequence. */
  lemma DeleteRemovesOnlyItsRow(s: Store, idParam: string, db: DbHealth, now: int)
    requires StoreValid(s)
    ensures var o := HandleDelete(s, idParam, db, now);
      && StoreValid(o.store) && o.store.nextId == s.nextId
      && (o.reply.status == 200 ==>
            && ParseRowId(idParam).value in s.rows
            && o.store.rows.Keys == s.rows.Keys - {ParseRowId(idParam).value})
      && (forall k :: k in o.store.rows ==> k in s.rows && o.store.rows[k] == s.rows[k])
  {
  }

  // ---------------------------------------------------------------------
  // One broadcast per successful mutation
  // ---------------------------------------------------------------------

  /** Every handler broadcasts exactly when it succeeds, and what it
      broadcasts is the kind of change it made. */
  lemma BroadcastIffSuccess(s: Store, idParam: string, body: NoteBody, db: DbHealth, dbNow: int, now: int)
    ensures var o := HandlePost(s, body, db, dbNow, now);
      (o.event.Some? <==> o.reply.status == 201) && (o.event.Some? ==> o.event.value.Created?)
    ensures var o := HandlePut(s, idParam, body, db, dbNow, now);
      (o.event.Some? <==> o.reply.status == 200) && (o.event.Some? ==> o.event.value.Updated?)
    ensures var o := HandleDelete(s, idParam, db, now);
      (o.event.Some? <==> o.reply.status == 200) && (o.event.Some? ==> o.event.value.Deleted?)
  {
  }
}
