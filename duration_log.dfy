/** The table of duration records (sunbathing, a feed): a record is opened by
    `start`, closed once by `end` (by any family member), and may have its
    type, label and note edited at any time. A record is open while its
    `ended_at` is empty. */
module DurationLog {
  import opened Outcomes
  import opened Query
  import opened Rounding

  /** A row of `duration_records`. Instants are milliseconds; `endedAt` is
      `None` while `ended_at` is the empty string; `durationTenths` is
      `duration_minutes` times ten. */
  datatype DurationRecord = DurationRecord(
    id: int,
    eventType: string,
    eventLabel: string,
    startedBy: string,
    endedBy: string,
    startedAt: int,
    endedAt: Option<int>,
    durationTenths: int,
    note: string)

  function IdOf(r: DurationRecord): int { r.id }
  function StartedAt(r: DurationRecord): int { r.startedAt }

  predicate IsOpen(r: DurationRecord) {
    r.endedAt.None?
  }

  /** The contents of the table: rows by id, and the last id AUTOINCREMENT
      handed out (ids are never reused, even after a delete). */
  datatype Table = Table(rows: map<int, DurationRecord>, lastId: int)

  /** What every row satisfies: an open row has the column defaults
      (`ended_by` empty, `duration_minutes` 0); a closed row's duration is its
      elapsed time rounded to a tenth of a minute. */
  ghost predicate Consistent(r: DurationRecord) {
    if IsOpen(r) then r.endedBy == "" && r.durationTenths == 0
    else r.durationTenths == RoundTenths(r.endedAt.value - r.startedAt)
  }

  ghost predicate WellFormed(t: Table) {
    Indexed(t.rows, IdOf, t.lastId) && forall k :: k in t.rows ==> Consistent(t.rows[k])
  }

  /** The reply of a handler together with the table it leaves behind. */
  datatype Step<+T> = Step(reply: Reply<T>, table: Table)

  // ---------------------------------------------------------------------
  // Requests

  /** The body of `POST /api/duration/start`; an absent field is `None`. */
  datatype StartRequest = StartRequest(
    eventType: Option<string>,
    eventLabel: Option<string>,
    startedBy: Option<string>,
    startedAt: Option<int>,
    note: Option<string>)

  /** The body of `POST /api/duration/end/:id`. */
  datatype EndRequest = EndRequest(endedBy: string, endedAt: Option<int>)

  /** The body of `PUT /api/duration/:id`: the three editable columns. */
  datatype UpdateRequest = UpdateRequest(
    eventType: Option<string>,
    eventLabel: Option<string>,
    note: Option<string>)

  /** The first NOT NULL column a start request leaves NULL, in column order. */
  function MissingColumn(req: StartRequest): (col: Option<string>)
    ensures col.None? <==> req.eventType.Some? && req.eventLabel.Some? && req.startedBy.Some?
    ensures req.eventType.None? ==> col == Some("duration_records.event_type")
    ensures req.eventType.Some? && req.eventLabel.None? ==> col == Some("duration_records.event_label")
    ensures req.eventType.Some? && req.eventLabel.Some? && req.startedBy.None? ==>
      col == Some("duration_records.started_by")
  {
    if req.eventType.None? then Some("duration_records.event_type")
    else if req.eventLabel.None? then Some("duration_records.event_label")
    else if req.startedBy.None? then Some("duration_records.started_by")
    else None
  }

  // ---------------------------------------------------------------------
  // The handlers as functions of the table

  /** The row `start` inserts: open, with the column defaults. */
  function Opened(id: int, req: StartRequest, now: int): DurationRecord
    requires MissingColumn(req).None?
  {
    DurationRecord(id, req.eventType.value, req.eventLabel.value, req.startedBy.value, "",
                   req.startedAt.GetOr(now), None, 0, req.note.GetOr(""))
  }

  function StartStep(t: Table, req: StartRequest, now: int): Step<int> {
    match MissingColumn(req)
    case Some(col) => Step(Err(MissingField(col)), t)
    case None =>
      var id := t.lastId + 1;
      Step(Ok(id), Table(t.rows[id := Opened(id, req, now)], id))
  }

  /** The row `end` writes back: ended by whoever ends it, at the given instant,
      with the elapsed time rounded to a tenth of a minute. */
  function Closed(r: DurationRecord, endedBy: string, endAt: int): DurationRecord {
    r.(endedBy := endedBy, endedAt := Some(endAt), durationTenths := RoundTenths(endAt - r.startedAt))
  }

  function EndStep(t: Table, id: int, req: EndRequest, now: int): Step<int> {
    var endAt := req.endedAt.GetOr(now);
    if id !in t.rows then Step(Err(NotFound), t)
    else if !IsOpen(t.rows[id]) then Step(Err(AlreadyEnded), t)
    else
      var closed := Closed(t.rows[id], req.endedBy, endAt);
      Step(Ok(closed.durationTenths), t.(rows := t.rows[id := closed]))
  }

  /** The row after an edit: each supplied column replaced, the others kept. */
  function Edited(r: DurationRecord, req: UpdateRequest): DurationRecord {
    r.(eventType := req.eventType.GetOr(r.eventType),
       eventLabel := req.eventLabel.GetOr(r.eventLabel),
       note := req.note.GetOr(r.note))
  }

  predicate NothingSupplied(req: UpdateRequest) {
    req.eventType.None? && req.eventLabel.None? && req.note.None?
  }

  function UpdateStep(t: Table, id: int, req: UpdateRequest): Step<()> {
    if NothingSupplied(req) then Step(Err(NothingToUpdate), t)
    else if id in t.rows then Step(Ok(()), t.(rows := t.rows[id := Edited(t.rows[id], req)]))
    else Step(Ok(()), t)
  }

  function DeleteStep(t: Table, id: int): Step<()> {
    Step(Ok(()), t.(rows := t.rows - {id}))
  }

  // ---------------------------------------------------------------------
  // Queries

  /** `GET /api/duration` returns 20 rows when no limit is given. */
  const DefaultLimit := 20

  /** The WHERE clause of `GET /api/duration`: the type filter applies only to a
      non-empty `event_type`; only open rows when `active_only` is the string "true". */
  predicate Matches(eventType: Option<string>, activeOnly: Option<string>, r: DurationRecord) {
    && (eventType.None? || eventType.value == "" || r.eventType == eventType.value)
    && (activeOnly != Some("true") || IsOpen(r))
  }

  /** `GET /api/duration?event_type&active_only&limit`: the matching rows, latest
      `started_at` first, at most `limit` (default 20; negative: all). */
  function ListDurations(t: Table, eventType: Option<string>, activeOnly: Option<string>, limit: Option<int>)
    : (r: seq<DurationRecord>)
    requires Indexed(t.rows, IdOf, t.lastId)
    ensures forall x :: x in r ==> x.id in t.rows && t.rows[x.id] == x && Matches(eventType, activeOnly, x)
    ensures forall x :: multiset(r)[x] <= 1
    ensures forall i, j :: 0 <= i < j < |r| ==> r[i].startedAt >= r[j].startedAt
    ensures 0 <= limit.GetOr(DefaultLimit) ==> |r| <= limit.GetOr(DefaultLimit)
    ensures limit.GetOr(DefaultLimit) < 0 || |r| < limit.GetOr(DefaultLimit) ==>
      forall k :: k in t.rows && Matches(eventType, activeOnly, t.rows[k]) ==> t.rows[k] in r
    ensures forall k, y :: k in t.rows && Matches(eventType, activeOnly, t.rows[k]) && t.rows[k] !in r && y in r ==>
      StartedAt(t.rows[k]) <= StartedAt(y)
  {
    var keep := (x: DurationRecord) => Matches(eventType, activeOnly, x);
    Select(t.rows, IdOf, t.lastId, keep, StartedAt, limit.GetOr(DefaultLimit))
  }

  /** `GET /api/active`: every open row, latest `started_at` first, without a limit. */
  function Active(t: Table): (r: seq<DurationRecord>)
    requires Indexed(t.rows, IdOf, t.lastId)
    ensures forall x :: x in r ==> x.id in t.rows && t.rows[x.id] == x && IsOpen(x)
    ensures forall k :: k in t.rows && IsOpen(t.rows[k]) ==> t.rows[k] in r
    ensures forall x :: multiset(r)[x] <= 1
    ensures forall i, j :: 0 <= i < j < |r| ==> r[i].startedAt >= r[j].startedAt
  {
    Select(t.rows, IdOf, t.lastId, IsOpen, StartedAt, -1)
  }

  // ---------------------------------------------------------------------
  // The table as the handlers update it in place

  /** One column assignment of the SET clause `PUT /api/duration/:id` builds. */
  datatype Assignment = SetEventType(value: string) | SetEventLabel(value: string) | SetNote(value: string)

  /** What UPDATE does with a row given a SET clause: each assignment in turn. */
  function Assign(r: DurationRecord, sets: seq<Assignment>): DurationRecord
    decreases |sets|
  {
    if sets == [] then r
    else
      var a := sets[|sets| - 1];
      var before := Assign(r, sets[..|sets| - 1]);
      match a
      case SetEventType(v) => before.(eventType := v)
      case SetEventLabel(v) => before.(eventLabel := v)
      case SetNote(v) => before.(note := v)
  }

  /** The SET clause for a request: one assignment per supplied column, in the
      order event_type, event_label, note. */
  function SetClause(req: UpdateRequest): (sets: seq<Assignment>)
    ensures |sets| == 0 <==> NothingSupplied(req)
  {
    (if req.eventType.Some? then [SetEventType(req.eventType.value)] else [])
    + (if req.eventLabel.Some? then [SetEventLabel(req.eventLabel.value)] else [])
    + (if req.note.Some? then [SetNote(req.note.value)] else [])
  }

  /** Running the SET clause of a request edits exactly the supplied columns. */
  lemma SetClauseEdits(r: DurationRecord, req: UpdateRequest)
    ensures Assign(r, SetClause(req)) == Edited(r, req)
  {
    var a := if req.eventType.Some? then [SetEventType(req.eventType.value)] else [];
    var b := if req.eventLabel.Some? then [SetEventLabel(req.eventLabel.value)] else [];
    var c := if req.note.Some? then [SetNote(req.note.value)] else [];
    assert SetClause(req) == a + b + c;
    assert (a + b + c)[..|a + b|] == a + b;
    assert (a + b)[..|a|] == a;
    assert Assign(r, a) == r.(eventType := req.eventType.GetOr(r.eventType));
  }

  /** An edit touches neither the id, the start, the end nor the duration, so
      the table stays well formed. */
  lemma UpdateKeepsWellFormed(t: Table, id: int, req: UpdateRequest)
    requires WellFormed(t)
    ensures WellFormed(UpdateStep(t, id, req).table)
  {
  }

  class DurationTable {
    var rows: map<int, DurationRecord>
    var lastId: int

    function State(): Table
      reads this
    {
      Table(rows, lastId)
    }

    ghost predicate Valid()
      reads this
    {
      WellFormed(State())
    }

    constructor ()
      ensures Valid() && rows == map[] && lastId == 0
    {
      rows := map[];
      lastId := 0;
    }

    /** `POST /api/duration/start`. */
    method Start(req: StartRequest, now: int) returns (reply: Reply<int>)
      requires Valid()
      modifies this
      ensures Valid()
      ensures Step(reply, State()) == StartStep(old(State()), req, now)
    {
      var missing := MissingColumn(req);
      if missing.Some? {
        return Err(MissingField(missing.value));
      }
      var id := lastId + 1;
      rows := rows[id := Opened(id, req, now)];
      lastId := id;
      reply := Ok(id);
    }

    /** `POST /api/duration/end/:id`: reads the row, refuses a missing or an
        ended one, and otherwise writes `ended_by`, `ended_at` and
        `duration_minutes`, answering with the duration it stored. */
    method End(id: int, req: EndRequest, now: int) returns (reply: Reply<int>)
      requires Valid()
      modifies this
      ensures Valid()
      ensures Step(reply, State()) == EndStep(old(State()), id, req, now)
    {
      var endTime := req.endedAt.GetOr(now);
      if id !in rows {
        return Err(NotFound);
      }
      var record := rows[id];
      if record.endedAt.Some? {
        return Err(AlreadyEnded);
      }
      var tenths := RoundTenths(endTime - record.startedAt);
      rows := rows[id := record.(endedBy := req.endedBy, endedAt := Some(endTime), durationTenths := tenths)];
      reply := Ok(tenths);
    }

    /** `PUT /api/duration/:id`: builds a SET clause from the supplied columns,
        refuses an empty one, and runs the UPDATE (which touches no row when
        the id is unknown). */
    method Update(id: int, req: UpdateRequest) returns (reply: Reply<()>)
      requires Valid()
      modifies this
      ensures Valid()
      ensures Step(reply, State()) == UpdateStep(old(State()), id, req)
    {
      var sets: seq<Assignment> := [];
      if req.eventType.Some? {
        sets := sets + [SetEventType(req.eventType.value)];
      }
      if req.eventLabel.Some? {
        sets := sets + [SetEventLabel(req.eventLabel.value)];
      }
      if req.note.Some? {
        sets := sets + [SetNote(req.note.value)];
      }
      assert sets == SetClause(req);
      if |sets| == 0 {
        return Err(NothingToUpdate);
      }
      UpdateKeepsWellFormed(State(), id, req);
      if id in rows {
        SetClauseEdits(rows[id], req);
        rows := rows[id := Assign(rows[id], sets)];
      }
      reply := Ok(());
    }

    /** `DELETE /api/duration/:id`: succeeds whether or not the row exists. */
    method Delete(id: int) returns (reply: Reply<()>)
      requires Valid()
      modifies this
      ensures Valid()
      ensures Step(reply, State()) == DeleteStep(old(State()), id)
    {
      rows := rows - {id};
      reply := Ok(());
    }
  }
}
