/** The table of instant records (a diaper change, a feed): rows are inserted,
    listed latest first, and deleted; they are never edited. */
module InstantLog {
  import opened Outcomes
  import opened Query

  /** A row of `instant_records`. `recorded_at` is the instant in milliseconds. */
  datatype InstantRecord = InstantRecord(
    id: int,
    eventType: string,
    eventLabel: string,
    recordedBy: string,
    recordedAt: int,
    note: string)

  function IdOf(r: InstantRecord): int { r.id }
  function RecordedAt(r: InstantRecord): int { r.recordedAt }

  /** The body of `POST /api/instant`; an absent field is `None`. */
  datatype InsertRequest = InsertRequest(
    eventType: Option<string>,
    eventLabel: Option<string>,
    recordedBy: Option<string>,
    recordedAt: Option<int>,
    note: Option<string>)

  /** The first NOT NULL column the request leaves NULL, in column order. */
  function MissingColumn(req: InsertRequest): (col: Option<string>)
    ensures col.None? <==> req.eventType.Some? && req.eventLabel.Some? && req.recordedBy.Some?
    ensures req.eventType.None? ==> col == Some("instant_records.event_type")
    ensures req.eventType.Some? && req.eventLabel.None? ==> col == Some("instant_records.event_label")
    ensures req.eventType.Some? && req.eventLabel.Some? && req.recordedBy.None? ==>
      col == Some("instant_records.recorded_by")
  {
    if req.eventType.None? then Some("instant_records.event_type")
    else if req.eventLabel.None? then Some("instant_records.event_label")
    else if req.recordedBy.None? then Some("instant_records.recorded_by")
    else None
  }

  /** `GET /api/instant` returns 20 rows when no limit is given. */
  const DefaultLimit := 20

  /** The `event_type` filter applies only when the parameter is a non-empty string. */
  predicate TypeMatches(eventType: Option<string>, r: InstantRecord) {
    eventType.None? || eventType.value == "" || r.eventType == eventType.value
  }

  /** `GET /api/instant?event_type&limit`: the rows of the requested type, latest
      `recorded_at` first, at most `limit` (default 20; negative: all). */
  function ListInstants(rows: map<int, InstantRecord>, lastId: int, eventType: Option<string>, limit: Option<int>)
    : (r: seq<InstantRecord>)
    requires Indexed(rows, IdOf, lastId)
    ensures forall x :: x in r ==> x.id in rows && rows[x.id] == x && TypeMatches(eventType, x)
    ensures forall x :: multiset(r)[x] <= 1
    ensures forall i, j :: 0 <= i < j < |r| ==> r[i].recordedAt >= r[j].recordedAt
    ensures 0 <= limit.GetOr(DefaultLimit) ==> |r| <= limit.GetOr(DefaultLimit)
    ensures limit.GetOr(DefaultLimit) < 0 || |r| < limit.GetOr(DefaultLimit) ==>
      forall k :: k in rows && TypeMatches(eventType, rows[k]) ==> rows[k] in r
    ensures forall k, y :: k in rows && TypeMatches(eventType, rows[k]) && rows[k] !in r && y in r ==>
      RecordedAt(rows[k]) <= RecordedAt(y)
  {
    var keep := (x: InstantRecord) => TypeMatches(eventType, x);
    Select(rows, IdOf, lastId, keep, RecordedAt, limit.GetOr(DefaultLimit))
  }

  /** The instant-record table: its rows by id and the last id AUTOINCREMENT handed out. */
  class InstantTable {
    var rows: map<int, InstantRecord>
    var lastId: int

    ghost predicate Valid()
      reads this
    {
      Indexed(rows, IdOf, lastId)
    }

    constructor ()
      ensures Valid() && rows == map[] && lastId == 0
    {
      rows := map[];
      lastId := 0;
    }

    /** `POST /api/instant`: a fresh id above every id handed out so far;
        `recorded_at` defaults to the clock and `note` to the empty string.
        A missing NOT NULL column aborts the INSERT and nothing changes. */
    method Insert(req: InsertRequest, now: int) returns (reply: Reply<int>)
      requires Valid()
      modifies this
      ensures Valid()
      ensures MissingColumn(req).Some? ==>
        reply == Err(MissingField(MissingColumn(req).value)) && rows == old(rows) && lastId == old(lastId)
      ensures MissingColumn(req).None? ==>
        && reply == Ok(old(lastId) + 1)
        && old(lastId) + 1 !in old(rows)
        && (forall k :: k in old(rows) ==> k < reply.value)
        && lastId == reply.value
        && rows == old(rows)[reply.value := InstantRecord(reply.value, req.eventType.value, req.eventLabel.value,
                                                           req.recordedBy.value, req.recordedAt.GetOr(now), req.note.GetOr(""))]
    {
      var missing := MissingColumn(req);
      if missing.Some? {
        return Err(MissingField(missing.value));
      }
      var id := lastId + 1;
      var record := InstantRecord(id, req.eventType.value, req.eventLabel.value, req.recordedBy.value,
                                  req.recordedAt.GetOr(now), req.note.GetOr(""));
      rows := rows[id := record];
      lastId := id;
      reply := Ok(id);
    }

    /** `DELETE /api/instant/:id`: removes that row if there is one, and reports
        success either way. */
    method Delete(id: int) returns (reply: Reply<()>)
      requires Valid()
      modifies this
      ensures Valid()
      ensures reply == Ok(())
      ensures rows == old(rows) - {id} && lastId == old(lastId)
    {
      rows := rows - {id};
      reply := Ok(());
    }
  }
}
