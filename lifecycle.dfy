/** What the duration handlers promise, stated over the step functions that
    the methods of `DurationTable` are proved to follow. */
module DurationLifecycle {
  import opened Outcomes
  import opened Query
  import opened Rounding
  import opened DurationLog

  /** Columns other than the ones an operation is allowed to write are equal. */
  predicate SameHistory(a: DurationRecord, b: DurationRecord) {
    a.id == b.id && a.startedBy == b.startedBy && a.startedAt == b.startedAt
    && a.endedBy == b.endedBy && a.endedAt == b.endedAt && a.durationTenths == b.durationTenths
  }

  // ---------------------------------------------------------------------
  // start

  /** `start` either fails on a missing NOT NULL column and changes nothing, or
      inserts one open row under a fresh id above every earlier id, with
      `ended_at` and `ended_by` empty, duration 0, `note` defaulting to the
      empty string and `started_at` to the clock; no other row changes. */
  lemma StartOpensFreshRecord(t: Table, req: StartRequest, now: int)
    requires WellFormed(t)
    ensures var s := StartStep(t, req, now);
      && (s.reply.Err? <==> MissingColumn(req).Some?)
      && (s.reply.Err? ==> s.reply.failure == MissingField(MissingColumn(req).value) && s.table == t)
      && (s.reply.Ok? ==>
            var id := s.reply.value;
            && id == t.lastId + 1
            && id !in t.rows
            && (forall k :: k in t.rows ==> k < id)
            && s.table.lastId == id
            && s.table.rows.Keys == t.rows.Keys + {id}
            && (forall k :: k in t.rows ==> s.table.rows[k] == t.rows[k])
            && var r := s.table.rows[id];
               && r.id == id && IsOpen(r) && r.endedBy == "" && r.durationTenths == 0
               && r.eventType == req.eventType.value && r.eventLabel == req.eventLabel.value
               && r.startedBy == req.startedBy.value
               && r.startedAt == req.startedAt.GetOr(now) && r.note == req.note.GetOr(""))
  {
  }

  /** Two successful starts hand out increasing ids. */
  lemma StartIdsIncrease(t: Table, req1: StartRequest, req2: StartRequest, now1: int, now2: int)
    requires WellFormed(t)
    ensures var s1 := StartStep(t, req1, now1);
      var s2 := StartStep(s1.table, req2, now2);
      s1.reply.Ok? && s2.reply.Ok? ==> s1.reply.value < s2.reply.value && s2.reply.value !in s1.table.rows
  {
  }

  /** AUTOINCREMENT never hands out an id again, not even one whose row was
      deleted: a start after deleting the row `id` answers a different id. */
  lemma {:induction false} DeletedIdIsNotReused(t: Table, id: int, req: StartRequest, now: int)
    requires WellFormed(t) && id in t.rows
    requires StartStep(DeleteStep(t, id).table, req, now).reply.Ok?
    ensures StartStep(DeleteStep(t, id).table, req, now).reply.value != id
  {
    StartOpensFreshRecord(DeleteStep(t, id).table, req, now);
  }

  // ---------------------------------------------------------------------
  // end

  /** `end` on an id without a row answers NotFound and changes nothing. */
  lemma EndUnknownIsNotFound(t: Table, id: int, req: EndRequest, now: int)
    requires id !in t.rows
    ensures EndStep(t, id, req, now) == Step(Err(NotFound), t)
  {
  }

  /** `end` on an ended row answers AlreadyEnded and changes nothing: the row
      keeps its `ended_at`, `ended_by` and duration. */
  lemma EndClosedIsRefused(t: Table, id: int, req: EndRequest, now: int)
    requires id in t.rows && !IsOpen(t.rows[id])
    ensures EndStep(t, id, req, now) == Step(Err(AlreadyEnded), t)
  {
  }

  /** `end` on an open row sets `ended_by`, `ended_at` (the clock when not
      given) and the duration, the elapsed time rounded half up to a tenth
      of a minute; it answers with the duration it stored. Every other column
      and every other row is left as it was. */
  lemma EndOpenCloses(t: Table, id: int, req: EndRequest, now: int)
    requires WellFormed(t) && id in t.rows && IsOpen(t.rows[id])
    ensures var s := EndStep(t, id, req, now);
      var before, after := t.rows[id], s.table.rows[id];
      var endAt := req.endedAt.GetOr(now);
      && s.reply == Ok(after.durationTenths)
      && after.endedBy == req.endedBy
      && after.endedAt == Some(endAt)
      && TenthMillis * after.durationTenths - TenthMillis / 2 <= endAt - before.startedAt
      && endAt - before.startedAt < TenthMillis * after.durationTenths + TenthMillis / 2
      && after == before.(endedBy := after.endedBy, endedAt := after.endedAt, durationTenths := after.durationTenths)
      && s.table.lastId == t.lastId
      && s.table.rows.Keys == t.rows.Keys
      && (forall k :: k in t.rows && k != id ==> s.table.rows[k] == t.rows[k])
      && WellFormed(s.table)
  {
  }

  /** A row is closed at most once: once `end` has succeeded, every later
      `end` of that id is refused and leaves the table unchanged. */
  lemma EndOnlyOnce(t: Table, id: int, first: EndRequest, second: EndRequest, now1: int, now2: int)
    requires WellFormed(t)
    requires EndStep(t, id, first, now1).reply.Ok?
    ensures var s := EndStep(t, id, first, now1);
      EndStep(s.table, id, second, now2) == Step(Err(AlreadyEnded), s.table)
  {
  }

  /** Ending at the very instant of the start gives a duration of 0. */
  lemma EndAtStartIsZero(t: Table, id: int, req: EndRequest, now: int)
    requires id in t.rows && IsOpen(t.rows[id])
    requires req.endedAt.GetOr(now) == t.rows[id].startedAt
    ensures EndStep(t, id, req, now).reply == Ok(0)
  {
  }

  /** An end given more than half a tenth of a minute (3 s) before the start
      is not refused: the row is closed with a negative duration. (An end less
      than half a tenth early rounds to 0.) */
  lemma EndBeforeStartIsNegative(t: Table, id: int, req: EndRequest, now: int)
    requires id in t.rows && IsOpen(t.rows[id])
    requires req.endedAt.GetOr(now) < t.rows[id].startedAt - TenthMillis / 2
    ensures EndStep(t, id, req, now).reply.Ok?
    ensures EndStep(t, id, req, now).reply.value < 0
  {
  }

  // ---------------------------------------------------------------------
  // update

  /** `update` with none of the three editable columns is refused and changes nothing. */
  lemma UpdateWithNothingIsRefused(t: Table, id: int, req: UpdateRequest)
    requires NothingSupplied(req)
    ensures UpdateStep(t, id, req) == Step(Err(NothingToUpdate), t)
  {
  }

  /** Otherwise `update` succeeds, even for an unknown id (then nothing
      changes); on a row it replaces exactly the supplied columns among
      event_type, event_label and note, and never touches the start, the
      end, the duration or whether the row is open. */
  lemma UpdateEditsOnlyGivenColumns(t: Table, id: int, req: UpdateRequest)
    requires !NothingSupplied(req)
    ensures var s := UpdateStep(t, id, req);
      && s.reply == Ok(())
      && s.table.lastId == t.lastId
      && s.table.rows.Keys == t.rows.Keys
      && (forall k :: k in t.rows && k != id ==> s.table.rows[k] == t.rows[k])
      && (id !in t.rows ==> s.table == t)
      && (id in t.rows ==>
            var before, after := t.rows[id], s.table.rows[id];
            && SameHistory(before, after)
            && IsOpen(after) == IsOpen(before)
            && after.eventType == (if req.eventType.Some? then req.eventType.value else before.eventType)
            && after.eventLabel == (if req.eventLabel.Some? then req.eventLabel.value else before.eventLabel)
            && after.note == (if req.note.Some? then req.note.value else before.note))
  {
  }

  // ---------------------------------------------------------------------
  // delete

  /** `delete` removes the row with that id, if any, and nothing else, and
      always succeeds; the id is not handed out again. */
  lemma DeleteRemovesOnlyThatRow(t: Table, id: int)
    ensures var s := DeleteStep(t, id);
      && s.reply == Ok(())
      && id !in s.table.rows
      && s.table.rows.Keys == t.rows.Keys - {id}
      && (forall k :: k in s.table.rows ==> s.table.rows[k] == t.rows[k])
      && s.table.lastId == t.lastId
  {
  }

  // ---------------------------------------------------------------------
  // The active list across the lifecycle

  /** A row that `start` opens is listed as active. */
  lemma StartedIsActive(t: Table, req: StartRequest, now: int)
    requires WellFormed(t)
    requires StartStep(t, req, now).reply.Ok?
    ensures var s := StartStep(t, req, now);
      Indexed(s.table.rows, IdOf, s.table.lastId) && s.table.rows[s.reply.value] in Active(s.table)
  {
  }

  /** After a successful `end`, the row is no longer active, and every other
      row that was active still is. */
  lemma EndedIsNotActive(t: Table, id: int, req: EndRequest, now: int)
    requires WellFormed(t)
    requires EndStep(t, id, req, now).reply.Ok?
    ensures var s := EndStep(t, id, req, now);
      && Indexed(s.table.rows, IdOf, s.table.lastId)
      && (forall x :: x in Active(s.table) ==> x.id != id)
      && (forall x :: x in Active(t) && x.id != id ==> x in Active(s.table))
  {
    var s := EndStep(t, id, req, now);
    EndOpenCloses(t, id, req, now);
    forall x | x in Active(t) && x.id != id
      ensures x in Active(s.table)
    {
      assert s.table.rows[x.id] == x;
    }
  }

  /** The active list and the duration list with `active_only=true`, no type
      and no limit hold the same rows. */
  lemma ActiveIsActiveOnlyList(t: Table)
    requires Indexed(t.rows, IdOf, t.lastId)
    ensures multiset(Active(t)) == multiset(ListDurations(t, None, Some("true"), Some(-1)))
  {
  }

  // ---------------------------------------------------------------------
  // A worked example

  /** 2024-01-01T08:00:00Z in milliseconds since the epoch. */
  const Eight := 1704096000000

  const SunbathStart := StartRequest(Some("sunbath"), Some("晒太阳"), Some("爸爸"), Some(Eight), None)
  const SunbathEnd := EndRequest("妈妈", Some(Eight + 930000))

  /** The row the example's start opens, and the row its end leaves. */
  const Running := DurationRecord(1, "sunbath", "晒太阳", "爸爸", "", Eight, None, 0, "")
  const Finished := Running.(endedBy := "妈妈", endedAt := Some(Eight + 930000), durationTenths := 155)

  /** On a table of one row, the active list holds that row exactly when it is open. */
  lemma ActiveOfOneRow(r: DurationRecord)
    requires r.id == 1
    ensures Indexed(map[1 := r], IdOf, 1)
    ensures forall x :: x in Active(Table(map[1 := r], 1)) <==> x == r && IsOpen(r)
  {
  }

  /** A sunbath started at 08:00:00 and ended by another family member at
      08:15:30 gets id 1 on an empty table and lasts 15.5 minutes; it is the
      one active row before the end and the active list is empty after. */
  lemma SunbathExample(now: int)
    ensures var started := StartStep(Table(map[], 0), SunbathStart, now);
      var ended := EndStep(started.table, 1, SunbathEnd, now);
      && started == Step(Ok(1), Table(map[1 := Running], 1))
      && ended == Step(Ok(155), Table(map[1 := Finished], 1))
      && Indexed(started.table.rows, IdOf, started.table.lastId) && Indexed(ended.table.rows, IdOf, ended.table.lastId)
      && (forall x :: x in Active(started.table) <==> x == Running)
      && Active(ended.table) == []
  {
    RoundTenthsUnique(930000, 155);
    ActiveOfOneRow(Running);
    ActiveOfOneRow(Finished);
    var activeAfter := Active(Table(map[1 := Finished], 1));
    assert forall x :: x !in activeAfter;
  }
}
