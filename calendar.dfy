/** The calendar API, `app/api/calendar/routes.tsx`: listing a user's events,
    creating, updating and deleting one, over the `calendar_events` table.
    Query-string parameters are `None` when missing or empty (any other text,
    "0" included, passes the `!x` test); JSON numbers are falsy when 0. The
    clock (`NOW()`) and the instant MySQL reads from a date text are inputs. */
module Calendar {
  import opened Common
  import opened Sequences
  import opened Sorting

  /** A row of `calendar_events`. `PUT` writes its body's `title` and
      `start` as given, so those columns may hold NULL (`None`). */
  datatype EventRow = EventRow(
    id: int, title: Option<string>, description: string, startDate: Option<string>,
    endDate: Option<string>, color: string, userId: int, createdAt: string)

  /** A text member of a JSON body: absent from the object (`undefined`
      once destructured), `null`, or a string. */
  datatype JsonText = Absent | Null | Text(value: string)

  /** JavaScript truthiness of a text member. */
  predicate Truthy(f: JsonText) {
    f.Text? && |f.value| > 0
  }

  /** The column value a bound member stores: its text, or NULL for `null`.
      The driver refuses to bind `undefined`, so an absent member has none. */
  function Column(f: JsonText): (r: Option<string>)
    requires !f.Absent?
    ensures r.Some? <==> f.Text?
    ensures f.Text? ==> r.value == f.value
  {
    if f.Text? then Some(f.value) else None
  }

  /** The fields a `POST` or `PUT` body may carry. `title` and `start` are
      bound as they come, so for them an absent member and `null` differ;
      the others are only tested for truthiness, where both are falsy
      (`None`). */
  datatype EventBody = EventBody(
    id: Option<int>, title: JsonText, description: Option<string>, start: JsonText,
    end: Option<string>, color: Option<string>, userId: Option<int>)

  /** A handler's answer: a 400 with its error text, a 200 with a body, or
      the 500 of the handler's `catch`. */
  datatype Reply<T> = BadRequest(error: string) | Ok(body: T) | ServerError(message: string)

  const DefaultColor := "#3b82f6"
  const UserIdRequired := "User ID required"
  const CreateFieldsRequired := "Title, start date and user ID are required"
  const EventIdRequired := "Event ID is required"
  const UpdateFailed := "Failed to update event"

  /** `end || start`, as the column value it stores. */
  function EndOrStart(end: Option<string>, start: JsonText): (r: Option<string>)
    requires !start.Absent?
    ensures TextPresent(end) ==> r == end
    ensures !TextPresent(end) ==> r == Column(start)
  {
    if TextPresent(end) then end else Column(start)
  }

  /** The row `POST` inserts under `id`, with the defaults for a falsy
      description, end and colour. */
  function NewRow(id: int, body: EventBody, now: string): (r: EventRow)
    requires Truthy(body.title) && Truthy(body.start) && IdPresent(body.userId)
    ensures r.id == id && r.title == Some(body.title.value) && r.startDate == Some(body.start.value)
    ensures r.userId == body.userId.value
    ensures r.description == (if TextPresent(body.description) then body.description.value else "")
    ensures r.endDate == (if TextPresent(body.end) then body.end else Some(body.start.value))
    ensures r.color == (if TextPresent(body.color) then body.color.value else DefaultColor)
    ensures r.createdAt == now
  {
    EventRow(id, Column(body.title), TextOr(body.description, ""), Column(body.start),
             EndOrStart(body.end, body.start), TextOr(body.color, DefaultColor), body.userId.value, now)
  }

  /** Every parameter of the `UPDATE` has a value the driver can bind:
      the description and the colour always do (`|| ""`, `|| "#3b82f6"`),
      `end || start` does whenever `start` does, and so does the id once
      it passed the `!id` test. */
  predicate Binds(body: EventBody) {
    !body.title.Absent? && !body.start.Absent?
  }

  /** The `UPDATE ... SET` applied to one row: the five columns from the
      body, with the same defaults as on insert; id, owner and creation time
      stay. */
  function Overwritten(row: EventRow, body: EventBody): EventRow
    requires Binds(body)
  {
    row.(title := Column(body.title), description := TextOr(body.description, ""), startDate := Column(body.start),
         endDate := EndOrStart(body.end, body.start), color := TextOr(body.color, DefaultColor))
  }

  /** `UPDATE calendar_events SET ... WHERE id = ?` over the table. */
  function UpdateWhereId(events: seq<EventRow>, id: int, body: EventBody): (r: seq<EventRow>)
    requires Binds(body)
    ensures |r| == |events|
    ensures forall k :: 0 <= k < |events| && events[k].id != id ==> r[k] == events[k]
    ensures forall k :: 0 <= k < |events| && events[k].id == id ==>
              r[k].id == id && r[k].userId == events[k].userId && r[k].createdAt == events[k].createdAt &&
              r[k].title == Column(body.title) && r[k].startDate == Column(body.start) &&
              r[k].description == (if TextPresent(body.description) then body.description.value else "") &&
              r[k].endDate == (if TextPresent(body.end) then body.end else Column(body.start)) &&
              r[k].color == (if TextPresent(body.color) then body.color.value else DefaultColor)
  {
    seq(|events|, k requires 0 <= k < |events| => if events[k].id == id then Overwritten(events[k], body) else events[k])
  }

  /** Writing the same body twice writes it once. */
  lemma UpdateIdempotent(events: seq<EventRow>, id: int, body: EventBody)
    requires Binds(body)
    ensures UpdateWhereId(UpdateWhereId(events, id, body), id, body) == UpdateWhereId(events, id, body)
  {
    var once := UpdateWhereId(events, id, body);
    var twice := UpdateWhereId(once, id, body);
    forall k | 0 <= k < |events|
      ensures twice[k] == once[k]
    {
      if events[k].id == id {
        assert once[k] == Overwritten(events[k], body);
      }
    }
  }

  /** `DELETE FROM calendar_events WHERE id = ?` */
  function DeleteWhereId(events: seq<EventRow>, id: int): (r: seq<EventRow>)
    ensures SubsequenceOf(r, events)
    ensures forall e :: e in r <==> e in events && e.id != id
  {
    Filter(events, (e: EventRow) => e.id != id)
  }

  /** `SELECT ... WHERE id = ?` then `newEvent[0]`, or null when no row
      matches. */
  function FindEvent(events: seq<EventRow>, id: int): (r: Option<EventRow>)
    ensures r.None? <==> forall e :: e in events ==> e.id != id
    ensures r.Some? ==> r.value in events && r.value.id == id
  {
    if |events| == 0 then None
    else if events[0].id == id then Some(events[0])
    else
      assert forall e :: e in events ==> e == events[0] || e in events[1..];
      FindEvent(events[1..], id)
  }

  /** `ORDER BY start_date ASC`: rows whose start is NULL come first, the
      rest by the instant their start denotes. */
  function StartKey(e: EventRow, instant: string -> int): Key {
    if e.startDate.None? then Key(0, 0) else Key(1, instant(e.startDate.value))
  }

  /** `GET`: without `userId`, a 400; otherwise exactly the user's events,
      by start ascending. */
  function GetEvents(events: seq<EventRow>, userId: Option<int>, instant: string -> int): (r: Reply<seq<EventRow>>)
    ensures r.BadRequest? <==> userId.None?
    ensures r.BadRequest? ==> r.error == UserIdRequired
    ensures r.Ok? ==> multiset(r.body) == multiset(Filter(events, (e: EventRow) => e.userId == userId.value))
    ensures r.Ok? ==> forall i, j :: 0 <= i < j < |r.body| ==>
              KeyLe(StartKey(r.body[i], instant), StartKey(r.body[j], instant))
  {
    if userId.None? then BadRequest(UserIdRequired)
    else
      var mine := Filter(events, (e: EventRow) => e.userId == userId.value);
      var sorted := SortBy(mine, (e: EventRow) => StartKey(e, instant));
      assert forall i, j :: 0 <= i < j < |sorted| ==> KeyLe(StartKey(sorted[i], instant), StartKey(sorted[j], instant));
      Ok(sorted)
  }

  /** A user's listing holds exactly that user's events. */
  lemma GetEventsExactly(events: seq<EventRow>, u: int, instant: string -> int, e: EventRow)
    ensures e in GetEvents(events, Some(u), instant).body <==> e in events && e.userId == u
  {
    var r := GetEvents(events, Some(u), instant).body;
    var mine := Filter(events, (e: EventRow) => e.userId == u);
    assert e in r <==> e in multiset(r);
    assert e in mine <==> e in multiset(mine);
  }

  /** Ids are positive, below `nextId`, and distinct. */
  predicate IdsBelow(events: seq<EventRow>, nextId: int) {
    forall k :: 0 <= k < |events| ==> 1 <= events[k].id < nextId
  }

  predicate IdsDistinct(events: seq<EventRow>) {
    forall i, j :: 0 <= i < j < |events| ==> events[i].id != events[j].id
  }

  /** Deleting the id a create just used gives back the table as it was. */
  lemma {:induction false} DeleteUndoesCreate(events: seq<EventRow>, row: EventRow)
    requires forall e :: e in events ==> e.id != row.id
    ensures DeleteWhereId(events + [row], row.id) == events
  {
    if |events| == 0 {
      assert events + [row] == [row];
      assert Filter([row][1..], (e: EventRow) => e.id != row.id) == [];
    } else {
      assert events[0] in events;
      assert (events + [row])[1..] == events[1..] + [row];
      DeleteUndoesCreate(events[1..], row);
      assert events == [events[0]] + events[1..];
    }
  }

  /** The table behind the routes, with MySQL's auto-increment counter. */
  class CalendarStore {
    var events: seq<EventRow>
    var nextId: int

    ghost predicate Valid()
      reads this
    {
      nextId >= 1 && IdsBelow(events, nextId) && IdsDistinct(events)
    }

    constructor ()
      ensures Valid() && events == [] && nextId == 1
    {
      events := [];
      nextId := 1;
    }

    /** `POST`. A falsy title, start or user id gives a 400 and inserts
        nothing. Otherwise one row with a fresh id is appended; the reply is
        the row found under the id the driver reports (`insertId`, or 0 when
        the result carries none), or null. */
    method Create(body: EventBody, now: string, reportsInsertId: bool) returns (resp: Reply<Option<EventRow>>)
      requires Valid()
      modifies this
      ensures Valid()
      ensures !(Truthy(body.title) && Truthy(body.start) && IdPresent(body.userId)) ==>
                resp == BadRequest(CreateFieldsRequired) && events == old(events) && nextId == old(nextId)
      ensures Truthy(body.title) && Truthy(body.start) && IdPresent(body.userId) ==>
                events == old(events) + [NewRow(old(nextId), body, now)] && nextId == old(nextId) + 1 &&
                resp == Ok(FindEvent(events, if reportsInsertId then old(nextId) else 0))
      ensures resp.Ok? && reportsInsertId ==> resp.body == Some(NewRow(old(nextId), body, now))
      ensures resp.Ok? && !reportsInsertId ==> resp.body.None?
    {
      if !(Truthy(body.title) && Truthy(body.start) && IdPresent(body.userId)) {
        return BadRequest(CreateFieldsRequired);
      }
      var row := NewRow(nextId, body, now);
      AppendFresh(events, row);
      events := events + [row];
      nextId := nextId + 1;
      var eventId := 0;
      if reportsInsertId {
        eventId := row.id;
      }
      var found := FindEvent(events, eventId);
      resp := Ok(found);
    }

    /** `PUT`. A falsy id gives a 400 and changes nothing. A body without a
        `title` or a `start` member makes the driver refuse the statement,
        and the `catch` answers 500 with nothing changed. Otherwise the rows
        with that id are overwritten from the body. */
    method Update(body: EventBody) returns (resp: Reply<bool>)
      requires Valid()
      modifies this
      ensures Valid()
      ensures !IdPresent(body.id) ==> resp == BadRequest(EventIdRequired) && events == old(events)
      ensures IdPresent(body.id) && !Binds(body) ==> resp == ServerError(UpdateFailed) && events == old(events)
      ensures IdPresent(body.id) && Binds(body) ==>
                resp == Ok(true) && events == UpdateWhereId(old(events), body.id.value, body)
      ensures nextId == old(nextId)
    {
      if !IdPresent(body.id) {
        return BadRequest(EventIdRequired);
      }
      if !Binds(body) {
        return ServerError(UpdateFailed);
      }
      events := UpdateWhereId(events, body.id.value, body);
      resp := Ok(true);
    }

    /** `DELETE`. A missing id gives a 400 and changes nothing; otherwise the
        row with that id is removed. */
    method Delete(id: Option<int>) returns (resp: Reply<bool>)
      requires Valid()
      modifies this
      ensures Valid()
      ensures id.None? ==> resp == BadRequest(EventIdRequired) && events == old(events)
      ensures id.Some? ==> resp == Ok(true) && events == DeleteWhereId(old(events), id.value)
      ensures id.Some? ==> FindEvent(events, id.value).None?
      ensures nextId == old(nextId)
    {
      if id.None? {
        return BadRequest(EventIdRequired);
      }
      DeleteKeepsValid(events, id.value, nextId);
      events := DeleteWhereId(events, id.value);
      resp := Ok(true);
    }
  }

  /** Appending a row under an id above every id in the table keeps the ids
      distinct, and looking that id up finds the new row. */
  lemma AppendFresh(events: seq<EventRow>, row: EventRow)
    requires row.id >= 1 && IdsBelow(events, row.id) && IdsDistinct(events)
    ensures IdsBelow(events + [row], row.id + 1) && IdsDistinct(events + [row])
    ensures FindEvent(events + [row], row.id) == Some(row)
  {
    var t := events + [row];
    forall k | 0 <= k < |t| ensures 1 <= t[k].id < row.id + 1 {
      if k < |events| {
        assert t[k] == events[k];
      }
    }
    forall i, j | 0 <= i < j < |t| ensures t[i].id != t[j].id {
      assert t[i] == events[i];
      if j < |events| {
        assert t[j] == events[j];
      }
    }
    FindAppended(events, row);
  }

  /** Looking up the id of an appended row that no earlier row carries finds
      that row. */
  lemma {:induction false} FindAppended(events: seq<EventRow>, row: EventRow)
    requires forall k :: 0 <= k < |events| ==> events[k].id != row.id
    ensures FindEvent(events + [row], row.id) == Some(row)
  {
    if |events| > 0 {
      assert (events + [row])[1..] == events[1..] + [row];
      FindAppended(events[1..], row);
    }
  }

  /** Removing rows keeps the ids below the counter and distinct. */
  lemma DeleteKeepsValid(events: seq<EventRow>, id: int, nextId: int)
    requires IdsBelow(events, nextId) && IdsDistinct(events)
    ensures IdsBelow(DeleteWhereId(events, id), nextId) && IdsDistinct(DeleteWhereId(events, id))
  {
    SubsequenceDistinct(DeleteWhereId(events, id), events);
    var r := DeleteWhereId(events, id);
    forall k | 0 <= k < |r| ensures 1 <= r[k].id < nextId {
      assert r[k] in events;
    }
  }

  /** A subsequence of rows with distinct ids has distinct ids. */
  lemma {:induction false} SubsequenceDistinct(r: seq<EventRow>, s: seq<EventRow>)
    requires SubsequenceOf(r, s) && IdsDistinct(s)
    ensures IdsDistinct(r) && forall e :: e in r ==> e in s
  {
    if |r| > 0 {
      assert IdsDistinct(s[1..]);
      if r[0] == s[0] {
        SubsequenceDistinct(r[1..], s[1..]);
        forall i, j | 0 <= i < j < |r| ensures r[i].id != r[j].id {
          if i == 0 {
            assert r[j] in s[1..];
            var m :| 0 <= m < |s[1..]| && s[1..][m] == r[j];
            assert s[m + 1] == r[j];
          } else {
            assert r[i] == r[1..][i - 1] && r[j] == r[1..][j - 1];
          }
        }
        assert forall e :: e in r ==> e == r[0] || e in r[1..];
      } else {
        SubsequenceDistinct(r, s[1..]);
      }
    }
  }
}
