/** app/routes/user.py: a user's bookings, booking a window as one row per
    hour, moving a booking and deleting one, over a database `Session`. */
module UserRoutes {
  import opened Outcomes
  import opened Seqs
  import opened TimeOfDay
  import opened Validation
  import opened Db

  const ClassroomNotFound := "Classroom not found"
  const BookingNotFound := "Booking not found"
  const UserNotFound := "User not found"
  const TimeslotTaken := "Timeslot is already booked"

  /** A one-hour piece `[start, end)` of a booked window. */
  datatype Slot = Slot(start: Time, end: Time)

  /** A window `time_validation` accepts. */
  predicate WholeHourWindow(s: Time, e: Time)
  {
    Valid(s) && Valid(e) && Before(s, e) && OnTheHour(s) && OnTheHour(e)
  }

  /** The slots of the response: for `i` in
      `range(int((end - start).total_seconds() // 3600))`, the slot from
      `start + i` hours to `start + i + 1` hours. */
  function HourSlots(s: Time, e: Time): (r: seq<Slot>)
    requires WholeHourWindow(s, e)
    ensures |r| == e.hour - s.hour
    ensures forall i :: 0 <= i < |r| ==> r[i] == Slot(Time(s.hour + i, 0, 0), Time(s.hour + i + 1, 0, 0))
  {
    var n := (Seconds(e) - Seconds(s)) / 3600;
    assert Seconds(e) - Seconds(s) == (e.hour - s.hour) * 3600;
    var r := seq(n, i requires 0 <= i < n => Slot(ShiftHours(s, i), ShiftHours(s, i + 1)));
    assert forall i :: 0 <= i < n ==> r[i] == Slot(ShiftHours(s, i), ShiftHours(s, i + 1));
    r
  }

  /** The slots run back to back from the window's start to its end, and every
      moment of the window lies in exactly one of them. */
  lemma HourSlotsTile(s: Time, e: Time, t: Time)
    requires WholeHourWindow(s, e)
    ensures var r := HourSlots(s, e);
      && r[0].start == s && r[|r| - 1].end == e
      && (forall i :: 0 <= i < |r| - 1 ==> r[i].end == r[i + 1].start)
      && (Valid(t) && NotAfter(s, t) && Before(t, e) ==>
            exists i :: 0 <= i < |r| && NotAfter(r[i].start, t) && Before(t, r[i].end))
      && (forall i, j :: (0 <= i < |r| && 0 <= j < |r| && NotAfter(r[i].start, t) && Before(t, r[i].end)
            && NotAfter(r[j].start, t) && Before(t, r[j].end)) ==> i == j)
  {
    var r := HourSlots(s, e);
    if Valid(t) && NotAfter(s, t) && Before(t, e) {
      var i := t.hour - s.hour;
      assert 0 <= i < |r|;
      assert NotAfter(r[i].start, t) && Before(t, r[i].end);
    }
  }

  /** The rows the slot query of `book_timeslot` returns. */
  function SlotQuery(bs: seq<Record>, classroomId: int, sl: Slot): seq<Record>
  {
    Where(bs, (b: Record) => OverlapsWindow(b, classroomId, sl.start, sl.end))
  }

  /** The query finds rows exactly when some booking of the classroom shares
      part of the slot; a booking that only touches it is not found. */
  predicate SlotTaken(bs: seq<Record>, classroomId: int, sl: Slot)
  {
    SlotQuery(bs, classroomId, sl) != []
  }

  lemma SlotTakenIff(bs: seq<Record>, classroomId: int, sl: Slot)
    ensures SlotTaken(bs, classroomId, sl) <==>
      exists i :: 0 <= i < |bs| && OverlapsWindow(bs[i], classroomId, sl.start, sl.end)
  {
    var q := SlotQuery(bs, classroomId, sl);
    if q != [] {
      assert q[0] in bs;
      var i :| 0 <= i < |bs| && bs[i] == q[0];
    }
  }

  /** The first slot whose query finds a row. */
  function FirstTakenSlot(bs: seq<Record>, classroomId: int, slots: seq<Slot>): (r: Option<nat>)
    ensures r.Some? ==> r.value < |slots| && SlotTaken(bs, classroomId, slots[r.value])
    ensures r.Some? ==> forall k :: 0 <= k < r.value ==> !SlotTaken(bs, classroomId, slots[k])
    ensures r.None? <==> forall k :: 0 <= k < |slots| ==> !SlotTaken(bs, classroomId, slots[k])
    decreases |slots|
  {
    if slots == [] then None
    else if SlotTaken(bs, classroomId, slots[0]) then Some(0)
    else match FirstTakenSlot(bs, classroomId, slots[1..])
      case None => None
      case Some(i) => Some(i + 1)
  }

  /** The detail of the 400 for a taken slot. */
  function AlreadyBooked(sl: Slot): string
    requires Valid(sl.start) && Valid(sl.end)
  {
    "Timeslot from " + FormatTime(sl.start) + " to " + FormatTime(sl.end) + " is already booked"
  }

  /** The rows `book_timeslot` adds for `slots`, with the ids SQLite gives them. */
  function NewRecords(slots: seq<Slot>, userId: int, classroomId: int, firstId: int): (r: seq<Record>)
    ensures |r| == |slots|
  {
    seq(|slots|, i requires 0 <= i < |slots| => Record(firstId + i, userId, classroomId, slots[i].start, slots[i].end))
  }

  /** The rows for one more slot are the earlier rows plus one, with the next id. */
  lemma NewRecordsSnoc(slots: seq<Slot>, k: int, userId: int, classroomId: int, firstId: int,
                       pending: seq<Record>, row: Record)
    requires 0 <= k < |slots| && pending == NewRecords(slots[..k], userId, classroomId, firstId)
    requires row == Record(firstId + k, userId, classroomId, slots[k].start, slots[k].end)
    ensures pending + [row] == NewRecords(slots[..k + 1], userId, classroomId, firstId)
  {
    var a := NewRecords(slots[..k + 1], userId, classroomId, firstId);
    var b := pending + [row];
    assert |a| == |b|;
    forall i | 0 <= i < |a| ensures a[i] == b[i] {
      assert slots[..k + 1][i] == slots[i];
      if i < k {
        assert slots[..k][i] == slots[i];
      }
    }
  }

  /** A taken slot with no taken slot before it is the first taken slot. */
  lemma FirstTakenAt(bs: seq<Record>, classroomId: int, slots: seq<Slot>, k: int)
    requires 0 <= k < |slots| && SlotTaken(bs, classroomId, slots[k])
    requires forall j :: 0 <= j < k ==> !SlotTaken(bs, classroomId, slots[j])
    ensures FirstTakenSlot(bs, classroomId, slots) == Some(k)
  {
  }

  /** A slot is never found by the query because of the rows added for the
      earlier slots of the same request (the session flushes them before
      querying): those rows all end at or before the slot starts. */
  lemma EarlierSlotsNeverTaken(bs: seq<Record>, s: Time, e: Time, userId: int, classroomId: int, firstId: int, k: int)
    requires WholeHourWindow(s, e) && 0 <= k < |HourSlots(s, e)|
    ensures var slots := HourSlots(s, e);
      SlotTaken(bs + NewRecords(slots[..k], userId, classroomId, firstId), classroomId, slots[k])
        == SlotTaken(bs, classroomId, slots[k])
  {
    var slots := HourSlots(s, e);
    var added := NewRecords(slots[..k], userId, classroomId, firstId);
    var p := (b: Record) => OverlapsWindow(b, classroomId, slots[k].start, slots[k].end);
    WhereConcat(bs, added, p);
    forall i | 0 <= i < |added| ensures !p(added[i]) {
      assert added[i].end == slots[i].end;
    }
    WhereTrivial(added, p);
  }

  /** The rows added for one request never clash with each other. */
  lemma NewRecordsNoDoubleBooking(s: Time, e: Time, userId: int, classroomId: int, firstId: int)
    requires WholeHourWindow(s, e)
    ensures NoDoubleBooking(NewRecords(HourSlots(s, e), userId, classroomId, firstId))
  {
  }

  /** `get_user_bookings(user_id)`: 404 for an unknown user, otherwise exactly
      that user's rows, in table order. */
  function GetUserBookings(db: Session, userId: int): (r: Response<seq<Record>>)
    reads db
    ensures r.Err? <==> userId !in db.users
    ensures r.Err? ==> r == Err(404, UserNotFound)
    ensures r.Ok? ==> forall i :: 0 <= i < |r.value| ==> r.value[i] in db.bookings && r.value[i].userId == userId
    ensures r.Ok? ==> forall i :: 0 <= i < |db.bookings| && db.bookings[i].userId == userId ==> db.bookings[i] in r.value
  {
    if userId !in db.users then Err(404, UserNotFound)
    else Ok(Where(db.bookings, (b: Record) => b.userId == userId))
  }

  /** `book_timeslot`: 404 for an unknown classroom, then the errors of
      `time_validation`, then the hourly loop of `AddHourRows`. */
  method BookTimeslot(db: Session, classroomId: int, userId: int, startTime: string, endTime: string)
    returns (r: Response<seq<Slot>>)
    requires db.Valid()
    modifies db`bookings
    ensures db.Valid()
    ensures unchanged(db`classrooms, db`users)
    ensures NoDoubleBooking(old(db.bookings)) ==> NoDoubleBooking(db.bookings)
    ensures classroomId !in old(db.classrooms) ==>
      r == Err(404, ClassroomNotFound) && db.bookings == old(db.bookings)
    ensures classroomId in old(db.classrooms) && TimeValidation(startTime, endTime).Err? ==>
      r == Err(400, TimeValidation(startTime, endTime).detail) && db.bookings == old(db.bookings)
    ensures classroomId in old(db.classrooms) && TimeValidation(startTime, endTime).Ok? ==>
      var w := TimeValidation(startTime, endTime).value;
      HourRowsOutcome(old(db.bookings), db.bookings, r, classroomId, userId, w.0, w.1)
  {
    if classroomId !in db.classrooms {
      return Err(404, ClassroomNotFound);
    }
    var v := TimeValidation(startTime, endTime);
    if v.Err? {
      return Err(v.status, v.detail);
    }
    r := AddHourRows(db, classroomId, userId, v.value.0, v.value.1);
  }

  /** What the hourly loop leaves behind, from the rows `before` it to the rows
      `after` it: the first taken slot gives a 400 and changes nothing;
      otherwise every slot is added as a row, after the existing rows. */
  ghost predicate HourRowsOutcome(before: seq<Record>, after: seq<Record>, r: Response<seq<Slot>>,
                                  classroomId: int, userId: int, s: Time, e: Time)
    requires WholeHourWindow(s, e)
  {
    var slots := HourSlots(s, e);
    match FirstTakenSlot(before, classroomId, slots)
    case Some(k) => r == Err(400, AlreadyBooked(slots[k])) && after == before
    case None => (r == Ok(slots) && after == before + NewRecords(slots, userId, classroomId, MaxId(before) + 1))
  }

  /** Committing the rows of a request whose slots are all free keeps the
      primary key unique, the times valid and the timetable free of double
      bookings. */
  lemma CommitKeepsInvariants(bs: seq<Record>, classroomId: int, userId: int, s: Time, e: Time, added: seq<Record>)
    requires UniqueIds(bs) && ValidTimes(bs) && WholeHourWindow(s, e)
    requires FirstTakenSlot(bs, classroomId, HourSlots(s, e)).None?
    requires added == NewRecords(HourSlots(s, e), userId, classroomId, MaxId(bs) + 1)
    ensures UniqueIds(bs + added) && ValidTimes(bs + added)
    ensures NoDoubleBooking(bs) ==> NoDoubleBooking(bs + added)
  {
    var slots := HourSlots(s, e);
    var all := bs + added;
    forall i, j | 0 <= i < j < |all| ensures all[i].id != all[j].id {
      if j >= |bs| {
        assert all[j] == added[j - |bs|];
        if i >= |bs| {
          assert all[i] == added[i - |bs|];
        }
      }
    }
    forall i | 0 <= i < |all| ensures Valid(all[i].start) && Valid(all[i].end) {
      if i >= |bs| {
        assert all[i] == added[i - |bs|];
      }
    }
    forall i, j | 0 <= i < |bs| && 0 <= j < |added|
      ensures !Clash(bs[i], added[j]) && !Clash(added[j], bs[i])
    {
      SlotTakenIff(bs, classroomId, slots[j]);
    }
    NewRecordsNoDoubleBooking(s, e, userId, classroomId, MaxId(bs) + 1);
    if NoDoubleBooking(bs) {
      AppendKeepsNoDoubleBooking(bs, added);
    }
  }

  /** The `while current_time < end_datetime` loop of `book_timeslot`, over the
      committed rows `bs`: the rows it adds to the session are returned as
      `pending`, which the overlap query also sees. The first taken slot ends
      the loop with a 400; otherwise every slot gets a row. */
  method CollectHourRows(bs: seq<Record>, classroomId: int, userId: int, s: Time, e: Time)
    returns (r: Response<seq<Slot>>, pending: seq<Record>)
    requires WholeHourWindow(s, e)
    ensures var slots := HourSlots(s, e);
      match FirstTakenSlot(bs, classroomId, slots)
      case Some(k) => r == Err(400, AlreadyBooked(slots[k]))
      case None => (r == Ok(slots) && pending == NewRecords(slots, userId, classroomId, MaxId(bs) + 1))
  {
    ghost var slots := HourSlots(s, e);
    var firstId := MaxId(bs) + 1;
    pending := [];
    var current := s;
    ghost var k := 0;
    while Before(current, e)
      invariant 0 <= k <= |slots|
      invariant current == Time(s.hour + k, 0, 0)
      invariant pending == NewRecords(slots[..k], userId, classroomId, firstId)
      invariant forall j :: 0 <= j < k ==> !SlotTaken(bs, classroomId, slots[j])
      decreases |slots| - k
    {
      var next := ShiftHours(current, 1);
      assert next == Time(s.hour + k + 1, 0, 0);
      assert Slot(current, next) == slots[k];
      EarlierSlotsNeverTaken(bs, s, e, userId, classroomId, firstId, k);
      if SlotTaken(bs + pending, classroomId, Slot(current, next)) {
        r := Err(400, AlreadyBooked(Slot(current, next)));
        FirstTakenAt(bs, classroomId, slots, k);
        return;
      }
      var row := Record(firstId + |pending|, userId, classroomId, current, next);
      NewRecordsSnoc(slots, k, userId, classroomId, firstId, pending, row);
      pending := pending + [row];
      current := next;
      k := k + 1;
    }
    assert slots[..k] == slots;
    r := Ok(HourSlots(s, e));
  }

  /** The hourly loop of `book_timeslot` and the commit after it, for a
      validated window. */
  method AddHourRows(db: Session, classroomId: int, userId: int, s: Time, e: Time)
    returns (r: Response<seq<Slot>>)
    requires db.Valid() && WholeHourWindow(s, e)
    modifies db`bookings
    ensures db.Valid()
    ensures unchanged(db`classrooms, db`users)
    ensures NoDoubleBooking(old(db.bookings)) ==> NoDoubleBooking(db.bookings)
    ensures HourRowsOutcome(old(db.bookings), db.bookings, r, classroomId, userId, s, e)
  {
    var pending;
    r, pending := CollectHourRows(db.bookings, classroomId, userId, s, e);
    if r.Ok? {
      assert FirstTakenSlot(db.bookings, classroomId, HourSlots(s, e)).None?;
      CommitKeepsInvariants(db.bookings, classroomId, userId, s, e, pending);
      db.bookings := db.bookings + pending;
    }
  }

  /** The rows the overlap query of `edit_booking` returns: bookings of the
      classroom that share part of `[s, e)`, other than the edited one. */
  function EditQuery(bs: seq<Record>, classroomId: int, s: Time, e: Time, bookingId: int): seq<Record>
  {
    Where(bs, (b: Record) => OverlapsWindow(b, classroomId, s, e) && b.id != bookingId)
  }

  /** What `edit_booking` answers for the rows `bs`: 404 for an unknown
      booking, then the errors of `time_validation`, then 409 when another
      booking of the classroom shares time with the new window; otherwise the
      booking with only its start and end changed. */
  predicate EditOutcome(bs: seq<Record>, bookingId: int, startTime: string, endTime: string, r: Response<Record>)
  {
    match Find(bs, bookingId)
    case None => r == Err(404, BookingNotFound)
    case Some(i) =>
      var v := TimeValidation(startTime, endTime);
      if v.Err? then r == Err(400, v.detail)
      else if EditQuery(bs, bs[i].classroomId, v.value.0, v.value.1, bookingId) != [] then
        r == Err(409, TimeslotTaken)
      else r == Ok(bs[i].(start := v.value.0, end := v.value.1))
  }

  /** The checks of `edit_booking` on the rows `bs`, giving its answer and,
      for an accepted edit, the position `i` of the row to change. */
  method CheckEdit(bs: seq<Record>, bookingId: int, startTime: string, endTime: string)
    returns (r: Response<Record>, i: nat)
    requires UniqueIds(bs) && ValidTimes(bs)
    ensures EditOutcome(bs, bookingId, startTime, endTime, r)
    ensures r.Ok? ==> Find(bs, bookingId) == Some(i) && i < |bs|
    ensures r.Ok? ==> r.value.id == bs[i].id && r.value.classroomId == bs[i].classroomId
    ensures r.Ok? ==> Valid(r.value.start) && Valid(r.value.end)
    ensures r.Ok? ==> EditQuery(bs, r.value.classroomId, r.value.start, r.value.end, r.value.id) == []
  {
    var found := Find(bs, bookingId);
    if found.None? {
      return Err(404, BookingNotFound), 0;
    }
    i := found.value;
    var booking := bs[i];
    var v := TimeValidation(startTime, endTime);
    if v.Err? {
      return Err(v.status, v.detail), i;
    }
    var s, e := v.value.0, v.value.1;
    var overlapping := EditQuery(bs, booking.classroomId, s, e, bookingId);
    if overlapping != [] {
      return Err(409, TimeslotTaken), i;
    }
    r := Ok(booking.(start := s, end := e));
  }

  /** `edit_booking`: the checks of `CheckEdit`, then the update of the one
      row, which keeps the table's invariants. There is no ownership check. */
  method EditBooking(db: Session, bookingId: int, startTime: string, endTime: string)
    returns (r: Response<Record>)
    requires db.Valid()
    modifies db`bookings
    ensures db.Valid()
    ensures unchanged(db`classrooms, db`users)
    ensures NoDoubleBooking(old(db.bookings)) ==> NoDoubleBooking(db.bookings)
    ensures EditOutcome(old(db.bookings), bookingId, startTime, endTime, r)
    ensures r.Err? ==> db.bookings == old(db.bookings)
    ensures r.Ok? ==> db.bookings == old(db.bookings)[Find(old(db.bookings), bookingId).value := r.value]
  {
    var i;
    r, i := CheckEdit(db.bookings, bookingId, startTime, endTime);
    if r.Ok? {
      EditKeepsInvariants(db.bookings, i, r.value);
      db.bookings := db.bookings[i := r.value];
    }
  }

  /** Moving booking `i` to a window the overlap query of `edit_booking` found
      free keeps the primary key unique, the times valid and the timetable free
      of double bookings. */
  lemma EditKeepsInvariants(bs: seq<Record>, i: int, edited: Record)
    requires UniqueIds(bs) && ValidTimes(bs) && 0 <= i < |bs|
    requires edited.id == bs[i].id && edited.classroomId == bs[i].classroomId
    requires Valid(edited.start) && Valid(edited.end)
    requires EditQuery(bs, edited.classroomId, edited.start, edited.end, edited.id) == []
    ensures UniqueIds(bs[i := edited]) && ValidTimes(bs[i := edited])
    ensures NoDoubleBooking(bs) ==> NoDoubleBooking(bs[i := edited])
  {
    var p := (x: Record) => OverlapsWindow(x, edited.classroomId, edited.start, edited.end) && x.id != edited.id;
    forall j | 0 <= j < |bs| && j != i
      ensures !Clash(edited, bs[j]) && !Clash(bs[j], edited)
    {
      assert bs[j].id != edited.id;
      assert !p(bs[j]);
    }
  }

  /** `delete_booking`: 404 unless the booking exists and belongs to the
      user; otherwise its row is removed and no row with that id is left. */
  method DeleteBooking(db: Session, userId: int, bookingId: int) returns (r: Response<int>)
    requires db.Valid()
    modifies db`bookings
    ensures db.Valid()
    ensures unchanged(db`classrooms, db`users)
    ensures NoDoubleBooking(old(db.bookings)) ==> NoDoubleBooking(db.bookings)
    ensures Find(old(db.bookings), bookingId).None? ==>
      r == Err(404, BookingNotFound) && db.bookings == old(db.bookings)
    ensures Find(old(db.bookings), bookingId).Some? ==>
      var i := Find(old(db.bookings), bookingId).value;
      if old(db.bookings)[i].userId != userId then
        r == Err(404, BookingNotFound) && db.bookings == old(db.bookings)
      else
        r == Ok(bookingId) && db.bookings == old(db.bookings)[..i] + old(db.bookings)[i + 1..]
    ensures r.Ok? ==> Find(db.bookings, bookingId).None?
  {
    var found := Find(db.bookings, bookingId);
    if found.None? || db.bookings[found.value].userId != userId {
      return Err(404, BookingNotFound);
    }
    var i := found.value;
    ghost var before := db.bookings;
    db.bookings := db.bookings[..i] + db.bookings[i + 1..];
    r := Ok(bookingId);
    assert forall j :: 0 <= j < |db.bookings| ==> db.bookings[j] == before[if j < i then j else j + 1];
  }
}
