/** `get_one_classroom` of app/routes/classroom.py: the hourly availability
    grid of one classroom between 08:00 and 18:00. */
module ClassroomRoutes {
  import opened Outcomes
  import opened Seqs
  import opened TimeOfDay
  import opened Db

  const ClassroomNotFound := "Classroom not found"

  /** The first slot starts here and the last one ends here. */
  const OpeningTime := Time(8, 0, 0)
  const ClosingTime := Time(18, 0, 0)

  /** One entry of the grid: a slot and whether it is free. */
  datatype Timeslot = Timeslot(start: Time, end: Time, available: bool)

  /** `booking.start_time <= t < booking.end_time`: the moment `t` lies inside
      the booking. */
  predicate Covers(b: Record, t: Time)
  {
    NotAfter(b.start, t) && Before(t, b.end)
  }

  /** `any(... for booking in bookings)`: some booking covers `t`. */
  predicate Occupied(bs: seq<Record>, t: Time)
  {
    exists i :: 0 <= i < |bs| && Covers(bs[i], t)
  }

  /** `select(Booking).where(Booking.classroom_id == classroomId)`. */
  function RoomBookings(bs: seq<Record>, classroomId: int): seq<Record>
  {
    Where(bs, (b: Record) => b.classroomId == classroomId)
  }

  /** A 404 for an unknown classroom; otherwise ten contiguous one-hour slots
      from 08:00 to 18:00, each available exactly when no booking of this
      classroom covers its start. */
  method GetOneClassroom(db: Session, classroomId: int) returns (r: Response<seq<Timeslot>>)
    ensures r.Err? <==> classroomId !in db.classrooms
    ensures r.Err? ==> r == Err(404, ClassroomNotFound)
    ensures r.Ok? ==> |r.value| == 10
    ensures r.Ok? ==> forall i :: 0 <= i < |r.value| ==>
      r.value[i].start == Time(8 + i, 0, 0) && r.value[i].end == Time(9 + i, 0, 0)
    ensures r.Ok? ==> forall i :: 0 <= i < |r.value| ==>
      (r.value[i].available <==>
        forall j :: 0 <= j < |db.bookings| && db.bookings[j].classroomId == classroomId ==>
          !Covers(db.bookings[j], r.value[i].start))
  {
    if classroomId !in db.classrooms {
      return Err(404, ClassroomNotFound);
    }
    var timeslots: seq<Timeslot> := [];
    var current := OpeningTime;
    var bookings := RoomBookings(db.bookings, classroomId);
    while Before(current, ClosingTime)
      invariant |timeslots| <= 10
      invariant current == Time(8 + |timeslots|, 0, 0)
      invariant forall i :: 0 <= i < |timeslots| ==>
        timeslots[i].start == Time(8 + i, 0, 0) && timeslots[i].end == Time(9 + i, 0, 0)
      invariant forall i :: 0 <= i < |timeslots| ==>
        timeslots[i].available == !Occupied(bookings, timeslots[i].start)
      decreases 10 - |timeslots|
    {
      var next := ShiftHours(current, 1);
      var isAvailable := !Occupied(bookings, current);
      timeslots := timeslots + [Timeslot(current, next, isAvailable)];
      current := next;
    }
    forall i | 0 <= i < |timeslots|
      ensures timeslots[i].available <==>
        forall j :: 0 <= j < |db.bookings| && db.bookings[j].classroomId == classroomId ==>
          !Covers(db.bookings[j], timeslots[i].start)
    {
      RoomOccupiedIff(db.bookings, classroomId, timeslots[i].start);
    }
    r := Ok(timeslots);
  }

  /** A moment is occupied in the classroom's bookings exactly when some
      booking of that classroom in the whole table covers it. */
  lemma RoomOccupiedIff(bs: seq<Record>, classroomId: int, t: Time)
    ensures Occupied(RoomBookings(bs, classroomId), t) <==>
      exists j :: 0 <= j < |bs| && bs[j].classroomId == classroomId && Covers(bs[j], t)
  {
    var room := RoomBookings(bs, classroomId);
    if Occupied(room, t) {
      var i :| 0 <= i < |room| && Covers(room[i], t);
      var j :| 0 <= j < |bs| && bs[j] == room[i];
      assert bs[j].classroomId == classroomId && Covers(bs[j], t);
    }
    if j :| 0 <= j < |bs| && bs[j].classroomId == classroomId && Covers(bs[j], t) {
      var i :| 0 <= i < |room| && room[i] == bs[j];
      assert Covers(room[i], t);
    }
  }

  /** For a booking whose start and end are on the hour, the point test on a
      slot's start agrees with the overlap test the booking routes use on the
      whole slot `[h:00, h+1:00)`. */
  lemma CoversMatchesOverlapOnWholeHours(b: Record, h: int)
    requires 0 <= h < 23 && Valid(b.start) && Valid(b.end)
    requires OnTheHour(b.start) && OnTheHour(b.end)
    ensures Covers(b, Time(h, 0, 0)) <==> OverlapsWindow(b, b.classroomId, Time(h, 0, 0), Time(h + 1, 0, 0))
  {
    assert Seconds(b.start) == b.start.hour * 3600;
    assert Seconds(b.end) == b.end.hour * 3600;
    if Before(b.start, Time(h + 1, 0, 0)) {
      assert b.start.hour * 3600 < (h + 1) * 3600;
      assert b.start.hour <= h;
    }
  }

  /** A booking that ends exactly when a slot starts leaves the slot free,
      and one that starts exactly then takes it. */
  lemma TouchingBookings(b: Record, t: Time)
    ensures b.end == t ==> !Covers(b, t)
    ensures b.start == t && Before(t, b.end) ==> Covers(b, t)
  {
  }

  /** The point test and the overlap test differ on bookings that are not on
      the hour: `[08:30, 09:30)` shares time with the slot `[08:00, 09:00)`
      but does not cover 08:00, so that slot is shown as available. */
  lemma HalfHourBookingLeavesSlotAvailable()
    ensures var b := Record(1, 1, 1, Time(8, 30, 0), Time(9, 30, 0));
      OverlapsWindow(b, 1, Time(8, 0, 0), Time(9, 0, 0)) && !Occupied([b], Time(8, 0, 0))
  {
  }
}
