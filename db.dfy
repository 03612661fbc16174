/** The relational store behind app/routes: the `Booking` table of
    app/models.py as a sequence of rows, plus the ids of the classrooms and
    users that exist. */
module Db {
  import opened Outcomes
  import opened TimeOfDay

  /** A row of the `Booking` table. */
  datatype Record = Record(id: int, userId: int, classroomId: int, start: Time, end: Time)

  /** `id` is the primary key. */
  predicate UniqueIds(bs: seq<Record>)
  {
    forall i, j :: 0 <= i < j < |bs| ==> bs[i].id != bs[j].id
  }

  predicate ValidTimes(bs: seq<Record>)
  {
    forall i :: 0 <= i < |bs| ==> Valid(bs[i].start) && Valid(bs[i].end)
  }

  /** Two bookings of one classroom share part of their half-open windows. */
  predicate Clash(a: Record, b: Record)
  {
    a.classroomId == b.classroomId && Before(a.start, b.end) && Before(b.start, a.end)
  }

  /** No classroom is booked twice for the same moment. */
  predicate NoDoubleBooking(bs: seq<Record>)
  {
    forall i, j :: 0 <= i < |bs| && 0 <= j < |bs| && i != j ==> !Clash(bs[i], bs[j])
  }

  /** The row condition `(Booking.classroom_id == classroomId) &
      (Booking.start_time < hi) & (Booking.end_time > lo)`. */
  predicate OverlapsWindow(b: Record, classroomId: int, lo: Time, hi: Time)
  {
    b.classroomId == classroomId && Before(b.start, hi) && Before(lo, b.end)
  }

  /** `session.get(Booking, id)`: the position of the row with that key. */
  function Find(bs: seq<Record>, id: int): (r: Option<nat>)
    ensures r.Some? ==> r.value < |bs| && bs[r.value].id == id
    ensures r.None? <==> forall k :: 0 <= k < |bs| ==> bs[k].id != id
    decreases |bs|
  {
    if bs == [] then None
    else if bs[0].id == id then Some(0)
    else match Find(bs[1..], id)
      case None => None
      case Some(i) => Some(i + 1)
  }

  /** The largest id in use, or 0 when the table is empty or every id is
      negative; SQLite gives a new row the next integer. */
  function MaxId(bs: seq<Record>): (m: int)
    ensures m >= 0
    ensures forall i :: 0 <= i < |bs| ==> bs[i].id <= m
    ensures bs == [] ==> m == 0
    decreases |bs|
  {
    if bs == [] then 0
    else
      var rest := MaxId(bs[1..]);
      if bs[0].id > rest then bs[0].id else rest
  }

  /** `MaxId` is 0 or an id that is actually in the table. */
  lemma {:induction false} MaxIdAttained(bs: seq<Record>)
    ensures MaxId(bs) == 0 || exists i :: 0 <= i < |bs| && bs[i].id == MaxId(bs)
    decreases |bs|
  {
    if bs != [] && MaxId(bs) != bs[0].id {
      MaxIdAttained(bs[1..]);
      if MaxId(bs) != 0 {
        var j :| 0 <= j < |bs[1..]| && bs[1..][j].id == MaxId(bs[1..]);
        assert bs[j + 1].id == MaxId(bs);
      }
    }
  }

  /** A database session: which classrooms and users exist, and the rows of
      the `Booking` table in insertion order. */
  class Session {
    var classrooms: set<int>
    var users: set<int>
    var bookings: seq<Record>

    ghost predicate Valid()
      reads this
    {
      UniqueIds(bookings) && ValidTimes(bookings)
    }

    constructor (classrooms: set<int>, users: set<int>, bookings: seq<Record>)
      requires UniqueIds(bookings) && ValidTimes(bookings)
      ensures Valid()
      ensures this.classrooms == classrooms && this.users == users && this.bookings == bookings
    {
      this.classrooms, this.users, this.bookings := classrooms, users, bookings;
    }
  }

  /** Adding rows that clash neither with each other nor with a stored row
      keeps a timetable free of double bookings. */
  lemma {:induction false} AppendKeepsNoDoubleBooking(bs: seq<Record>, added: seq<Record>)
    requires NoDoubleBooking(bs) && NoDoubleBooking(added)
    requires forall i, j :: 0 <= i < |bs| && 0 <= j < |added| ==> !Clash(bs[i], added[j]) && !Clash(added[j], bs[i])
    ensures NoDoubleBooking(bs + added)
  {
    var all := bs + added;
    forall i, j | 0 <= i < |all| && 0 <= j < |all| && i != j
      ensures !Clash(all[i], all[j])
    {
      if i < |bs| && j < |bs| {
        assert all[i] == bs[i] && all[j] == bs[j];
      } else if i < |bs| {
        assert all[i] == bs[i] && all[j] == added[j - |bs|];
      } else if j < |bs| {
        assert all[i] == added[i - |bs|] && all[j] == bs[j];
      } else {
        assert all[i] == added[i - |bs|] && all[j] == added[j - |bs|];
      }
    }
  }
}
