/** The availability test of Classroom_API.py and gruppkod2.py. Both
    compare the booking times as the raw request strings, with Python's string
    order, and neither can skip a booking. */
module RawOverlap {
  import opened Bookings
  import StringOrder

  /** A booking whose times are unparsed strings. */
  type RawBooking = Booking<string>

  const NotAvailable := "Classroom is not available for the given time slot."
  const BookingNotFound := "Booking not found."

  /** Booking `b` stands in the way of the request: same classroom and
      `not (end <= b.start or start >= b.end)` on strings. */
  predicate Blocks(b: RawBooking, classroomId: int, start: string, end: string)
  {
    b.classroomId == classroomId && !(StringOrder.LessEq(end, b.start) || StringOrder.LessEq(b.end, start))
  }

  /** What `is_classroom_available` answers on the list `bs`. */
  predicate Available(bs: seq<RawBooking>, classroomId: int, start: string, end: string)
  {
    forall i :: 0 <= i < |bs| ==> !Blocks(bs[i], classroomId, start, end)
  }

  /** Since the string order is total, the test is the half-open intersection
      `start < b.end and b.start < end`; touching windows never clash, and an
      empty list is always available. */
  lemma BlocksIff(b: RawBooking, classroomId: int, start: string, end: string)
    ensures Blocks(b, classroomId, start, end) <==>
      b.classroomId == classroomId && StringOrder.Less(start, b.end) && StringOrder.Less(b.start, end)
    ensures end == b.start || start == b.end ==> !Blocks(b, classroomId, start, end)
    ensures Available([], classroomId, start, end)
  {
    StringOrder.NotLessEq(end, b.start);
    StringOrder.NotLessEq(b.end, start);
  }

  /** Nothing is skipped: a request that shares time with any stored booking of
      its classroom, the one being changed included, is refused. In particular
      re-submitting a booking's own non-empty window is refused. */
  lemma OverlapWithAnyBookingRefused(bs: seq<RawBooking>, i: int, classroomId: int, start: string, end: string)
    requires 0 <= i < |bs| && bs[i].classroomId == classroomId
    requires StringOrder.Less(start, bs[i].end) && StringOrder.Less(bs[i].start, end)
    ensures !Available(bs, classroomId, start, end)
  {
    BlocksIff(bs[i], classroomId, start, end);
  }

  lemma OwnWindowRefused(bs: seq<RawBooking>, i: int)
    requires 0 <= i < |bs| && StringOrder.Less(bs[i].start, bs[i].end)
    ensures !Available(bs, bs[i].classroomId, bs[i].start, bs[i].end)
  {
    OverlapWithAnyBookingRefused(bs, i, bs[i].classroomId, bs[i].start, bs[i].end);
  }
  /** The order is that of the strings, not of the times they spell:
      `strptime` accepts "9:00" for 09:00, and on any day a request for
      10:00-10:30 is let through beside a stored booking of the same classroom
      from 9:00 to 11:00. */
  lemma UnpaddedHourDoubleBooking(day: string)
    ensures var b := Booking(1, 1, "", day + "9:00", day + "11:00");
      Available([b], 1, day + "10:00", day + "10:30")
  {
    var b := Booking(1, 1, "", day + "9:00", day + "11:00");
    StringOrder.CommonPrefixLess(day, "10:30", "9:00");
    assert !Blocks(b, 1, day + "10:00", day + "10:30");
  }
}
