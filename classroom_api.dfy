/** Classroom_API.py: an in-memory list of bookings with raw-string times; the
    update handler neither skips the booking it changes nor keeps its id. */
module ClassroomApi {
  import opened Outcomes
  import opened Bookings
  import opened RawOverlap

  /** The module-level `bookings` list and the handlers that change it. */
  class Store {
    var bookings: seq<RawBooking>

    constructor ()
      ensures bookings == []
    {
      bookings := [];
    }

    /** `is_classroom_available(classroom_id, start_time, end_time)`. */
    method IsClassroomAvailable(classroomId: int, start: string, end: string) returns (ok: bool)
      ensures ok == Available(bookings, classroomId, start, end)
    {
      var i := 0;
      while i < |bookings|
        invariant 0 <= i <= |bookings|
        invariant forall k :: 0 <= k < i ==> !Blocks(bookings[k], classroomId, start, end)
      {
        var b := bookings[i];
        if b.classroomId == classroomId && !(StringOrder.LessEq(end, b.start) || StringOrder.LessEq(b.end, start)) {
          return false;
        }
        i := i + 1;
      }
      return true;
    }

    /** `book_classroom`: refuse with 422 on a conflict, otherwise store the
        request under id `len(bookings) + 1` at the end of the list. */
    method BookClassroom(booking: RawBooking) returns (r: Response<RawBooking>)
      modifies this
      ensures Available(old(bookings), booking.classroomId, booking.start, booking.end) ==>
        r == Ok(booking.(id := |old(bookings)| + 1)) && bookings == old(bookings) + [r.value]
      ensures !Available(old(bookings), booking.classroomId, booking.start, booking.end) ==>
        r == Err(422, NotAvailable) && bookings == old(bookings)
    {
      var ok := IsClassroomAvailable(booking.classroomId, booking.start, booking.end);
      if !ok {
        return Err(422, NotAvailable);
      }
      var created := booking.(id := |bookings| + 1);
      bookings := bookings + [created];
      r := Ok(created);
    }

    /** `change_booking`: at the first booking with the id, check the new
        window against every booking, then store the request verbatim in its
        place (with whatever id it carries); 404 when no booking has the id. */
    method ChangeBooking(bookingId: int, updated: RawBooking) returns (r: Response<RawBooking>)
      modifies this
      ensures IndexOfId(old(bookings), bookingId).None? ==>
        r == Err(404, BookingNotFound) && bookings == old(bookings)
      ensures IndexOfId(old(bookings), bookingId).Some? ==>
        var i := IndexOfId(old(bookings), bookingId).value;
        if Available(old(bookings), updated.classroomId, updated.start, updated.end)
        then r == Ok(updated) && bookings == old(bookings)[i := updated]
        else r == Err(422, NotAvailable) && bookings == old(bookings)
    {
      var i := 0;
      while i < |bookings|
        invariant 0 <= i <= |bookings|
        invariant bookings == old(bookings)
        invariant forall k :: 0 <= k < i ==> bookings[k].id != bookingId
      {
        if bookings[i].id == bookingId {
          var ok := IsClassroomAvailable(updated.classroomId, updated.start, updated.end);
          if !ok {
            return Err(422, NotAvailable);
          }
          bookings := bookings[i := updated];
          return Ok(updated);
        }
        i := i + 1;
      }
      r := Err(404, BookingNotFound);
    }

    /** `cancel_booking`: remove and return the first booking with the id,
        keeping the order of the rest; 404 when no booking has it. */
    method CancelBooking(bookingId: int) returns (r: Response<RawBooking>)
      modifies this
      ensures IndexOfId(old(bookings), bookingId).None? ==>
        r == Err(404, BookingNotFound) && bookings == old(bookings)
      ensures IndexOfId(old(bookings), bookingId).Some? ==>
        var i := IndexOfId(old(bookings), bookingId).value;
        r == Ok(old(bookings)[i]) && bookings == old(bookings)[..i] + old(bookings)[i + 1..]
    {
      var i := 0;
      while i < |bookings|
        invariant 0 <= i <= |bookings|
        invariant bookings == old(bookings)
        invariant forall k :: 0 <= k < i ==> bookings[k].id != bookingId
      {
        if bookings[i].id == bookingId {
          r := Ok(bookings[i]);
          bookings := bookings[..i] + bookings[i + 1..];
          return;
        }
        i := i + 1;
      }
      r := Err(404, BookingNotFound);
    }
  }
}
