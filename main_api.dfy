/** main.py: an in-memory list of bookings whose availability check parses the
    times before comparing them and can skip the booking being updated. */
module MainApi {
  import opened Outcomes
  import opened Bookings

  /** A time after `strptime(s, '%Y/%m/%d-%H:%M')`, e.g. minutes since the
      epoch; only its order matters. */
  type Instant = int

  type MainBooking = Booking<Instant>

  const NotAvailable := "Classroom is not available for the given time slot."
  const BookingNotFound := "Booking not found."

  /** Booking `b` stands in the way of the request: it is not the excluded
      booking, it is on the same classroom, and
      `not (end <= b.start or start >= b.end)`. */
  predicate Blocks(b: MainBooking, classroomId: int, start: Instant, end: Instant, exclude: Option<int>)
  {
    exclude != Some(b.id) && b.classroomId == classroomId && !(end <= b.start || start >= b.end)
  }

  /** What `is_classroom_available` answers on the list `bs`. */
  predicate Available(bs: seq<MainBooking>, classroomId: int, start: Instant, end: Instant, exclude: Option<int>)
  {
    forall i :: 0 <= i < |bs| ==> !Blocks(bs[i], classroomId, start, end, exclude)
  }

  /** The request is refused exactly when some other booking of the classroom
      shares part of the half-open window `[start, end)`. Touching windows, other
      classrooms and the excluded id never refuse it, and an empty list never does. */
  lemma AvailableIff(bs: seq<MainBooking>, classroomId: int, start: Instant, end: Instant, exclude: Option<int>)
    ensures !Available(bs, classroomId, start, end, exclude) <==>
      exists i :: 0 <= i < |bs| && exclude != Some(bs[i].id) && bs[i].classroomId == classroomId
        && start < bs[i].end && bs[i].start < end
    ensures forall b: MainBooking :: (end == b.start || start == b.end || b.classroomId != classroomId
        || exclude == Some(b.id)) ==> !Blocks(b, classroomId, start, end, exclude)
    ensures Available([], classroomId, start, end, exclude)
  {
  }

  /** A booking whose id is the excluded one makes no difference, wherever it
      stands in the list and however much it overlaps. */
  lemma ExcludedBookingIgnored(front: seq<MainBooking>, b: MainBooking, back: seq<MainBooking>,
                               classroomId: int, start: Instant, end: Instant)
    ensures Available(front + [b] + back, classroomId, start, end, Some(b.id))
        <==> Available(front + back, classroomId, start, end, Some(b.id))
  {
    var all, rest := front + [b] + back, front + back;
    assert forall i :: 0 <= i < |front| ==> all[i] == rest[i];
    assert forall i :: |front| < i < |all| ==> all[i] == rest[i - 1];
    assert !Blocks(all[|front|], classroomId, start, end, Some(b.id));
    if Available(rest, classroomId, start, end, Some(b.id)) {
      forall i | 0 <= i < |all|
        ensures !Blocks(all[i], classroomId, start, end, Some(b.id))
      {
        if i > |front| {
          assert all[i] == rest[i - 1];
        }
      }
    }
    if Available(all, classroomId, start, end, Some(b.id)) {
      forall j | 0 <= j < |rest|
        ensures !Blocks(rest[j], classroomId, start, end, Some(b.id))
      {
        if j >= |front| {
          assert rest[j] == all[j + 1];
        }
      }
    }
  }

  /** A booking that was just created blocks the same window when it is
      requested again. */
  lemma RebookingSameWindowRefused(bs: seq<MainBooking>, b: MainBooking)
    requires b.start < b.end
    ensures !Available(bs + [b], b.classroomId, b.start, b.end, None)
  {
    assert (bs + [b])[|bs|] == b;
  }

  /** The module-level `bookings` list and the handlers that change it. */
  class Store {
    var bookings: seq<MainBooking>

    constructor ()
      ensures bookings == []
    {
      bookings := [];
    }

    /** `is_classroom_available(classroom_id, start, end, exclude_booking_id)`. */
    method IsClassroomAvailable(classroomId: int, start: Instant, end: Instant, exclude: Option<int>)
      returns (ok: bool)
      ensures ok == Available(bookings, classroomId, start, end, exclude)
    {
      var i := 0;
      while i < |bookings|
        invariant 0 <= i <= |bookings|
        invariant forall k :: 0 <= k < i ==> !Blocks(bookings[k], classroomId, start, end, exclude)
      {
        var b := bookings[i];
        if exclude == Some(b.id) {
          i := i + 1;
          continue;
        }
        if b.classroomId == classroomId && !(end <= b.start || start >= b.end) {
          return false;
        }
        i := i + 1;
      }
      return true;
    }

    /** `book_classroom`: refuse with 422 on a conflict, otherwise store the
        request under id `len(bookings) + 1` at the end of the list. */
    method BookClassroom(booking: MainBooking) returns (r: Response<MainBooking>)
      modifies this
      ensures Available(old(bookings), booking.classroomId, booking.start, booking.end, None) ==>
        r == Ok(booking.(id := |old(bookings)| + 1)) && bookings == old(bookings) + [r.value]
      ensures !Available(old(bookings), booking.classroomId, booking.start, booking.end, None) ==>
        r == Err(422, NotAvailable) && bookings == old(bookings)
    {
      var ok := IsClassroomAvailable(booking.classroomId, booking.start, booking.end, None);
      if !ok {
        return Err(422, NotAvailable);
      }
      var created := booking.(id := |bookings| + 1);
      bookings := bookings + [created];
      r := Ok(created);
    }

    /** `change_booking`: at the first booking with the id, check the new
        window while skipping every booking with that id, then store the
        request in its place under the same id; 404 when no booking has it. */
    method ChangeBooking(bookingId: int, updated: MainBooking) returns (r: Response<MainBooking>)
      modifies this
      ensures IndexOfId(old(bookings), bookingId).None? ==>
        r == Err(404, BookingNotFound) && bookings == old(bookings)
      ensures IndexOfId(old(bookings), bookingId).Some? ==>
        var i := IndexOfId(old(bookings), bookingId).value;
        if Available(old(bookings), updated.classroomId, updated.start, updated.end, Some(bookingId))
        then r == Ok(updated.(id := bookingId)) && bookings == old(bookings)[i := r.value]
        else r == Err(422, NotAvailable) && bookings == old(bookings)
    {
      var i := 0;
      while i < |bookings|
        invariant 0 <= i <= |bookings|
        invariant bookings == old(bookings)
        invariant forall k :: 0 <= k < i ==> bookings[k].id != bookingId
      {
        if bookings[i].id == bookingId {
          var ok := IsClassroomAvailable(updated.classroomId, updated.start, updated.end, Some(bookingId));
          if !ok {
            return Err(422, NotAvailable);
          }
          var stored := updated.(id := bookingId);
          bookings := bookings[i := stored];
          return Ok(stored);
        }
        i := i + 1;
      }
      r := Err(404, BookingNotFound);
    }

    /** `cancel_booking`: remove and return the first booking with the id,
        keeping the order of the rest; 404 when no booking has it. */
    method CancelBooking(bookingId: int) returns (r: Response<MainBooking>)
      modifies this
      ensures IndexOfId(old(bookings), bookingId).None? ==>
        r == Err(404, BookingNotFound) && bookings == old(bookings)
      ensures IndexOfId(old(bookings), bookingId).Some? ==>
        var i := IndexOfId(old(bookings), bookingId).value;
        r == Ok(old(bookings)[i]) && bookings == old(bookings)[..i] + old(bookings)[i + 1..]
    {
      var i := 0;
      while i < |bookings|
        invariant 0 <= i <= |bookings|
        invariant bookings == old(bookings)
        invariant forall k :: 0 <= k < i ==> bookings[k].id != bookingId
      {
        if bookings[i].id == bookingId {
          r := Ok(bookings[i]);
          bookings := bookings[..i] + bookings[i + 1..];
          return;
        }
        i := i + 1;
      }
      r := Err(404, BookingNotFound);
    }
  }

  /** Ids are `len + 1` at creation time, so after a cancellation a new booking
      can get an id that is still in use: book two, cancel the first, book a
      third, and both stored bookings carry id 2. */
  method IdReuseScenario(first: MainBooking, second: MainBooking, third: MainBooking) returns (store: Store)
    requires !Blocks(first.(id := 1), second.classroomId, second.start, second.end, None)
    requires !Blocks(second.(id := 2), third.classroomId, third.start, third.end, None)
    ensures fresh(store)
    ensures store.bookings == [second.(id := 2), third.(id := 2)]
  {
    store := new Store();
    var r1 := store.BookClassroom(first);
    assert store.bookings == [first.(id := 1)];
    assert Available(store.bookings, second.classroomId, second.start, second.end, None);
    var r2 := store.BookClassroom(second);
    assert store.bookings == [first.(id := 1), second.(id := 2)];
    assert IndexOfId(store.bookings, 1) == Some(0);
    var r3 := store.CancelBooking(1);
    assert store.bookings == [second.(id := 2)];
    assert Available(store.bookings, third.classroomId, third.start, third.end, None);
    var r4 := store.BookClassroom(third);
  }

  /** Skipping every booking with the URL's id lets a change double-book once
      ids repeat: book room 9 for `[0, 60)` and room 1 for `[540, 600)`,
      cancel id 1, book room 1 for `[600, 660)` (id 2 again), then move id 2
      to room 1 `[600, 660)`. The change is accepted although the other id-2
      booking holds that window, and afterwards both stored bookings are the
      same room and window. */
  method SameIdChangeDoubleBooks() returns (r: Response<MainBooking>, stored: seq<MainBooking>)
    ensures r == Ok(Booking(2, 1, "", 600, 660))
    ensures stored == [Booking(2, 1, "", 600, 660), Booking(2, 1, "", 600, 660)]
  {
    var change := Booking(0, 1, "", 600, 660);
    var store := IdReuseScenario(Booking(0, 9, "", 0, 60), Booking(0, 1, "", 540, 600), change);
    assert IndexOfId(store.bookings, 2) == Some(0);
    r := store.ChangeBooking(2, change);
    stored := store.bookings;
  }
}
