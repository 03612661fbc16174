/** gruppkod2.py: the Classroom_API.py booking list plus an append-only list
    of classroom reviews. */
module GroupApi {
  import opened Outcomes
  import opened Seqs
  import opened Bookings
  import opened RawOverlap

  /** A review; the rating is documented as 1 to 5 but never checked. */
  datatype Review = Review(classroomId: int, studentName: string, rating: int, comment: string)

  /** Python truth of the optional `classroom_id` query parameter: `None` and
      `0` are false. */
  predicate Truthy(classroomId: Option<int>)
  {
    classroomId.Some? && classroomId.value != 0
  }

  /** What `list_reviews(classroom_id)` returns from the list `rs`: the
      reviews of that classroom when the id is truthy, otherwise all of them. */
  function Listing(rs: seq<Review>, classroomId: Option<int>): (r: seq<Review>)
    ensures !Truthy(classroomId) ==> r == rs
    ensures Truthy(classroomId) ==>
      && (forall i :: 0 <= i < |r| ==> r[i] in rs && r[i].classroomId == classroomId.value)
      && (forall i :: 0 <= i < |rs| && rs[i].classroomId == classroomId.value ==> rs[i] in r)
  {
    if Truthy(classroomId) then Where(rs, (x: Review) => x.classroomId == classroomId.value) else rs
  }

  /** The listing keeps submission order: a newly added review shows up last,
      and only in the listings it belongs to. */
  lemma ListingAfterAdd(rs: seq<Review>, x: Review, classroomId: Option<int>)
    ensures Listing(rs + [x], classroomId) ==
      Listing(rs, classroomId) + (if !Truthy(classroomId) || x.classroomId == classroomId.value then [x] else [])
  {
    if Truthy(classroomId) {
      var p := (y: Review) => y.classroomId == classroomId.value;
      WhereConcat(rs, [x], p);
      assert [x][1..] == [];
    }
  }

  /** The module-level `bookings` and `reviews` lists and their handlers. */
  class Store {
    var bookings: seq<RawBooking>
    var reviews: seq<Review>

    constructor ()
      ensures bookings == [] && reviews == []
    {
      bookings, reviews := [], [];
    }

    /** `is_classroom_available(classroom_id, start_time, end_time)`. */
    method IsClassroomAvailable(classroomId: int, start: string, end: string) returns (ok: bool)
      ensures ok == Available(bookings, classroomId, start, end)
    {
      var i := 0;
      while i < |bookings|
        invariant 0 <= i <= |bookings|
        invariant forall k :: 0 <= k < i ==> !Blocks(bookings[k], classroomId, start, end)
      {
        var b := bookings[i];
        if b.classroomId == classroomId && !(StringOrder.LessEq(end, b.start) || StringOrder.LessEq(b.end, start)) {
          return false;
        }
        i := i + 1;
      }
      return true;
    }

    /** `book_classroom`: refuse with 422 on a conflict, otherwise store the
        request under id `len(bookings) + 1` at the end of the list. */
    method BookClassroom(booking: RawBooking) returns (r: Response<RawBooking>)
      modifies this
      ensures reviews == old(reviews)
      ensures Available(old(bookings), booking.classroomId, booking.start, booking.end) ==>
        r == Ok(booking.(id := |old(bookings)| + 1)) && bookings == old(bookings) + [r.value]
      ensures !Available(old(bookings), booking.classroomId, booking.start, booking.end) ==>
        r == Err(422, NotAvailable) && bookings == old(bookings)
    {
      var ok := IsClassroomAvailable(booking.classroomId, booking.start, booking.end);
      if !ok {
        return Err(422, NotAvailable);
      }
      var created := booking.(id := |bookings| + 1);
      bookings := bookings + [created];
      r := Ok(created);
    }

    /** `change_booking`: at the first booking with the id, check the new
        window against every booking, the one being changed included, then
        store the request verbatim in its place; 404 when no booking has the id. */
    method ChangeBooking(bookingId: int, updated: RawBooking) returns (r: Response<RawBooking>)
      modifies this
      ensures reviews == old(reviews)
      ensures IndexOfId(old(bookings), bookingId).None? ==>
        r == Err(404, BookingNotFound) && bookings == old(bookings)
      ensures IndexOfId(old(bookings), bookingId).Some? ==>
        var i := IndexOfId(old(bookings), bookingId).value;
        if Available(old(bookings), updated.classroomId, updated.start, updated.end)
        then r == Ok(updated) && bookings == old(bookings)[i := updated]
        else r == Err(422, NotAvailable) && bookings == old(bookings)
    {
      var i := 0;
      while i < |bookings|
        invariant 0 <= i <= |bookings|
        invariant bookings == old(bookings)
        invariant forall k :: 0 <= k < i ==> bookings[k].id != bookingId
      {
        if bookings[i].id == bookingId {
          var ok := IsClassroomAvailable(updated.classroomId, updated.start, updated.end);
          if !ok {
            return Err(422, NotAvailable);
          }
          bookings := bookings[i := updated];
          return Ok(updated);
        }
        i := i + 1;
      }
      r := Err(404, BookingNotFound);
    }

    /** `cancel_booking`: remove and return the first booking with the id,
        keeping the order of the rest; 404 when no booking has it. */
    method CancelBooking(bookingId: int) returns (r: Response<RawBooking>)
      modifies this
      ensures reviews == old(reviews)
      ensures IndexOfId(old(bookings), bookingId).None? ==>
        r == Err(404, BookingNotFound) && bookings == old(bookings)
      ensures IndexOfId(old(bookings), bookingId).Some? ==>
        var i := IndexOfId(old(bookings), bookingId).value;
        r == Ok(old(bookings)[i]) && bookings == old(bookings)[..i] + old(bookings)[i + 1..]
    {
      var i := 0;
      while i < |bookings|
        invariant 0 <= i <= |bookings|
        invariant bookings == old(bookings)
        invariant forall k :: 0 <= k < i ==> bookings[k].id != bookingId
      {
        if bookings[i].id == bookingId {
          r := Ok(bookings[i]);
          bookings := bookings[..i] + bookings[i + 1..];
          return;
        }
        i := i + 1;
      }
      r := Err(404, BookingNotFound);
    }

    /** `add_review`: append the review as given, with no check on it. */
    method AddReview(review: Review) returns (r: Review)
      modifies this
      ensures r == review
      ensures reviews == old(reviews) + [review] && bookings == old(bookings)
    {
      reviews := reviews + [review];
      r := review;
    }

    /** `list_reviews(classroom_id)` on the current list: that classroom's
        reviews for a truthy id, otherwise every review. */
    function ListReviews(classroomId: Option<int>): (r: seq<Review>)
      reads this
      ensures !Truthy(classroomId) ==> r == reviews
      ensures Truthy(classroomId) ==>
        && (forall i :: 0 <= i < |r| ==> r[i] in reviews && r[i].classroomId == classroomId.value)
        && (forall i :: 0 <= i < |reviews| && reviews[i].classroomId == classroomId.value ==> reviews[i] in r)
    {
      Listing(reviews, classroomId)
    }
  }
}
