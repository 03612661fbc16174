/** The pydantic `Booking` record shared by main.py, Classroom_API.py and
    gruppkod2.py, and the id search their update and cancel handlers run. */
module Bookings {
  import opened Outcomes

  /** A booking; `T` is how the variant holds its start and end times. */
  datatype Booking<T> = Booking(id: int, classroomId: int, studentName: string, start: T, end: T)

  /** The index of the first booking whose id is `id`, as the handlers'
      `for index, booking in enumerate(bookings)` scan finds it. Ids need not
      be unique, so later entries with the same id are never reached. */
  function IndexOfId<T>(bs: seq<Booking<T>>, id: int): (r: Option<nat>)
    ensures r.Some? ==> r.value < |bs| && bs[r.value].id == id
    ensures r.Some? ==> forall k :: 0 <= k < r.value ==> bs[k].id != id
    ensures r.None? <==> forall k :: 0 <= k < |bs| ==> bs[k].id != id
    decreases |bs|
  {
    if bs == [] then None
    else if bs[0].id == id then Some(0)
    else match IndexOfId(bs[1..], id)
      case None => None
      case Some(i) => Some(i + 1)
  }
}
