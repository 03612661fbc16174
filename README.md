# Classroom booking rules, modelled in Dafny

This project models the booking rules of a small classroom-booking service built with FastAPI. The same rules live in four places, and the model keeps them apart:

- **main.py**: an in-memory list of bookings. The availability check parses both windows before comparing them. It can skip one booking id: `change_booking` checks the new window while skipping every booking whose id is the URL's id, which is every booking but the changed one only as long as ids do not repeat. The stored booking keeps the id from the URL.
- **Classroom_API.py** and **gruppkod2.py**: the same in-memory store, with three differences:
  - the times are compared as raw strings, in Python's string order;
  - an update is checked against every booking, itself included;
  - an update is stored verbatim.

  gruppkod2.py also keeps an append-only list of reviews, which can be listed for one classroom.
- **app/utils/validation.py**: `time_validation`, which turns two `"HH:MM:SS"` strings into a whole-hour window or an HTTP 400 in a fixed order of checks; and `is_valid_email`, a regular-expression test.
- **app/routes/user.py**: the database-backed routes.
  - `book_timeslot` cuts a window into one-hour rows. It refuses the whole request at the first slot that is taken.
  - `edit_booking` moves one booking, ignoring the booking itself in the overlap query.
  - `delete_booking` removes a booking only for its owner.
  - `get_user_bookings` lists one user's rows.
- **app/routes/classroom.py**: `get_one_classroom`, the grid of ten one-hour slots from 08:00 to 18:00. It marks a slot as taken when a booking covers the slot's start, not when a booking shares part of the slot.

How each source entity is modelled:

- Each in-memory store is a `class Store` whose `bookings` field (a `seq`) the handler methods reassign.
- The database session is a `class Session` holding the sets of existing classroom and user ids and the `Booking` table as a sequence of rows. Every `select ... where` is a sequence filter (`Seqs.Where`).
- An `HTTPException` is an `Err(status, detail)` value of `Outcomes.Response`.
- A time of day is an hour, minute and second, ordered by its seconds since midnight.
- A main.py time is an abstract ordered instant: only its order matters.
- Classroom_API.py and gruppkod2.py keep their times as strings, so there they are strings.

Proved about the model, beyond each operation's own contract:

- The database routes keep the primary key unique and the stored times valid.
- They keep the timetable free of double bookings, with each request handled as one step.
- The rows that `book_timeslot` adds to the session during its loop never change the answer of its later overlap queries.

## Model

| member | source | states |
|---|---|---|
| Bookings.IndexOfId | main.py:72-73 | the position of the first booking with the id, or none when no booking has it |
| MainApi.AvailableIff | main.py:44-54 | the request is refused exactly when some booking whose id is not the excluded id, on the same classroom, shares part of `[start, end)`; touching windows, other classrooms and the excluded id never refuse; an empty list never refuses |
| MainApi.ExcludedBookingIgnored | main.py:48-49 | a booking whose id is the excluded one changes nothing, wherever it stands and however much it overlaps |
| MainApi.RebookingSameWindowRefused | main.py:62-67 | once a non-empty booking is stored, asking again for its window on its classroom is refused |
| MainApi.Store.constructor | main.py:40 | the list starts empty |
| MainApi.Store.IsClassroomAvailable | main.py:44-54 | the loop with `continue` answers exactly the availability predicate |
| MainApi.Store.BookClassroom | main.py:62-68 | on a conflict: 422 and the list is unchanged; otherwise exactly one booking is appended, with id equal to the old length plus 1, and the earlier entries are kept |
| MainApi.Store.ChangeBooking | main.py:70-79 | 404 and no change when no booking has the id; otherwise the new window is checked while skipping that id; on a conflict, 422 and no change; otherwise the request replaces only the first matching entry, with its id forced to the URL's id |
| MainApi.Store.CancelBooking | main.py:81-86 | 404 and no change when no booking has the id; otherwise the first matching entry is removed and returned, and the rest keep their order |
| MainApi.IdReuseScenario | main.py:66 | book two, cancel the first, book a third that clashes with neither: the two stored bookings both have id 2 |
| MainApi.SameIdChangeDoubleBooks | main.py:48-49 | once two bookings share id 2, changing id 2 to the other one's room and window is accepted, because every booking with id 2 is skipped; afterwards both stored bookings hold room 1 `[600, 660)` |
| StringOrder.Irreflexive | Classroom_API.py:46 | no string sorts before itself |
| StringOrder.Trichotomy | Classroom_API.py:46 | exactly one of `a < b`, `a == b`, `b < a` holds |
| StringOrder.Transitive | Classroom_API.py:46 | string order is transitive |
| StringOrder.NotLessEq | Classroom_API.py:46 | `not (a <= b)` is `b < a` |
| StringOrder.CommonPrefixLess | Classroom_API.py:46 | a common prefix does not change the order of two strings |
| StringOrder.UnpaddedHourSortsFirst | Classroom_API.py:46 | on any day, the unpadded time "9:00" (which the validator's `strptime` at Classroom_API.py:23 accepts) sorts after "10:00" in the raw string comparison |
| RawOverlap.BlocksIff | Classroom_API.py:44-48 | a booking blocks exactly when it is on the same classroom and the windows intersect as half-open intervals in string order; touching windows never block; an empty list is always available |
| RawOverlap.OverlapWithAnyBookingRefused | gruppkod2.py:93-97 | nothing is skipped: a request that shares time with any stored booking of its classroom is refused, including the booking being changed |
| RawOverlap.OwnWindowRefused | Classroom_API.py:71-72 | re-submitting a booking's own non-empty window is refused |
| RawOverlap.UnpaddedHourDoubleBooking | gruppkod2.py:52-58 | on any day, 10:00-10:30 is allowed next to a stored 9:00-11:00 booking of the same classroom |
| ClassroomApi.Store.constructor | Classroom_API.py:40 | the list starts empty |
| ClassroomApi.Store.IsClassroomAvailable | Classroom_API.py:44-48 | the loop answers exactly the availability predicate |
| ClassroomApi.Store.BookClassroom | Classroom_API.py:57-64 | on a conflict: 422 and no change; otherwise one booking is appended with id equal to the old length plus 1 |
| ClassroomApi.Store.ChangeBooking | Classroom_API.py:66-75 | 404 and no change for an absent id; otherwise the check runs against every booking (the one being changed included); on a conflict, 422 and no change; otherwise the request is stored verbatim at the first match, whatever id it carries |
| ClassroomApi.Store.CancelBooking | Classroom_API.py:77-83 | 404 and no change for an absent id; otherwise exactly the first match is removed and returned |
| GroupApi.Listing | gruppkod2.py:129-137 | with a truthy classroom id: only that classroom's reviews and all of them; with `None` or `0`: every review |
| GroupApi.ListingAfterAdd | gruppkod2.py:120-137 | a newly added review appears last, and only in the listings it belongs to, so listing keeps submission order |
| GroupApi.Store.constructor | gruppkod2.py:48-49 | both lists start empty |
| GroupApi.Store.IsClassroomAvailable | gruppkod2.py:52-58 | the loop answers exactly the availability predicate |
| GroupApi.Store.BookClassroom | gruppkod2.py:73-87 | on a conflict: 422 and no change; otherwise one booking is appended with id equal to the old length plus 1; the reviews are untouched |
| GroupApi.Store.ChangeBooking | gruppkod2.py:89-104 | the same rules as in Classroom_API.py, and the reviews are untouched |
| GroupApi.Store.CancelBooking | gruppkod2.py:106-118 | 404 and no change for an absent id; otherwise the first match is popped and returned; the reviews are untouched |
| GroupApi.Store.AddReview | gruppkod2.py:120-127 | exactly one review is appended, unchecked (a rating outside 1-5 is stored); the bookings are untouched |
| GroupApi.Store.ListReviews | gruppkod2.py:129-137 | with a truthy classroom id: exactly the stored reviews of that classroom; with `None` or `0`: the whole list |
| TimeOfDay.BeforeIsLexicographic | app/utils/validation.py:17-22 | on valid times, `<` is field-by-field lexicographic order, and equal seconds mean equal times |
| TimeOfDay.ShiftHours | app/routes/user.py:58 | adding whole hours within one day adds 3600 seconds per hour and keeps validity and minute and second |
| Validation.StripQuotes | app/utils/validation.py:11-12 | the result is a slice `s[a..b]` of the input with only `"` characters outside it, and neither of its ends is a `"` |
| Validation.StripQuotesIdempotent | app/utils/validation.py:11-12 | stripping twice is stripping once |
| Validation.ParseTime | app/utils/validation.py:11-12 | a string that parses gives a valid time, hour below 24 and minute and second below 60 |
| Validation.ParseFormatTime | app/utils/validation.py:11-12 | parsing the `"HH:MM:SS"` text of a valid time gives the time back |
| Validation.TimeValidation | app/utils/validation.py:8-28 | every rejection is a 400; "Invalid time format..." exactly when a stripped input does not parse; on success the pair is the parsed inputs, both valid, the start strictly before the end, and both on the hour |
| Validation.TimeValidationOrder | app/utils/validation.py:16-28 | for parsed inputs: an end before the start gives "End time must be after start time"; equal times give "Times must be different" even on the hour; otherwise an off-the-hour time gives "Time must be on the hour..."; otherwise the parsed pair is returned |
| Validation.ReversedMisalignedExample | app/utils/validation.py:10-18 | `"10:30:00"` (quoted) to `09:15:00` reports the reversed order, not the misalignment |
| Validation.MatchSplitsAtFirstAtLastDot | app/utils/validation.py:33 | a string the pattern matches splits at its first `@` and its last `.` |
| Validation.IsValidEmail | app/utils/validation.py:32-34 | the test accepts a string exactly when it splits into a non-empty local part of `[a-zA-Z0-9._%+-]`, `@`, a non-empty domain of `[a-zA-Z0-9.-]`, `.`, and at least two ASCII letters |
| Db.Find | app/routes/user.py:101-104 | the primary-key lookup finds a row with the id, or reports that none has it |
| Db.MaxId | app/models.py:27 | at least 0, 0 for an empty table, and never below any id in the table |
| Db.MaxIdAttained | app/models.py:27 | `MaxId` is 0 or the id of some row, so with the bound it is the largest id, or 0 when every id is negative |
| Db.Session.constructor | app/models.py:26-33 | a session over given classrooms, users and valid rows |
| Db.AppendKeepsNoDoubleBooking | app/routes/user.py:83 | adding rows that clash neither with each other nor with stored rows keeps the table free of double bookings |
| UserRoutes.HourSlots | app/routes/user.py:91-94 | a whole-hour window gives `end.hour - start.hour` slots, slot `i` being `[start + i h, start + (i+1) h)` |
| UserRoutes.HourSlotsTile | app/routes/user.py:56-80 | the slots start at the window's start, end at its end and run back to back; every moment of the window lies in exactly one slot |
| UserRoutes.SlotTakenIff | app/routes/user.py:61-67 | the slot query finds rows exactly when some booking of the classroom has `start < slot end` and `end > slot start`; a booking that only touches the slot is not found |
| UserRoutes.FirstTakenSlot | app/routes/user.py:57-68 | the first slot whose query finds a row, with no taken slot before it; none exactly when every slot is free |
| UserRoutes.FirstTakenAt | app/routes/user.py:67-68 | a taken slot with no taken slot before it is the first taken slot |
| UserRoutes.NewRecordsSnoc | app/routes/user.py:70-77 | adding one more slot's row gives the earlier rows plus one row, with the next id |
| UserRoutes.EarlierSlotsNeverTaken | app/routes/user.py:61-77 | the rows already added for earlier slots of the same request never change the query for a later slot |
| UserRoutes.NewRecordsNoDoubleBooking | app/routes/user.py:70-77 | the rows of one request never clash with each other |
| UserRoutes.GetUserBookings | app/routes/user.py:21-38 | 404 "User not found" exactly when the user does not exist; otherwise every returned row is that user's, and every row of that user is returned |
| UserRoutes.CollectHourRows | app/routes/user.py:56-80 | the loop stops with a 400 that names the first taken slot; when no slot is taken it yields one row per slot, with consecutive new ids after the largest id in use |
| UserRoutes.CommitKeepsInvariants | app/routes/user.py:83 | committing a request whose slots are all free keeps the ids unique, the times valid and the table free of double bookings |
| UserRoutes.AddHourRows | app/routes/user.py:56-83 | when a slot is taken: that 400, and nothing is stored; otherwise all rows of the request are stored after the existing ones, and the invariants hold |
| UserRoutes.BookTimeslot | app/routes/user.py:41-96 | an unknown classroom gives 404 before validation; then the 400 of `time_validation`; then all-or-nothing hourly booking; classrooms and users never change |
| UserRoutes.CheckEdit | app/routes/user.py:99-119 | 404 for an unknown booking, then the 400 of `time_validation`, then 409 when another booking of the classroom overlaps the new window (the booking itself is excluded); otherwise the booking with only its start and end changed |
| UserRoutes.EditKeepsInvariants | app/routes/user.py:110-125 | moving a booking to a window the query found free keeps the ids unique, the times valid and the table free of double bookings |
| UserRoutes.EditBooking | app/routes/user.py:99-126 | on any error nothing changes; on success only that row changes, keeping its id, user and classroom; the invariants hold; there is no ownership check |
| UserRoutes.DeleteBooking | app/routes/user.py:140-147 | 404 "Booking not found" and no change unless the booking exists and belongs to the user; otherwise exactly that row is removed, the rest keep their order, and no row with the id is left |
| ClassroomRoutes.GetOneClassroom | app/routes/classroom.py:38-88 | 404 "Classroom not found" exactly for an unknown classroom; otherwise ten slots, slot `i` being `[8+i:00, 9+i:00)`, each available exactly when no booking of that classroom has `start <= slot start < end` |
| ClassroomRoutes.RoomOccupiedIff | app/routes/classroom.py:57-67 | the test on the classroom's filtered bookings is the same as "some booking of that classroom in the whole table covers the moment" |
| ClassroomRoutes.CoversMatchesOverlapOnWholeHours | app/routes/classroom.py:65-67 | for bookings on whole hours, the point test on a slot's start agrees with the overlap test of the booking routes |
| ClassroomRoutes.TouchingBookings | app/routes/classroom.py:66 | a booking that ends when the slot starts leaves it free; one that starts then takes it |
| ClassroomRoutes.HalfHourBookingLeavesSlotAvailable | app/routes/classroom.py:65-67 | a booking 08:30-09:30 overlaps the slot 08:00-09:00 but leaves it marked available |

## Left out

- HTTP and framework glue is not modelled: routing, `JSONResponse` bodies, Accept-header content negotiation and Jinja templates. Handlers return the value or `Err(status, detail)`; the JSON shape of a response is not modelled.
- `get_all_classrooms` (app/routes/classroom.py:21-33) and the `list_classrooms` and `list_bookings` getters are not modelled. The first is an SQL offset/limit over an unordered query; the others return a list unchanged.
- Authentication is out: app/routes/auth.py hashes passwords with bcrypt through passlib.
- Persistence set-up, startup and logging are left out, because they are configuration and I/O: app/db/dbConfig.py, app/db/seed.py, app/main.py (CORS) and loggning.py. app/models.py is used only for the shape of a `Booking` row.
- The pydantic `strptime` validators on `start_time` and `end_time` (main.py:20-26 and the same in the other two files) are not modelled. Booking requests are taken as already accepted.
- MainApi.Instant: main.py's `strptime(..., '%Y/%m/%d-%H:%M')` is replaced by an abstract integer instant that keeps only the order of the parsed times.
- Validation.ParseTime models `strptime(..., "%H:%M:%S")` with these limits:
  - fields are one or two ASCII digits;
  - an hour above 23 or a minute or second above 59 fails;
  - the segments are split at the first ':' and at the next ':' after it.

  Not modelled: `strptime`'s acceptance of other Unicode digits.
- Validation.IsValidEmail models the intended character-class pattern. Python's `$` also matches just before a final newline, so `re.match` also accepts such a string; that quirk is not modelled.
- Concurrency is not modelled: each handler is one atomic step on the store or session. FastAPI runs these synchronous handlers in a thread pool and the in-memory lists have no lock, so two requests at once could both pass the availability check; the statement that the database routes keep the timetable free of double bookings holds only for requests handled one after another.
- Object aliasing is not modelled. `book_classroom` sets `booking.id` on the request object it then stores, and `change_booking` returns that same object. The model stores a copy with the new id.
- UserRoutes.CollectHourRows: the primary keys SQLite gives to new rows are modelled as consecutive integers after the largest id in use. The database is not modelled.
- TimeOfDay.ShiftHours: the model requires that adding the hour stays inside the day. In `book_timeslot` and `get_one_classroom` this always holds, because every shifted time is at most the window's end.
- In the session model, autoflush is reduced to one effect: the overlap query sees the rows added so far in the same request. Transactions are not otherwise modelled: on an error the pending rows are discarded, as the session is closed without a commit.
- `session.refresh`, the foreign-key constraints and the `Relationship` attributes of app/models.py are not modelled.
- `book_timeslot` does not check that the user exists, and `edit_booking` takes no user id into account. The model keeps both as written.
- main.py's `exclude_booking_id` default is `None`, modelled as `Option<int>`. An id of `None` matches no booking.
- Classroom_API.py and gruppkod2.py annotate the times of `is_classroom_available` as `datetime`, but receive the request strings. The model compares strings, as the code does. RawOverlap.UnpaddedHourDoubleBooking shows that this order is not chronological when the hour is unpadded.
- The model follows the code on two points where the source's comments or its main.py variant suggest otherwise:
  - the `len + 1` id that the comments at Classroom_API.py:62 and gruppkod2.py:80 call unique can repeat after a cancellation (MainApi.IdReuseScenario); main.py's update then skips both bookings with the id, so a change can double-book a room (MainApi.SameIdChangeDoubleBooks);
  - unlike main.py:74, the updates in Classroom_API.py and gruppkod2.py do not skip the booking being changed (RawOverlap.OwnWindowRefused).
