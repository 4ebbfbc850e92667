# Train seat reservation: allocation engine and coach seeding

A Dafny model of the core of a single-coach train reservation backend. It covers:

- the **availability scan** (`findAvailableSeats`). This is a first-fit, left-to-right pass that
  looks for `numSeats` consecutive free seats, where "consecutive" means adjacent in the seat
  array. Rows play no part.
- the **book** and **unbook** transitions of the `/book` and `/unbook` routes. They act on the
  coach's seats (`number`, `row`, `isBooked`, flipped in place) and on the booking ledger.
- the **seat-state view** of the `GET /` route. It gives one booked flag per seat.
- the **seeding script**. It builds the 80-seat coach (rows 1 to 11 hold 7 seats, row 12 holds 3),
  books a few drawn seats for demonstration, and stores a train with no bookings.

Files:

- `coach.dfy` (module `Coach`): seats, bookings, result types. It also has `IndexOf`, which looks
  up the first seat with a given number, as `Array.prototype.find` does in the routes.
- `allocation.dfy` (module `Allocation`): the scan, marking, unbooking and booking filters, with
  the lemmas about them. It also holds the class `Train`: a `const seats: array<Seat>` whose
  flags are flipped in place, plus a `bookings` ledger. `Book` and `Unbook` either perform
  every update or, on any error, leave both untouched.
- `seed.dfy` (module `Seed`): the nested layout loop, the pre-booking loop and the construction
  of the seeded train.

Each in-place operation is a method proved against a reference function:

- `FindAvailableSeats` against `FirstFit`, a naive search over every start position.
- `MarkSeatsAsBooked` against `MarkAll`.
- the unbook filter against `ReleaseAll`, and its result against `Freed`. `Freed` is judged on
  the coach *before* the request.

The lemmas then state what the source promises of those functions.

Facts about the code that the model keeps:

- Bookings that lose all their seats stay in the ledger. The unbook route reassigns
  `booking.seats` and never removes a booking.
- The ledger invariant the routes keep (`LedgerOk`) is one-directional: every number a booking
  holds names a booked seat, and no number is held by two bookings. A booked seat need not be
  held by any booking, because seeding books seats without creating one.
- The seeded coach has 80 seats: 11 rows of 7 and a last row of 3 (backend/seed.js:27-28).

## Model

| member | source | states |
|---|---|---|
| `Coach.Numbers` | backend/routes/train.js:216 | the projection `seat => seat.number` keeps length and order: element k is seat k's number |
| `Coach.IndexOf` | backend/routes/train.js:155 | `find` by number: a returned index holds that number and no earlier seat does; `None` only when no seat carries it |
| `Allocation.ValidCount` | backend/routes/train.js:58-60 | the count check accepts exactly the counts 1 to 7; a missing or non-numeric count, zero, a negative count or one above 7 is refused |
| `Allocation.BookedFlags` | backend/routes/train.js:24 | the seat view has one flag per seat, in coach order, and flag k is seat k's `isBooked` |
| `Allocation.FirstFitFrom` | backend/routes/train.js:207-224 | a start index found from `lo` onwards is at least `lo`, and the `n` seats from it exist and are all free |
| `Allocation.FirstFit` | backend/routes/train.js:207-224 | a block is only ever found for a count of at least one, and it lies inside the coach with every seat free |
| `Allocation.FirstFitFromEarliest` | backend/routes/train.js:207-224 | no free block starts between `lo` and the one found; when none is found, no free block starts at or after `lo` |
| `Allocation.FirstFitIsEarliest` | backend/routes/train.js:215-218 | first fit: no block of `n` free seats starts (so none ends) before the returned one |
| `Allocation.FirstFitNoneIffNoFreeRun` | backend/routes/train.js:207-224 | for a count of at least one, the scan finds nothing exactly when the coach has no `n` consecutive free seats |
| `Allocation.FirstFitUnique` | backend/routes/train.js:215-218 | a free block with no free block before it is exactly the block first fit returns |
| `Allocation.Window` | backend/routes/train.js:216 | the returned list exists exactly when a block is found, has exactly `n` elements, and element i is the number of seat `start + i` |
| `Allocation.FindAvailableSeats` | backend/routes/train.js:202-225 | the running-count scan returns exactly the first-fit block's numbers, and null when there is none (also for any count below one) |
| `Allocation.MarkOne` | backend/routes/train.js:192-195 | marking one number books exactly the seat `find` returns for it (none when no seat carries it), leaves every other flag as it was, and changes no number or row |
| `Allocation.MarkAll` | backend/routes/train.js:191-196 | marking a list of numbers keeps the coach's length and every seat's number and row |
| `Allocation.MarkAllBooksPicked` | backend/routes/train.js:189-196 | after marking, a seat is booked iff it was booked or is the seat `find` picks for one of the numbers |
| `Allocation.MarkSeatsAsBooked` | backend/routes/train.js:189-199 | the in-place loop leaves the seats equal to marking each number in turn |
| `Allocation.BookMarksExactlyTheBlock` | backend/routes/train.js:80-92 | booking the found block books exactly the seats whose numbers were returned (those of the block), all of them previously free, and leaves every other seat as it was |
| `Allocation.Freed` | backend/routes/train.js:154-161 | the unbook result is no longer than the request and holds only requested numbers |
| `Allocation.ReleaseAll` | backend/routes/train.js:154-161 | the in-place filter changes no seat's number or row, and keeps at most as many numbers as were requested, all of them requested |
| `Allocation.FreedMembers` | backend/routes/train.js:154-161 | a number is in the unbook result iff it was requested and names an existing, booked seat |
| `Allocation.FreedNoDuplicates` | backend/routes/train.js:154-161 | a number requested twice is unbooked and reported once: the result has no duplicates |
| `Allocation.FreedAllReleasable` | backend/routes/train.js:154-161 | distinct requested numbers that all name booked seats are all unbooked and reported in request order |
| `Allocation.FreedNone` | backend/routes/train.js:154-167 | a request that names no booked seat unbooks nothing, which is the "No seats were unbooked" case |
| `Allocation.ReleaseAllFreesPicked` | backend/routes/train.js:154-161 | the in-place filter unbooks exactly the booked seats picked by a requested number and keeps exactly the reference result |
| `Allocation.UnbookAgainFreesNothing` | backend/routes/train.js:154-167 | repeating an unbook after it went through unbooks nothing |
| `Allocation.Without` | backend/routes/train.js:171 | a booking's filtered list is no longer than before and holds a number iff the booking held it and it was not unbooked |
| `Allocation.WithoutDropsExactlyFreed` | backend/routes/train.js:170-172 | a booking loses every occurrence of each unbooked number and keeps every other number as often as before; a booking with no unbooked number is unchanged |
| `Allocation.WithoutKeepsOrder` | backend/routes/train.js:171 | the booking filter keeps the order of the remaining numbers (it distributes over concatenation) |
| `Allocation.BookThenUnbookRestores` | backend/routes/train.js:80-92 | unbooking the block just booked unbooks all of it, reports its numbers in order, and restores every seat |
| `Allocation.BlockNumberBooked` | backend/routes/train.js:80-92 | a number of the block just booked named a free seat before the booking and names a booked seat after it |
| `Allocation.BookKeepsLedger` | backend/routes/train.js:80-92 | booking the first-fit block and appending its booking keeps seat numbers distinct and the ledger consistent: booked numbers stay booked, the new booking's numbers are booked now, and no earlier booking holds them |
| `Allocation.UnrequestedStaysBooked` | backend/routes/train.js:154-161 | a booked seat whose number was not requested is still booked after the unbook filter |
| `Allocation.UnbookKeepsLedger` | backend/routes/train.js:154-172 | freeing the requested seats and stripping the freed numbers from every booking keeps the ledger consistent: every number a booking keeps still names a booked seat, and bookings stay pairwise disjoint |
| `Allocation.Train.constructor` | backend/seed.js:48-54 | a train over the given coach, with an empty ledger, satisfying the class invariant (distinct numbers, consistent ledger) |
| `Allocation.Train.Book` | backend/routes/train.js:58-92 | an invalid count (missing, NaN, 0, below 1, above 7) is refused; with no free block it answers "No seats available"; either error leaves seats and ledger untouched; on success it returns the first-fit block of `n` numbers, books exactly those seats (all previously free), and appends one booking holding them; distinct numbers and ledger consistency are preserved |
| `Allocation.Train.ReleaseSeats` | backend/routes/train.js:154-161 | the filter loop unbooks exactly the booked seats named in the request, returns the freed numbers in request order without repeats, keeps seat numbers distinct, and changes nothing when it returns an empty list |
| `Allocation.Train.StripBookings` | backend/routes/train.js:170-172 | every booking drops the unbooked numbers, keeps its others in order, and no booking is removed; it is the second half of an unbook, after which `UnbookKeepsLedger` restores the ledger invariant |
| `Allocation.Train.Unbook` | backend/routes/train.js:132-172 | a missing or empty list is refused; a request that frees nothing answers "No seats were unbooked"; either error leaves seats and ledger untouched; otherwise it returns the freed numbers, unbooks exactly those seats, and strips them from every booking without removing any; distinct numbers and ledger consistency are preserved |
| `Seed.RowSize` | backend/seed.js:28 | every row holds between 1 and 7 seats, and only the last row (12) holds fewer than 7 |
| `Seed.BuildLayout` | backend/seed.js:24-37 | 80 seats; seat k has number k+1 (so numbers are unique and strictly ascending), is free, and sits in row k/7+1; rows are non-decreasing and in 1..12; rows 1-11 hold 7 seats, row 12 holds 3 |
| `Seed.ElemsBound` | backend/seed.js:43-46 | a list of drawn indices holds no more distinct indices than draws |
| `Seed.PreBook` | backend/seed.js:39-46 | exactly the drawn seats become booked; numbers and rows are unchanged; on an all-free coach between 1 and `numBookedSeats` seats end up booked, because draws may repeat |
| `Seed.Seed` | backend/seed.js:24-54 | the seeded train has 80 seats laid out as above, booked exactly at the drawn indices, and an empty ledger |

## Left out

- HTTP routing, status codes and JSON shaping of the routes: request and response plumbing.
  The requested count arrives as `Option<int>`, where `None` is the NaN that `parseInt` gives
  for a non-numeric body. Other `parseInt` behaviour, such as truncating `"3.7"`, is not modelled.
- The unbook request arrives as `Option<seq<int>>`, where `None` is a body that is not an array.
  In the source, elements that are not numbers never match a seat under `===`. The model only
  takes integers.
- The user check (`user-id` header and `Users.findById`) is not modelled. It is a database
  lookup outside the engine, and it runs before anything else.
- The "Train not found" answer is not modelled. The model always has a train.
- Mongoose sessions, `startTransaction`, `commitTransaction`, `abortTransaction`, `save` and
  `markModified` are not modelled, nor are server errors. Atomicity is modelled only as "an
  error leaves seats and ledger unchanged". Concurrent requests and their isolation are not
  modelled.
- `Math.random()` in the seeding script is not modelled. The drawn count and indices are
  parameters.
- Database connect, delete and disconnect, and the scheduled re-seeding, are not modelled. They
  are I/O and process management.
- The frontend is not modelled. Its 1..7 input check repeats the backend's check.
- Coaches with repeated seat numbers are outside the class invariant: `Train.Valid()` requires
  distinct seat numbers and a consistent ledger. The seeded coach has both, and no operation
  changes a number. The per-seat statements in these contracts depend on distinct numbers. For
  a coach with repeated numbers, the reference functions describe the behaviour (`find` picks
  the first seat with a number).
