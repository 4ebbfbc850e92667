/** The seat-allocation engine behind the train routes: the first-fit scan for a block of
    free seats, booking a block, unbooking a list of seat numbers, and the seat-state view. */
module Allocation {
  import opened Coach

  /** The most seats one booking may ask for. */
  const MaxSeatsPerBooking := 7

  datatype BookError = InvalidSeatCount | NoSeatsAvailable

  datatype UnbookError = NoSeatsSpecified | NoSeatsUnbooked

  /** The count check of the book route: a count that is falsy (missing or zero), below one
      or above seven is refused. `None` stands for the NaN that parsing a non-numeric count
      yields, which is falsy too. The accepted counts are exactly 1 to 7. */
  predicate ValidCount(numSeats: Option<int>): (ok: bool)
    ensures ok <==> numSeats.Some? && 1 <= numSeats.value <= MaxSeatsPerBooking
  {
    match numSeats
    case None => false
    case Some(n) => !(n == 0 || n < 1 || n > MaxSeatsPerBooking)
  }

  /** No number occurs twice in `xs`. */
  ghost predicate NoDuplicates(xs: seq<int>) {
    forall i, j :: 0 <= i < j < |xs| ==> xs[i] != xs[j]
  }

  // ---------------------------------------------------------------------------------------
  // The seat-state view of the GET route
  // ---------------------------------------------------------------------------------------

  /** `seats.map(seat => seat.isBooked)`: one flag per seat, in coach order. */
  function BookedFlags(s: seq<Seat>): (flags: seq<bool>)
    ensures |flags| == |s|
    ensures forall k :: 0 <= k < |s| ==> flags[k] == s[k].isBooked
  {
    if s == [] then [] else [s[0].isBooked] + BookedFlags(s[1..])
  }

  // ---------------------------------------------------------------------------------------
  // Availability scan
  // ---------------------------------------------------------------------------------------

  /** Seats `lo .. lo+n-1` exist and none of them is booked. */
  ghost predicate FreeRun(s: seq<Seat>, lo: int, n: int) {
    0 <= lo && lo + n <= |s| && forall k :: lo <= k < lo + n ==> !s[k].isBooked
  }

  /** Reference definition of first fit: try every start position from `lo` upwards and
      take the first one that begins `n` free seats. */
  ghost function FirstFitFrom(s: seq<Seat>, n: int, lo: nat): (r: Option<nat>)
    requires 1 <= n
    ensures r.Some? ==> lo <= r.value && FreeRun(s, r.value, n)
    decreases |s| - lo
  {
    if lo + n > |s| then None
    else if FreeRun(s, lo, n) then Some(lo)
    else FirstFitFrom(s, n, lo + 1)
  }

  /** The start of the earliest block of `n` free seats; a count below one never matches. */
  ghost function FirstFit(s: seq<Seat>, n: int): (r: Option<nat>)
    ensures r.Some? ==> 1 <= n && FreeRun(s, r.value, n)
  {
    if n < 1 then None else FirstFitFrom(s, n, 0)
  }

  lemma {:induction false} FirstFitFromEarliest(s: seq<Seat>, n: int, lo: nat)
    requires 1 <= n
    ensures FirstFitFrom(s, n, lo).Some? ==>
              forall j :: lo <= j < FirstFitFrom(s, n, lo).value ==> !FreeRun(s, j, n)
    ensures FirstFitFrom(s, n, lo).None? ==> forall j :: lo <= j ==> !FreeRun(s, j, n)
    decreases |s| - lo
  {
    if lo + n > |s| {
    } else if FreeRun(s, lo, n) {
    } else {
      FirstFitFromEarliest(s, n, lo + 1);
    }
  }

  /** First fit: no block of `n` free seats starts, or equivalently ends, before the chosen one. */
  lemma FirstFitIsEarliest(s: seq<Seat>, n: int)
    requires FirstFit(s, n).Some?
    ensures forall j :: 0 <= j < FirstFit(s, n).value ==> !FreeRun(s, j, n)
  {
    FirstFitFromEarliest(s, n, 0);
  }

  /** The scan comes back empty exactly when the coach holds no `n` consecutive free seats. */
  lemma FirstFitNoneIffNoFreeRun(s: seq<Seat>, n: int)
    requires 1 <= n
    ensures FirstFit(s, n).None? <==> forall j :: !FreeRun(s, j, n)
  {
    FirstFitFromEarliest(s, n, 0);
  }

  /** A free block with no free block before it is the one first fit picks. */
  lemma FirstFitUnique(s: seq<Seat>, n: int, k: int)
    requires 1 <= n && FreeRun(s, k, n)
    requires forall j :: 0 <= j < k ==> !FreeRun(s, j, n)
    ensures FirstFit(s, n) == Some(k)
  {
    FirstFitFromEarliest(s, n, 0);
  }

  /** The seat numbers the scan hands back: those of the first-fit block. */
  ghost function Window(s: seq<Seat>, n: int): (r: Option<seq<int>>)
    ensures r.Some? <==> FirstFit(s, n).Some?
    ensures r.Some? ==> |r.value| == n
    ensures r.Some? ==> forall i :: 0 <= i < n ==> r.value[i] == s[FirstFit(s, n).value + i].number
  {
    match FirstFit(s, n)
    case Some(k) => Some(Numbers(s[k..k + n]))
    case None => None
  }

  /** `findAvailableSeats`: one left-to-right pass counting the current run of free seats;
      as soon as the run reaches `numSeats` the numbers of that run are returned. */
  method FindAvailableSeats(seats: array<Seat>, numSeats: int) returns (r: Option<seq<int>>)
    ensures r == Window(seats[..], numSeats)
  {
    var currentSequence := 0;
    var start := 0;
    for i := 0 to seats.Length
      invariant 0 <= currentSequence <= i
      invariant 1 <= numSeats ==> currentSequence < numSeats
      invariant forall k :: i - currentSequence <= k < i ==> !seats[k].isBooked
      invariant currentSequence < i ==> seats[i - currentSequence - 1].isBooked
      invariant 0 < currentSequence ==> start == i - currentSequence
      invariant 1 <= numSeats ==>
                  forall j :: 0 <= j && j + numSeats <= i ==> !FreeRun(seats[..], j, numSeats)
    {
      if !seats[i].isBooked {
        currentSequence := currentSequence + 1;
        if currentSequence == 1 {
          start := i;
        }
        if currentSequence == numSeats {
          assert FreeRun(seats[..], start, numSeats);
          FirstFitUnique(seats[..], numSeats, start);
          return Some(Numbers(seats[start..i + 1]));
        }
      } else {
        currentSequence := 0;
      }
      if 1 <= numSeats && i + 1 - numSeats >= 0 {
        if currentSequence < i + 1 {
          assert seats[..][i - currentSequence].isBooked;
        }
        assert !FreeRun(seats[..], i + 1 - numSeats, numSeats);
      }
    }
    if 1 <= numSeats {
      FirstFitNoneIffNoFreeRun(seats[..], numSeats);
    }
    return None;
  }

  // ---------------------------------------------------------------------------------------
  // Booking
  // ---------------------------------------------------------------------------------------

  /** One step of `markSeatsAsBooked`: `find` the first seat carrying `x` and book it. */
  ghost function MarkOne(s: seq<Seat>, x: int): (t: seq<Seat>)
    ensures SameLayout(s, t)
    ensures forall k :: 0 <= k < |s| ==> t[k].isBooked == (s[k].isBooked || IndexOf(s, x) == Some(k))
  {
    match IndexOf(s, x)
    case Some(k) => s[k := s[k].(isBooked := true)]
    case None => s
  }

  /** The coach after `markSeatsAsBooked` has gone through `nums` in order. */
  ghost function MarkAll(s: seq<Seat>, nums: seq<int>): (t: seq<Seat>)
    ensures SameLayout(s, t)
    decreases |nums|
  {
    if nums == [] then s else MarkOne(MarkAll(s, nums[..|nums| - 1]), nums[|nums| - 1])
  }

  /** Marking books exactly the seats that `find` picks for the given numbers. */
  lemma {:induction false} MarkAllBooksPicked(s: seq<Seat>, nums: seq<int>)
    ensures forall k :: 0 <= k < |s| ==>
              MarkAll(s, nums)[k].isBooked == (s[k].isBooked || Picked(s, k, nums))
    decreases |nums|
  {
    if nums != [] {
      var init, x := nums[..|nums| - 1], nums[|nums| - 1];
      assert nums == init + [x];
      MarkAllBooksPicked(s, init);
      IndexOfSameLayout(s, MarkAll(s, init), x);
    }
  }

  /** `markSeatsAsBooked`: for each number, the first seat carrying it is set booked in place. */
  method MarkSeatsAsBooked(seats: array<Seat>, bookedSeats: seq<int>)
    modifies seats
    ensures seats[..] == MarkAll(old(seats[..]), bookedSeats)
  {
    for j := 0 to |bookedSeats|
      invariant seats[..] == MarkAll(old(seats[..]), bookedSeats[..j])
    {
      assert bookedSeats[..j + 1][..j] == bookedSeats[..j];
      match IndexOf(seats[..], bookedSeats[j]) {
        case Some(k) =>
          seats[k] := seats[k].(isBooked := true);
        case None =>
      }
    }
    assert bookedSeats[..|bookedSeats|] == bookedSeats;
  }

  /** With distinct numbers, a seat's number is among the found block's numbers exactly when
      the seat lies in the block. */
  lemma InBlockIffInWindow(s: seq<Seat>, n: int, j: int)
    requires DistinctNumbers(s) && Window(s, n).Some? && 0 <= j < |s|
    ensures var w, k := Window(s, n).value, FirstFit(s, n).value;
      s[j].number in w <==> k <= j < k + n
  {
    var w, k := Window(s, n).value, FirstFit(s, n).value;
    if k <= j < k + n {
      assert w[j - k] == s[j].number;
    }
    if s[j].number in w {
      var i :| 0 <= i < |w| && w[i] == s[j].number;
      assert s[k + i].number == s[j].number;
    }
  }

  /** Booking the block the scan found books exactly the seats of that block, every one of
      which was free before, and leaves every other seat as it was. */
  lemma BookMarksExactlyTheBlock(s: seq<Seat>, n: int)
    requires DistinctNumbers(s) && Window(s, n).Some?
    ensures var w, k := Window(s, n).value, FirstFit(s, n).value;
      SameLayout(s, MarkAll(s, w)) &&
      (forall j :: k <= j < k + n ==> !s[j].isBooked) &&
      (forall j :: 0 <= j < |s| ==> (s[j].number in w <==> k <= j < k + n)) &&
      (forall j :: 0 <= j < |s| ==> MarkAll(s, w)[j].isBooked == (s[j].isBooked || s[j].number in w))
  {
    var w, k := Window(s, n).value, FirstFit(s, n).value;
    MarkAllBooksPicked(s, w);
    forall j | 0 <= j < |s|
      ensures (s[j].number in w <==> k <= j < k + n) && (Picked(s, j, w) <==> s[j].number in w)
    {
      IndexOfDistinct(s, j);
      InBlockIffInWindow(s, n, j);
    }
  }

  // ---------------------------------------------------------------------------------------
  // Unbooking
  // ---------------------------------------------------------------------------------------

  /** Number `x` names an existing seat (the first carrying it) that is booked. */
  ghost predicate Releasable(s: seq<Seat>, x: int) {
    match IndexOf(s, x)
    case Some(k) => s[k].isBooked
    case None => false
  }

  /** Reference definition of what an unbook frees, judged on the coach before the request:
      the requested numbers that name a booked seat, each at its first occurrence, in
      request order. */
  ghost function Freed(s: seq<Seat>, req: seq<int>): (freed: seq<int>)
    ensures |freed| <= |req|
    ensures forall x :: x in freed ==> x in req
    decreases |req|
  {
    if req == [] then []
    else
      var init, x := req[..|req| - 1], req[|req| - 1];
      Freed(s, init) + (if Releasable(s, x) && x !in init then [x] else [])
  }

  /** The unbook filter as it runs: each requested number looks its seat up in the coach
      as the earlier numbers have left it, frees it if booked and is kept; the pair is the
      new coach and the kept numbers. */
  ghost function ReleaseAll(s: seq<Seat>, req: seq<int>): (r: (seq<Seat>, seq<int>))
    ensures SameLayout(s, r.0)
    ensures |r.1| <= |req|
    ensures forall x :: x in r.1 ==> x in req
    decreases |req|
  {
    if req == [] then (s, [])
    else
      var prev := ReleaseAll(s, req[..|req| - 1]);
      var t, x := prev.0, req[|req| - 1];
      match IndexOf(t, x)
      case Some(k) =>
        if t[k].isBooked then (t[k := t[k].(isBooked := false)], prev.1 + [x]) else prev
      case None => prev
  }

  /** A number is freed exactly when it was requested and named a booked seat. */
  lemma {:induction false} FreedMembers(s: seq<Seat>, req: seq<int>)
    ensures forall x :: x in Freed(s, req) <==> x in req && Releasable(s, x)
    decreases |req|
  {
    if req != [] {
      var init, x := req[..|req| - 1], req[|req| - 1];
      FreedMembers(s, init);
    }
  }

  /** A seat number requested twice is freed once. */
  lemma {:induction false} FreedNoDuplicates(s: seq<Seat>, req: seq<int>)
    ensures NoDuplicates(Freed(s, req))
    decreases |req|
  {
    if req != [] {
      var init := req[..|req| - 1];
      FreedNoDuplicates(s, init);
      FreedMembers(s, init);
    }
  }

  /** Requesting distinct numbers that all name booked seats frees all of them, in order. */
  lemma {:induction false} FreedAllReleasable(s: seq<Seat>, req: seq<int>)
    requires NoDuplicates(req)
    requires forall i :: 0 <= i < |req| ==> Releasable(s, req[i])
    ensures Freed(s, req) == req
    decreases |req|
  {
    if req != [] {
      var init, x := req[..|req| - 1], req[|req| - 1];
      forall i | 0 <= i < |init| ensures init[i] == req[i] && init[i] != x {
        assert req[i] != req[|req| - 1];
      }
      assert Releasable(s, req[|req| - 1]);
      FreedAllReleasable(s, init);
      assert x !in init;
      assert req == init + [x];
    }
  }

  /** The in-place filter frees exactly the seats `find` picks among the booked ones, and
      keeps exactly the numbers of the reference definition. */
  lemma {:induction false} ReleaseAllFreesPicked(s: seq<Seat>, req: seq<int>)
    ensures forall k :: 0 <= k < |s| ==>
              ReleaseAll(s, req).0[k].isBooked == (s[k].isBooked && !Picked(s, k, req))
    ensures ReleaseAll(s, req).1 == Freed(s, req)
    decreases |req|
  {
    if req != [] {
      var init, x := req[..|req| - 1], req[|req| - 1];
      assert req == init + [x];
      ReleaseAllFreesPicked(s, init);
      IndexOfSameLayout(s, ReleaseAll(s, init).0, x);
      match IndexOf(s, x)
      case Some(m) =>
        assert Picked(s, m, init) <==> x in init;
      case None =>
    }
  }

  /** A request naming no booked seat frees nothing. */
  lemma {:induction false} FreedNone(s: seq<Seat>, req: seq<int>)
    requires forall i :: 0 <= i < |req| ==> !Releasable(s, req[i])
    ensures Freed(s, req) == []
    decreases |req|
  {
    if req != [] {
      var init := req[..|req| - 1];
      assert forall i :: 0 <= i < |init| ==> init[i] == req[i];
      FreedNone(s, init);
    }
  }

  /** Repeating an unbook that went through frees nothing the second time. */
  lemma UnbookAgainFreesNothing(s: seq<Seat>, req: seq<int>)
    ensures Freed(ReleaseAll(s, req).0, req) == []
  {
    var t := ReleaseAll(s, req).0;
    ReleaseAllFreesPicked(s, req);
    forall i | 0 <= i < |req| ensures !Releasable(t, req[i]) {
      IndexOfSameLayout(s, t, req[i]);
      if IndexOf(s, req[i]).Some? {
        assert Picked(s, IndexOf(s, req[i]).value, req);
      }
    }
    FreedNone(t, req);
  }

  /** `booking.seats.filter(n => !unbookedSeats.includes(n))`. */
  function Without(b: seq<int>, freed: seq<int>): (kept: seq<int>)
    ensures |kept| <= |b|
    ensures forall x :: x in kept <==> x in b && x !in freed
  {
    if b == [] then [] else (if b[0] in freed then [] else [b[0]]) + Without(b[1..], freed)
  }

  /** A booking loses every occurrence of a freed number and keeps every other number
      as often as it held it; a booking with no freed number is left as it was. */
  lemma {:induction false} WithoutDropsExactlyFreed(b: seq<int>, freed: seq<int>)
    ensures forall x :: multiset(Without(b, freed))[x] == if x in freed then 0 else multiset(b)[x]
    ensures (forall i :: 0 <= i < |b| ==> b[i] !in freed) ==> Without(b, freed) == b
  {
    if b != [] {
      assert b == [b[0]] + b[1..];
      WithoutDropsExactlyFreed(b[1..], freed);
    }
  }

  /** Filtering keeps the order: it distributes over concatenation. */
  lemma {:induction false} WithoutKeepsOrder(a: seq<int>, b: seq<int>, freed: seq<int>)
    ensures Without(a + b, freed) == Without(a, freed) + Without(b, freed)
  {
    if a != [] {
      assert (a + b)[1..] == a[1..] + b;
      WithoutKeepsOrder(a[1..], b, freed);
    } else {
      assert a + b == b;
    }
  }

  /** Unbooking the block a booking has just taken frees that whole block, returns its
      numbers in order and puts every seat back as it was. */
  lemma BookThenUnbookRestores(s: seq<Seat>, n: int)
    requires DistinctNumbers(s) && Window(s, n).Some?
    ensures ReleaseAll(MarkAll(s, Window(s, n).value), Window(s, n).value) == (s, Window(s, n).value)
  {
    var w, k := Window(s, n).value, FirstFit(s, n).value;
    var t := MarkAll(s, w);
    BookMarksExactlyTheBlock(s, n);
    ReleaseAllFreesPicked(t, w);
    var u := ReleaseAll(t, w).0;
    assert DistinctNumbers(t);
    forall j | 0 <= j < |s| ensures u[j] == s[j] {
      IndexOfDistinct(t, j);
    }
    assert u == s;
    assert NoDuplicates(w) by {
      forall i, i' | 0 <= i < i' < |w| ensures w[i] != w[i'] {
        assert s[k + i].number != s[k + i'].number;
      }
    }
    forall i | 0 <= i < |w| ensures Releasable(t, w[i]) {
      BlockNumberBooked(s, n, w[i]);
    }
    FreedAllReleasable(t, w);
  }

  // ---------------------------------------------------------------------------------------
  // The booking ledger
  // ---------------------------------------------------------------------------------------

  /** Every number a booking holds names a booked seat. */
  ghost predicate Held(s: seq<Seat>, b: Booking) {
    forall x :: x in b.seats ==> Releasable(s, x)
  }

  /** No number is held by both bookings. */
  ghost predicate Disjoint(a: Booking, b: Booking) {
    forall x :: x in a.seats ==> x !in b.seats
  }

  /** The part of ledger consistency the routes keep: every number held by a booking names
      a booked seat, and no number is held by two bookings. (Seats may be booked without any
      booking holding them: seeding books seats and records no booking.) */
  ghost predicate LedgerOk(s: seq<Seat>, bookings: seq<Booking>) {
    (forall i :: 0 <= i < |bookings| ==> Held(s, bookings[i])) &&
    (forall i, j :: 0 <= i < j < |bookings| ==> Disjoint(bookings[i], bookings[j]))
  }

  /** A number of the block just booked named a free seat before and a booked one after. */
  lemma BlockNumberBooked(s: seq<Seat>, n: int, x: int)
    requires DistinctNumbers(s) && Window(s, n).Some? && x in Window(s, n).value
    ensures !Releasable(s, x) && Releasable(MarkAll(s, Window(s, n).value), x)
  {
    var w, k := Window(s, n).value, FirstFit(s, n).value;
    BookMarksExactlyTheBlock(s, n);
    var i :| 0 <= i < |w| && w[i] == x;
    IndexOfDistinct(s, k + i);
    IndexOfSameLayout(s, MarkAll(s, w), x);
  }

  /** Booking the first-fit block and appending its booking keeps the ledger consistent:
      the block's seats were free, so no earlier booking holds their numbers. */
  lemma BookKeepsLedger(s: seq<Seat>, bookings: seq<Booking>, n: int)
    requires DistinctNumbers(s) && LedgerOk(s, bookings) && Window(s, n).Some?
    ensures DistinctNumbers(MarkAll(s, Window(s, n).value))
    ensures LedgerOk(MarkAll(s, Window(s, n).value), bookings + [Booking(Window(s, n).value)])
  {
    var w := Window(s, n).value;
    var t, bs := MarkAll(s, w), bookings + [Booking(w)];
    BookMarksExactlyTheBlock(s, n);
    forall i | 0 <= i < |bs| ensures Held(t, bs[i]) {
      forall x | x in bs[i].seats ensures Releasable(t, x) {
        if i < |bookings| {
          assert Held(s, bookings[i]);
          IndexOfSameLayout(s, t, x);
        } else {
          BlockNumberBooked(s, n, x);
        }
      }
    }
    forall i, j | 0 <= i < j < |bs| ensures Disjoint(bs[i], bs[j]) {
      if j == |bookings| {
        forall x | x in bs[i].seats ensures x !in w {
          assert Held(s, bookings[i]);
          if x in w {
            BlockNumberBooked(s, n, x);
          }
        }
      } else {
        assert Disjoint(bookings[i], bookings[j]);
      }
    }
  }

  /** A booked seat whose number was not requested is still booked after the unbook. */
  lemma UnrequestedStaysBooked(s: seq<Seat>, req: seq<int>, x: int)
    requires Releasable(s, x) && x !in req
    ensures Releasable(ReleaseAll(s, req).0, x)
  {
    ReleaseAllFreesPicked(s, req);
    IndexOfSameLayout(s, ReleaseAll(s, req).0, x);
  }

  /** Unbooking keeps the ledger consistent when every booking drops the freed numbers:
      a number a booking keeps was not freed, so its seat stays booked. */
  lemma UnbookKeepsLedger(s: seq<Seat>, bookings: seq<Booking>, req: seq<int>, stripped: seq<Booking>)
    requires LedgerOk(s, bookings)
    requires |stripped| == |bookings|
    requires forall i :: 0 <= i < |bookings| ==>
               stripped[i] == Booking(Without(bookings[i].seats, Freed(s, req)))
    ensures LedgerOk(ReleaseAll(s, req).0, stripped)
  {
    var t, f := ReleaseAll(s, req).0, Freed(s, req);
    FreedMembers(s, req);
    forall i | 0 <= i < |stripped| ensures Held(t, stripped[i]) {
      forall x | x in stripped[i].seats ensures Releasable(t, x) {
        assert x in bookings[i].seats && x !in f;
        assert Held(s, bookings[i]);
        UnrequestedStaysBooked(s, req, x);
      }
    }
    forall i, j | 0 <= i < j < |stripped| ensures Disjoint(stripped[i], stripped[j]) {
      assert Disjoint(bookings[i], bookings[j]);
    }
  }

  // ---------------------------------------------------------------------------------------
  // The train: the coach's seats and the booking ledger
  // ---------------------------------------------------------------------------------------

  class Train {
    /** The coach's seats; their `isBooked` flags are flipped in place. */
    const seats: array<Seat>
    /** The booking ledger, in creation order. */
    var bookings: seq<Booking>

    /** Seat numbers identify seats (the seeded coach has distinct numbers and no operation
        ever changes a number), and the ledger is consistent with the seats. */
    ghost predicate Valid()
      reads this, seats
    {
      DistinctNumbers(seats[..]) && LedgerOk(seats[..], bookings)
    }

    /** A train over the given coach with an empty ledger. */
    constructor (coach: seq<Seat>)
      requires DistinctNumbers(coach)
      ensures Valid() && fresh(seats)
      ensures seats[..] == coach && bookings == []
    {
      seats := new Seat[|coach|](k requires 0 <= k < |coach| => coach[k]);
      bookings := [];
      new;
      assert seats[..] == coach;
    }

    /** The book route: validate the count, run the scan, book the block, record it.
        Either every update happens or, on an error, none does. */
    method Book(numSeats: Option<int>) returns (r: Result<seq<int>, BookError>)
      requires Valid()
      modifies this, seats
      ensures Valid()
      ensures r.Err? ==> seats[..] == old(seats[..]) && bookings == old(bookings)
      ensures r == Err(InvalidSeatCount) <==> !ValidCount(numSeats)
      ensures r == Err(NoSeatsAvailable) <==>
                ValidCount(numSeats) && FirstFit(old(seats[..]), numSeats.value).None?
      ensures r.Ok? ==> ValidCount(numSeats)
      ensures r.Ok? ==> Window(old(seats[..]), numSeats.value) == Some(r.value)
      ensures r.Ok? ==> seats[..] == MarkAll(old(seats[..]), r.value)
      ensures r.Ok? ==> bookings == old(bookings) + [Booking(r.value)]
      ensures r.Ok? ==> |r.value| == numSeats.value
      ensures r.Ok? ==>
                forall k :: 0 <= k < seats.Length ==>
                  seats[k].number == old(seats[k].number) && seats[k].row == old(seats[k].row) &&
                  (old(seats[k].number) in r.value ==> !old(seats[k].isBooked)) &&
                  seats[k].isBooked == (old(seats[k].isBooked) || old(seats[k].number) in r.value)
    {
      if !ValidCount(numSeats) {
        return Err(InvalidSeatCount);
      }
      var n := numSeats.value;
      var availableSeats := FindAvailableSeats(seats, n);
      if availableSeats.None? {
        return Err(NoSeatsAvailable);
      }
      ghost var s := seats[..];
      BookMarksExactlyTheBlock(s, n);
      BookKeepsLedger(s, bookings, n);
      MarkSeatsAsBooked(seats, availableSeats.value);
      bookings := bookings + [Booking(availableSeats.value)];
      assert seats[..] == MarkAll(s, availableSeats.value);
      forall k | 0 <= k < seats.Length
        ensures seats[k].number == old(seats[k].number) && seats[k].row == old(seats[k].row)
        ensures old(seats[k].number) in availableSeats.value ==> !old(seats[k].isBooked)
        ensures seats[k].isBooked == (old(seats[k].isBooked) || old(seats[k].number) in availableSeats.value)
      {
        assert seats[k] == seats[..][k] && old(seats[k]) == s[k];
      }
      r := Ok(availableSeats.value);
    }

    /** The unbook filter: each requested number, in order, frees the seat carrying it when
        that seat is booked, and is kept in the result. Until the bookings are stripped the
        ledger may still hold freed numbers, so only distinct numbers are required and kept. */
    method ReleaseSeats(req: seq<int>) returns (unbookedSeats: seq<int>)
      requires DistinctNumbers(seats[..])
      modifies seats
      ensures DistinctNumbers(seats[..])
      ensures (seats[..], unbookedSeats) == ReleaseAll(old(seats[..]), req)
      ensures unbookedSeats == Freed(old(seats[..]), req)
      ensures forall k :: 0 <= k < seats.Length ==>
                seats[k].number == old(seats[k].number) && seats[k].row == old(seats[k].row) &&
                seats[k].isBooked == (old(seats[k].isBooked) && old(seats[k].number) !in req)
      ensures unbookedSeats == [] ==> seats[..] == old(seats[..])
    {
      unbookedSeats := [];
      for j := 0 to |req|
        invariant (seats[..], unbookedSeats) == ReleaseAll(old(seats[..]), req[..j])
      {
        assert req[..j + 1][..j] == req[..j];
        var seatNumber := req[j];
        match IndexOf(seats[..], seatNumber) {
          case Some(k) =>
            if seats[k].isBooked {
              seats[k] := seats[k].(isBooked := false);
              unbookedSeats := unbookedSeats + [seatNumber];
            }
          case None =>
        }
      }
      assert req[..|req|] == req;
      ghost var s := old(seats[..]);
      ReleaseAllFreesPicked(s, req);
      FreedMembers(s, req);
      forall k | 0 <= k < seats.Length
        ensures seats[k].isBooked == (s[k].isBooked && s[k].number !in req)
        ensures s[k].isBooked && s[k].number in req ==> s[k].number in unbookedSeats
      {
        IndexOfDistinct(s, k);
      }
    }

    /** `bookings.forEach(...)`: every booking drops the freed numbers; none is removed. This
        is the second half of an unbook, run after the seats were freed; `Unbook` restores the
        ledger invariant with it (see `UnbookKeepsLedger`). */
    method StripBookings(unbookedSeats: seq<int>)
      modifies this
      ensures |bookings| == |old(bookings)|
      ensures forall i :: 0 <= i < |bookings| ==>
                bookings[i] == Booking(Without(old(bookings)[i].seats, unbookedSeats))
    {
      for i := 0 to |bookings|
        invariant |bookings| == |old(bookings)|
        invariant forall j :: 0 <= j < i ==>
                    bookings[j] == Booking(Without(old(bookings)[j].seats, unbookedSeats))
        invariant forall j :: i <= j < |bookings| ==> bookings[j] == old(bookings)[j]
      {
        bookings := bookings[i := Booking(Without(bookings[i].seats, unbookedSeats))];
      }
    }

    /** The unbook route: refuse a missing or empty list, free what can be freed, refuse when
        nothing was, and strip the freed numbers from every booking. Either every update
        happens or, on an error, none does. */
    method Unbook(request: Option<seq<int>>) returns (r: Result<seq<int>, UnbookError>)
      requires Valid()
      modifies this, seats
      ensures Valid()
      ensures r.Err? ==> seats[..] == old(seats[..]) && bookings == old(bookings)
      ensures r == Err(NoSeatsSpecified) <==> request.None? || request.value == []
      ensures r == Err(NoSeatsUnbooked) <==>
                request.Some? && request.value != [] && Freed(old(seats[..]), request.value) == []
      ensures r.Ok? ==> request.Some? && r.value == Freed(old(seats[..]), request.value)
      ensures r.Ok? ==> (seats[..], r.value) == ReleaseAll(old(seats[..]), request.value)
      ensures r.Ok? ==>
                forall k :: 0 <= k < seats.Length ==>
                  seats[k].number == old(seats[k].number) && seats[k].row == old(seats[k].row) &&
                  seats[k].isBooked == (old(seats[k].isBooked) && old(seats[k].number) !in request.value)
      ensures r.Ok? ==> |bookings| == |old(bookings)|
      ensures r.Ok? ==>
                forall i :: 0 <= i < |bookings| ==>
                  bookings[i] == Booking(Without(old(bookings)[i].seats, r.value))
    {
      if request.None? || request.value == [] {
        return Err(NoSeatsSpecified);
      }
      var unbookedSeats := ReleaseSeats(request.value);
      if unbookedSeats == [] {
        return Err(NoSeatsUnbooked);
      }
      StripBookings(unbookedSeats);
      UnbookKeepsLedger(old(seats[..]), old(bookings), request.value, bookings);
      r := Ok(unbookedSeats);
    }
  }
}
