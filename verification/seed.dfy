/** Coach generation of the seeding script: the fixed seat layout, the demonstration
    pre-booking of a few seats, and the fresh train built from them. */
module Seed {
  import opened Coach
  import Allocation

  const Rows := 12
  const SeatsPerRow := 7
  const LastRowSeats := 3
  /** Eleven full rows of seven and a last row of three. */
  const TotalSeats := 80

  /** The number of seats in `row`: only the last row is short. */
  function RowSize(row: int): (size: int)
    ensures 0 < size <= SeatsPerRow
    ensures size < SeatsPerRow <==> row == Rows
  {
    if row == Rows then LastRowSeats else SeatsPerRow
  }

  /** The nested loop over rows and seats that pushes each seat with the next number. */
  method BuildLayout() returns (seats: seq<Seat>)
    ensures |seats| == TotalSeats
    ensures forall k :: 0 <= k < |seats| ==> seats[k] == Seat(k + 1, k / SeatsPerRow + 1, false)
    ensures forall k :: 0 <= k < |seats| ==> 1 <= seats[k].row <= Rows
    ensures forall i, j :: 0 <= i < j < |seats| ==>
              seats[i].number < seats[j].number && seats[i].row <= seats[j].row
    ensures forall k, row :: 0 <= k < |seats| && 1 <= row <= Rows ==>
              (seats[k].row == row <==>
                 SeatsPerRow * (row - 1) <= k < SeatsPerRow * (row - 1) + RowSize(row))
  {
    seats := [];
    var number := 1;
    for row := 1 to Rows + 1
      invariant |seats| == if row <= Rows then SeatsPerRow * (row - 1) else TotalSeats
      invariant number == |seats| + 1
      invariant forall k :: 0 <= k < |seats| ==> seats[k] == Seat(k + 1, k / SeatsPerRow + 1, false)
    {
      var numSeatsInRow := RowSize(row);
      for seat := 1 to numSeatsInRow + 1
        invariant |seats| == SeatsPerRow * (row - 1) + (seat - 1)
        invariant number == |seats| + 1
        invariant forall k :: 0 <= k < |seats| ==> seats[k] == Seat(k + 1, k / SeatsPerRow + 1, false)
      {
        assert |seats| / SeatsPerRow == row - 1;
        seats := seats + [Seat(number, row, false)];
        number := number + 1;
      }
    }
  }

  /** The set of indices holding a booked seat. */
  ghost function BookedIndices(s: seq<Seat>): set<int> {
    set k | 0 <= k < |s| && s[k].isBooked
  }

  /** The distinct values of `xs`. */
  ghost function Elems(xs: seq<int>): set<int>
    decreases |xs|
  {
    if xs == [] then {} else Elems(xs[..|xs| - 1]) + {xs[|xs| - 1]}
  }

  /** A list holds no more distinct values than it has elements. */
  lemma {:induction false} ElemsBound(xs: seq<int>)
    ensures forall x :: x in Elems(xs) <==> x in xs
    ensures |Elems(xs)| <= |xs|
    decreases |xs|
  {
    if xs != [] {
      var init := xs[..|xs| - 1];
      assert xs == init + [xs[|xs| - 1]];
      ElemsBound(init);
    }
  }

  /** The pre-booking loop: `picks` are the random indices drawn, one per iteration, and
      their count is the random `numBookedSeats` in 6..8. Each drawn seat is set booked. */
  method PreBook(seats: seq<Seat>, picks: seq<int>) returns (booked: seq<Seat>)
    requires 6 <= |picks| <= 8
    requires forall i :: 0 <= i < |picks| ==> 0 <= picks[i] < |seats|
    ensures SameLayout(seats, booked)
    ensures forall k :: 0 <= k < |seats| ==> booked[k].isBooked == (seats[k].isBooked || k in picks)
    ensures (forall k :: 0 <= k < |seats| ==> !seats[k].isBooked) ==>
              1 <= |BookedIndices(booked)| <= |picks|
  {
    booked := seats;
    for i := 0 to |picks|
      invariant SameLayout(seats, booked)
      invariant forall k :: 0 <= k < |seats| ==>
                  booked[k].isBooked == (seats[k].isBooked || k in picks[..i])
    {
      assert picks[..i + 1] == picks[..i] + [picks[i]];
      var randomIndex := picks[i];
      booked := booked[randomIndex := booked[randomIndex].(isBooked := true)];
    }
    assert picks[..|picks|] == picks;
    if forall k :: 0 <= k < |seats| ==> !seats[k].isBooked {
      ElemsBound(picks);
      assert BookedIndices(booked) == Elems(picks);
      assert picks[0] in BookedIndices(booked);
    }
  }

  /** The seeding script: lay out the coach, pre-book the drawn seats, and store a train
      with that coach and no bookings. */
  method Seed(picks: seq<int>) returns (train: Allocation.Train)
    requires 6 <= |picks| <= 8
    requires forall i :: 0 <= i < |picks| ==> 0 <= picks[i] < TotalSeats
    ensures fresh(train) && fresh(train.seats)
    ensures train.Valid() && train.bookings == []
    ensures train.seats.Length == TotalSeats
    ensures forall k :: 0 <= k < TotalSeats ==>
              train.seats[k] == Seat(k + 1, k / SeatsPerRow + 1, k in picks)
  {
    var seats := BuildLayout();
    seats := PreBook(seats, picks);
    train := new Allocation.Train(seats);
  }
}
