/** The coach data model shared by the routes and the seeding script:
    seats, bookings, and lookup of a seat by its number. */
module Coach {

  datatype Option<T> = None | Some(value: T)

  datatype Result<T, E> = Ok(value: T) | Err(error: E)

  /** One seat of the coach. `isBooked` is the only field that ever changes. */
  datatype Seat = Seat(number: int, row: int, isBooked: bool)

  /** A booking record: the seat numbers it holds, in allocation order. */
  datatype Booking = Booking(seats: seq<int>)

  /** No two seats of the coach carry the same number. */
  ghost predicate DistinctNumbers(s: seq<Seat>) {
    forall i, j :: 0 <= i < j < |s| ==> s[i].number != s[j].number
  }

  /** Two seat lists that differ at most in which seats are booked. */
  ghost predicate SameLayout(s: seq<Seat>, t: seq<Seat>) {
    |s| == |t| && forall k :: 0 <= k < |s| ==> s[k].number == t[k].number && s[k].row == t[k].row
  }

  /** The seat numbers of `s`, in order: the `seat => seat.number` projection. */
  function Numbers(s: seq<Seat>): (ns: seq<int>)
    ensures |ns| == |s|
    ensures forall k :: 0 <= k < |s| ==> ns[k] == s[k].number
  {
    if s == [] then [] else [s[0].number] + Numbers(s[1..])
  }

  /** The index of the first seat whose number is `x`, as `seats.find(seat => seat.number === x)`
      locates it; `None` when no seat carries that number. */
  function IndexOf(s: seq<Seat>, x: int): (r: Option<nat>)
    ensures r.Some? ==> r.value < |s| && s[r.value].number == x
    ensures r.Some? ==> forall j :: 0 <= j < r.value ==> s[j].number != x
    ensures r.None? ==> forall j :: 0 <= j < |s| ==> s[j].number != x
  {
    if s == [] then None
    else if s[0].number == x then Some(0)
    else match IndexOf(s[1..], x)
      case Some(k) => Some(k + 1)
      case None => None
  }

  /** `find` looks only at numbers, so flipping `isBooked` never moves its answer. */
  lemma IndexOfSameLayout(s: seq<Seat>, t: seq<Seat>, x: int)
    requires SameLayout(s, t)
    ensures IndexOf(s, x) == IndexOf(t, x)
  {
  }

  /** With distinct numbers, `find` answers with the seat itself. */
  lemma IndexOfDistinct(s: seq<Seat>, k: int)
    requires DistinctNumbers(s) && 0 <= k < |s|
    ensures IndexOf(s, s[k].number) == Some(k)
  {
  }

  /** Seat `k` is the seat `find` returns for one of the numbers in `nums`. */
  ghost predicate Picked(s: seq<Seat>, k: int, nums: seq<int>)
    requires 0 <= k < |s|
  {
    s[k].number in nums && IndexOf(s, s[k].number) == Some(k)
  }
}
