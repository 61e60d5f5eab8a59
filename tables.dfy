/**
 * The relational tables of the reservation database (seats, users,
 * bookings, events) and the Prisma queries the core issues on them:
 * `findFirst`, `update`/`updateMany` of a seat's status, `upsert` of a
 * user and `deleteMany` of bookings.
 */
module Tables {
  import opened Wrappers

  datatype SeatStatus = Available | Locked | Booked

  datatype Seat = Seat(id: nat, number: int, row: string, status: SeatStatus, eventId: nat)

  datatype User = User(id: string, email: string, name: string)

  datatype Booking = Booking(id: nat, userId: string, seatId: nat)

  datatype Event = Event(id: nat, name: string, date: string, totalSeats: int)

  /** The `where` filters the core puts on the seat table. */
  datatype Where = NumberIs(number: int) | StatusIs(status: SeatStatus) | IdIs(id: nat)

  predicate Matches(s: Seat, w: Where) {
    match w
    case NumberIs(n) => s.number == n
    case StatusIs(st) => s.status == st
    case IdIs(id) => s.id == id
  }

  /** `findFirst({ where })`: the position of the first seat, in table order, that matches. */
  function FindFirst(seats: seq<Seat>, w: Where): (r: Option<nat>)
    ensures r.Some? ==> r.value < |seats| && Matches(seats[r.value], w)
    ensures r.Some? ==> forall j :: 0 <= j < r.value ==> !Matches(seats[j], w)
    ensures r.None? <==> forall j :: 0 <= j < |seats| ==> !Matches(seats[j], w)
  {
    if seats == [] then None
    else if Matches(seats[0], w) then Some(0)
    else match FindFirst(seats[1..], w)
      case None => None
      case Some(k) => Some(k + 1)
  }

  /** `updateMany({ where, data: { status } })`: every matching seat gets the new status. */
  function SetStatusWhere(seats: seq<Seat>, w: Where, st: SeatStatus): (r: seq<Seat>)
    ensures |r| == |seats|
    ensures forall j :: 0 <= j < |seats| && Matches(seats[j], w) ==> r[j] == seats[j].(status := st)
    ensures forall j :: 0 <= j < |seats| && !Matches(seats[j], w) ==> r[j] == seats[j]
  {
    if seats == [] then []
    else [if Matches(seats[0], w) then seats[0].(status := st) else seats[0]]
         + SetStatusWhere(seats[1..], w, st)
  }

  /** `user.upsert({ where: { email: userId }, update: {}, create: { id: userId, email: userId, name } })`. */
  function UpsertUser(users: map<string, User>, userId: string, name: string): (r: map<string, User>)
    ensures userId in r
    ensures userId in users ==> r == users
    ensures userId !in users ==> r == users[userId := User(userId, userId, name)]
  {
    if userId in users then users else users[userId := User(userId, userId, name)]
  }

  /** The number of bookings that reference seat `seatId`. */
  function CountFor(bookings: seq<Booking>, seatId: nat): (c: nat)
    ensures c <= |bookings|
    ensures c == 0 <==> forall k :: 0 <= k < |bookings| ==> bookings[k].seatId != seatId
  {
    if bookings == [] then 0
    else CountFor(bookings[..|bookings| - 1], seatId)
         + (if bookings[|bookings| - 1].seatId == seatId then 1 else 0)
  }

  /** `booking.deleteMany({ where: { seatId } })`: the other bookings, in their order. */
  function DeleteBookingsOf(bookings: seq<Booking>, seatId: nat): (r: seq<Booking>)
    ensures |r| == |bookings| - CountFor(bookings, seatId)
    ensures forall b :: b in r <==> b in bookings && b.seatId != seatId
    ensures forall b :: multiset(r)[b] == if b.seatId == seatId then 0 else multiset(bookings)[b]
  {
    if bookings == [] then []
    else
      var init, last := bookings[..|bookings| - 1], bookings[|bookings| - 1];
      assert bookings == init + [last];
      DeleteBookingsOf(init, seatId) + (if last.seatId == seatId then [] else [last])
  }

  lemma CountAppend(bookings: seq<Booking>, b: Booking, seatId: nat)
    ensures CountFor(bookings + [b], seatId)
            == CountFor(bookings, seatId) + (if b.seatId == seatId then 1 else 0)
  {
    assert (bookings + [b])[..|bookings|] == bookings;
  }

  /** After deleting the bookings of one seat, that seat has none and every other seat keeps its count. */
  lemma {:induction false} CountAfterDelete(bookings: seq<Booking>, seatId: nat, other: nat)
    ensures CountFor(DeleteBookingsOf(bookings, seatId), other)
            == if other == seatId then 0 else CountFor(bookings, other)
  {
    if bookings != [] {
      var init, last := bookings[..|bookings| - 1], bookings[|bookings| - 1];
      var d := DeleteBookingsOf(init, seatId);
      assert DeleteBookingsOf(bookings, seatId) == d + (if last.seatId == seatId then [] else [last]);
      CountAfterDelete(init, seatId, other);
      if last.seatId != seatId {
        CountAppend(d, last, other);
      } else {
        assert d + [] == d;
      }
    }
  }

  /** Deleting the bookings of a seat twice is the same as deleting them once. */
  lemma {:induction false} DeleteBookingsIdempotent(bookings: seq<Booking>, seatId: nat)
    ensures DeleteBookingsOf(DeleteBookingsOf(bookings, seatId), seatId) == DeleteBookingsOf(bookings, seatId)
  {
    if bookings != [] {
      var init, last := bookings[..|bookings| - 1], bookings[|bookings| - 1];
      var d := DeleteBookingsOf(init, seatId);
      DeleteBookingsIdempotent(init, seatId);
      if last.seatId != seatId {
        assert DeleteBookingsOf(bookings, seatId) == d + [last];
        assert (d + [last])[..|d|] == d;
      } else {
        assert DeleteBookingsOf(bookings, seatId) == d + [];
        assert d + [] == d;
      }
    }
  }

  /** The user upsert is idempotent: a second call with the same identity changes nothing. */
  lemma UpsertIdempotent(users: map<string, User>, userId: string, name: string, name': string)
    ensures UpsertUser(UpsertUser(users, userId, name), userId, name') == UpsertUser(users, userId, name)
  {
  }

  /** The first match depends only on which positions match. */
  lemma {:induction false} FindFirstSameMatches(a: seq<Seat>, b: seq<Seat>, w: Where)
    requires |a| == |b|
    requires forall j :: 0 <= j < |a| ==> (Matches(a[j], w) <==> Matches(b[j], w))
    ensures FindFirst(a, w) == FindFirst(b, w)
    decreases |a|
  {
    if a != [] && !Matches(a[0], w) {
      assert forall j :: 0 <= j < |a| - 1 ==> a[1..][j] == a[j + 1] && b[1..][j] == b[j + 1];
      FindFirstSameMatches(a[1..], b[1..], w);
    }
  }

  /** Updating the status of the seats a filter selects twice equals doing it once. */
  lemma {:induction false} SetStatusWhereIdempotent(seats: seq<Seat>, w: Where, st: SeatStatus)
    ensures SetStatusWhere(SetStatusWhere(seats, w, st), w, st) == SetStatusWhere(seats, w, st)
  {
    var once := SetStatusWhere(seats, w, st);
    var twice := SetStatusWhere(once, w, st);
    forall j | 0 <= j < |seats| ensures twice[j] == once[j] {
      if Matches(once[j], w) {
        assert Matches(seats[j], w);
      }
    }
  }
}
