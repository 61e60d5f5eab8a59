/**
 * The HTTP route handlers of the API server (src/index.ts):
 * `POST /api/book-async` (lines 31-85), `POST /api/book-naive`
 * (lines 96-149) and `GET /api/random-seat` (lines 152-157). Both booking
 * routes read the seat, answer 404 or 409, and otherwise upsert the user,
 * set the seat BOOKED with a plain update by id and insert the booking.
 * book-async catches store errors and answers 500; book-naive has no
 * try block, so a store error escapes the handler.
 */
module Handlers {
  import opened Wrappers
  import opened Tables
  import opened StoreState

  datatype Body =
    | ErrorBody(error: string)
    | BookedBody(success: bool, bookingId: nat, status: Option<string>)

  /** What the handler does with the request: send a reply, or throw out of the handler. */
  datatype HttpResult = Reply(code: nat, body: Body) | Thrown

  datatype Response = Response(db: Db, result: HttpResult)

  const TestUserName: string := "Test User"
  const NotFoundReply: HttpResult := Reply(404, ErrorBody("Seat not found"))
  const TakenReply: HttpResult := Reply(409, ErrorBody("Seat already taken"))
  const FailedReply: HttpResult := Reply(500, ErrorBody("Failed to process booking"))

  /** `POST /api/book-async`. */
  function BookAsync(db: Db, userId: string, seatNumber: int, fault: Fault): (r: Response)
    ensures r.result.Reply? && r.result.code in {200, 404, 409, 500}
    ensures r.result.code == 200 <==>
              fault !in {FailFind, FailUpsert, FailUpdate, FailCreate} &&
              match FindFirst(db.seats, NumberIs(seatNumber))
              case None => false
              case Some(i) => db.seats[i].status == Available
    ensures r.result.code != 200 ==> r.db.bookings == db.bookings
    ensures r.result.code in {404, 409} ==> r.db == db
    ensures r.db.locks == db.locks && r.db.published == db.published
  {
    if fault == FailFind then Response(db, FailedReply)
    else match FindFirst(db.seats, NumberIs(seatNumber))
      case None => Response(db, NotFoundReply)
      case Some(i) =>
        if db.seats[i].status != Available then Response(db, TakenReply)
        else
          var w := WriteBooking(db, userId, i, TestUserName, fault);
          if !w.completed then Response(w.db, FailedReply)
          else Response(w.db, Reply(200, BookedBody(true, db.nextBookingId, Some("Booked"))))
  }

  /** `POST /api/book-naive`: the same reads and writes, without a try block. */
  function BookNaive(db: Db, userId: string, seatNumber: int, fault: Fault): (r: Response)
    ensures r.result.Thrown? || r.result.code in {200, 404, 409}
    ensures r.result.Thrown? <==>
              fault == FailFind ||
              (fault in {FailUpsert, FailUpdate, FailCreate} &&
               match FindFirst(db.seats, NumberIs(seatNumber))
               case None => false
               case Some(i) => db.seats[i].status == Available)
    ensures !(r.result.Reply? && r.result.code == 200) ==> r.db.bookings == db.bookings
    ensures r.db.locks == db.locks && r.db.published == db.published
  {
    if fault == FailFind then Response(db, Thrown)
    else match FindFirst(db.seats, NumberIs(seatNumber))
      case None => Response(db, NotFoundReply)
      case Some(i) =>
        if db.seats[i].status != Available then Response(db, TakenReply)
        else
          var w := WriteBooking(db, userId, i, TestUserName, fault);
          if !w.completed then Response(w.db, Thrown)
          else Response(w.db, Reply(200, BookedBody(true, db.nextBookingId, None)))
  }

  /** `GET /api/random-seat`: the first AVAILABLE seat in table order, if any. */
  function RandomSeat(db: Db): (r: Option<Seat>)
    ensures r.Some? ==> r.value in db.seats && r.value.status == Available
    ensures r.Some? ==> exists i :: 0 <= i < |db.seats| && db.seats[i] == r.value
                         && forall j :: 0 <= j < i ==> db.seats[j].status != Available
    ensures r.None? <==> forall j :: 0 <= j < |db.seats| ==> db.seats[j].status != Available
  {
    match FindFirst(db.seats, StatusIs(Available))
    case None => None
    case Some(i) => Some(db.seats[i])
  }

  /** book-async on a seat number no seat has answers 404 and changes nothing. */
  lemma AsyncNotFound(db: Db, userId: string, seatNumber: int, fault: Fault)
    requires fault != FailFind
    requires forall j :: 0 <= j < |db.seats| ==> db.seats[j].number != seatNumber
    ensures BookAsync(db, userId, seatNumber, fault) == Response(db, NotFoundReply)
  {
  }

  /** book-async on a seat that is not AVAILABLE answers 409 and changes nothing. */
  lemma AsyncTaken(db: Db, userId: string, seatNumber: int, fault: Fault)
    requires fault != FailFind
    requires var f := FindFirst(db.seats, NumberIs(seatNumber));
             f.Some? && db.seats[f.value].status != Available
    ensures BookAsync(db, userId, seatNumber, fault) == Response(db, TakenReply)
  {
  }

  /**
   * book-async answers 200 exactly when the first seat with that number is
   * AVAILABLE and none of the three writes throws. Then that seat alone
   * becomes BOOKED, exactly one booking (userId, seat id) is appended to the
   * existing ones, the reply carries that booking's id and the text
   * "Booked", and the user exists.
   */
  lemma AsyncSuccess(db: Db, userId: string, seatNumber: int, fault: Fault)
    requires Valid(db)
    ensures var r := BookAsync(db, userId, seatNumber, fault);
            var f := FindFirst(db.seats, NumberIs(seatNumber));
      && (r.result.code == 200 <==>
            fault in {NoFault, FailPublish} && f.Some? && db.seats[f.value].status == Available)
      && (r.result.code == 200 ==>
            && |r.db.seats| == |db.seats|
            && r.db.seats[f.value] == db.seats[f.value].(status := Booked)
            && (forall j :: 0 <= j < |db.seats| && j != f.value ==> r.db.seats[j] == db.seats[j])
            && r.db.bookings == db.bookings + [Booking(db.nextBookingId, userId, db.seats[f.value].id)]
            && r.result == Reply(200, BookedBody(true, r.db.bookings[|db.bookings|].id, Some("Booked")))
            && r.db.users == UpsertUser(db.users, userId, TestUserName))
  {
    var f := FindFirst(db.seats, NumberIs(seatNumber));
    if fault != FailFind && f.Some? && db.seats[f.value].status == Available {
      WriteBookingEffect(db, userId, f.value, TestUserName, fault);
    }
  }

  /**
   * book-async never touches the lock map or the published log, and a 500
   * reply leaves the bookings as they were (a failed create leaves the seat
   * BOOKED with no booking).
   */
  lemma AsyncErrorKeepsBookings(db: Db, userId: string, seatNumber: int, fault: Fault)
    ensures var r := BookAsync(db, userId, seatNumber, fault);
      && r.db.locks == db.locks && r.db.published == db.published
      && r.result.Reply?
      && (r.result.code in {404, 409, 500} ==> r.db.bookings == db.bookings)
  {
  }

  /** Both routes keep the ids well formed and, when it held before, at most one booking per seat. */
  lemma AsyncPreserves(db: Db, userId: string, seatNumber: int, fault: Fault)
    requires Valid(db)
    ensures Valid(BookAsync(db, userId, seatNumber, fault).db)
    ensures AtMostOneBooking(db) ==> AtMostOneBooking(BookAsync(db, userId, seatNumber, fault).db)
  {
    var f := FindFirst(db.seats, NumberIs(seatNumber));
    if fault != FailFind && f.Some? && db.seats[f.value].status == Available {
      WriteBookingKeepsValid(db, userId, f.value, TestUserName, fault);
      if AtMostOneBooking(db) {
        WriteBookingKeepsAtMostOne(db, userId, f.value, TestUserName, fault);
      }
    }
  }

  /**
   * After a successful book-async, a second call for the same seat number,
   * by any user and with any fault, books nothing and leaves the store as the
   * first call left it: it answers 409, or 500 when the lookup throws.
   */
  lemma SecondAsyncBooksNothing(db: Db, userId: string, seatNumber: int, fault: Fault,
                                userId': string, fault': Fault)
    requires Valid(db)
    requires BookAsync(db, userId, seatNumber, fault).result.code == 200
    ensures var first := BookAsync(db, userId, seatNumber, fault).db;
            var again := BookAsync(first, userId', seatNumber, fault');
      again.db == first && again.result in {TakenReply, FailedReply}
      && (fault' != FailFind ==> again.result == TakenReply)
  {
    AsyncSuccess(db, userId, seatNumber, fault);
    var first := BookAsync(db, userId, seatNumber, fault).db;
    var i := FindFirst(db.seats, NumberIs(seatNumber)).value;
    assert first.seats[i].number == seatNumber;
    assert forall j :: 0 <= j < i ==> first.seats[j] == db.seats[j];
    assert FindFirst(first.seats, NumberIs(seatNumber)) == Some(i);
  }

  /**
   * Run alone, book-naive has the outcomes of book-async: the same new store
   * on every path, the same 404 and 409 replies, a 200 with the same
   * booking id (without the status text), and an escaping error where
   * book-async answers 500.
   */
  lemma NaiveMatchesAsync(db: Db, userId: string, seatNumber: int, fault: Fault)
    ensures var a := BookAsync(db, userId, seatNumber, fault);
            var n := BookNaive(db, userId, seatNumber, fault);
      && n.db == a.db
      && (a.result.code in {404, 409} ==> n.result == a.result)
      && (a.result.code == 500 ==> n.result == Thrown)
      && (a.result.code == 200 ==>
            n.result == Reply(200, BookedBody(true, a.result.body.bookingId, None)))
  {
  }

  /** A seat that book-async has just booked is never the one random-seat offers. */
  lemma RandomSeatAfterBooking(db: Db, userId: string, seatNumber: int)
    requires Valid(db)
    requires BookAsync(db, userId, seatNumber, NoFault).result.code == 200
    ensures var after := BookAsync(db, userId, seatNumber, NoFault).db;
            var f := FindFirst(db.seats, NumberIs(seatNumber)).value;
      RandomSeat(after) != Some(after.seats[f])
  {
    AsyncSuccess(db, userId, seatNumber, NoFault);
  }
}
