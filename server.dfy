/**
 * The running services as one mutable object: the Prisma tables, the
 * Redis key space and the Redis publish log are fields; every route, the
 * worker and the two scripts are methods that change them call by call, as
 * the source does, and are proved to end in the state the value-level
 * model describes. The primitive store calls (SET NX, the unlock script,
 * publish, upsert, update, create and delete) give their whole new state
 * but do not require or keep `Valid()` on their own; lock expiry and the
 * route, worker and script methods do.
 */
module Server {
  import opened Wrappers
  import opened Tables
  import opened StoreState
  import opened Text
  import Locks
  import Worker
  import Handlers
  import ResetScript
  import SeedScript
  import Runs

  class Store {
    var seats: seq<Seat>
    var users: map<string, User>
    var bookings: seq<Booking>
    var events: seq<Event>
    var locks: map<string, string>
    var published: seq<Notice>
    var nextSeatId: nat
    var nextBookingId: nat
    var nextEventId: nat

    ghost function State(): Db
      reads this
    {
      Db(seats, users, bookings, events, locks, published, nextSeatId, nextBookingId, nextEventId)
    }

    ghost predicate Valid()
      reads this
    {
      StoreState.Valid(State())
    }

    /** Empty tables, no lock keys, nothing published. */
    constructor ()
      ensures State() == Runs.Empty && Valid() && AtMostOneBooking(State())
    {
      seats, users, bookings, events := [], map[], [], [];
      locks, published := map[], [];
      nextSeatId, nextBookingId, nextEventId := 0, 0, 0;
    }

    // ---- Redis ----

    /** `redis.set(key, value, 'NX', 'EX', ttl)`; the TTL is not modelled here. */
    method SetNx(key: string, value: string) returns (ok: bool)
      modifies this
      ensures var a := Locks.SetNx(old(locks), key, value);
        ok == a.ok && State() == old(State()).(locks := a.locks)
    {
      ok := key !in locks;
      if ok {
        locks := locks[key := value];
      }
    }

    /** `redis.eval(unlockScript, 1, key, owner)`: 1 when the key held `owner` and was deleted, else 0. */
    method EvalUnlock(key: string, owner: string) returns (deleted: nat)
      modifies this
      ensures deleted == (if key in old(locks) && old(locks)[key] == owner then 1 else 0)
      ensures State() == old(State()).(locks := Locks.CompareAndDelete(old(locks), key, owner))
    {
      if key in locks && locks[key] == owner {
        locks := locks - {key};
        deleted := 1;
      } else {
        deleted := 0;
      }
    }

    /** The TTL of a key running out. */
    method ExpireLock(seatNumber: int)
      requires Valid()
      modifies this
      ensures Valid()
      ensures AtMostOneBooking(old(State())) ==> AtMostOneBooking(State())
      ensures State() == old(State()).(locks := Locks.Expire(old(locks), LockKey(seatNumber)))
    {
      ghost var before := State();
      locks := Locks.Expire(locks, LockKey(seatNumber));
      InvariantsIgnoreLocksAndLog(before, locks, published);
    }

    /** `redis.publish(channel, message)`. */
    method Publish(notice: Notice)
      modifies this
      ensures State() == old(State()).(published := old(published) + [notice])
    {
      published := published + [notice];
    }

    // ---- Prisma ----

    method UpsertUser(userId: string, name: string)
      modifies this
      ensures State() == old(State()).(users := Tables.UpsertUser(old(users), userId, name))
    {
      if userId !in users {
        users := users[userId := User(userId, userId, name)];
      }
    }

    /** `seat.update({ where: { id }, data: { status } })`. */
    method UpdateSeatStatus(id: nat, status: SeatStatus)
      modifies this
      ensures State() == old(State()).(seats := SetStatusWhere(old(seats), IdIs(id), status))
    {
      seats := SetStatusWhere(seats, IdIs(id), status);
    }

    /** `seat.updateMany({ where, data: { status } })`. */
    method UpdateManySeats(w: Where, status: SeatStatus)
      modifies this
      ensures State() == old(State()).(seats := SetStatusWhere(old(seats), w, status))
    {
      seats := SetStatusWhere(seats, w, status);
    }

    /** `booking.create({ data: { userId, seatId } })`, returning the new record. */
    method CreateBooking(userId: string, seatId: nat) returns (booking: Booking)
      modifies this
      ensures booking == Booking(old(nextBookingId), userId, seatId)
      ensures State() == InsertBooking(old(State()), userId, seatId)
    {
      booking := Booking(nextBookingId, userId, seatId);
      bookings := bookings + [booking];
      nextBookingId := nextBookingId + 1;
    }

    /** `booking.deleteMany({ where: { seatId } })`. */
    method DeleteManyBookings(seatId: nat)
      modifies this
      ensures State() == old(State()).(bookings := DeleteBookingsOf(old(bookings), seatId))
    {
      bookings := DeleteBookingsOf(bookings, seatId);
    }

    /** `event.create({ data })`, returning the new record. */
    method CreateEvent(name: string, date: string, totalSeats: int) returns (event: Event)
      modifies this
      ensures event == Event(old(nextEventId), name, date, totalSeats)
      ensures State() == old(State()).(events := old(events) + [event], nextEventId := old(nextEventId) + 1)
    {
      event := Event(nextEventId, name, date, totalSeats);
      events := events + [event];
      nextEventId := nextEventId + 1;
    }

    /** `seat.createMany({ data })`. */
    method CreateManySeats(payload: seq<SeedScript.SeatData>)
      modifies this
      ensures State() == old(State()).(seats := old(seats) + SeedScript.CreatedSeats(payload, old(nextSeatId)),
                                       nextSeatId := old(nextSeatId) + |payload|)
    {
      seats := seats + SeedScript.CreatedSeats(payload, nextSeatId);
      nextSeatId := nextSeatId + |payload|;
    }

    // ---- the write sequence shared by the worker and both routes ----

    /** Upsert, update by id, create, stopping at the call that `fault` says throws. */
    method WriteBooking(userId: string, i: nat, userName: string, fault: Fault) returns (booking: Option<Booking>)
      requires i < |seats|
      modifies this
      ensures var w := StoreState.WriteBooking(old(State()), userId, i, userName, fault);
        State() == w.db && (booking.Some? <==> w.completed)
      ensures booking.Some? ==> booking.value == Booking(old(nextBookingId), userId, old(seats)[i].id)
    {
      var seatId := seats[i].id;
      if fault == FailUpsert { return None; }
      UpsertUser(userId, userName);
      if fault == FailUpdate { return None; }
      UpdateSeatStatus(seatId, Booked);
      if fault == FailCreate { return None; }
      var b := CreateBooking(userId, seatId);
      return Some(b);
    }

    // ---- src/worker.ts ----

    /** `processBooking(userId, seatNumber)`. */
    method ProcessBooking(userId: string, seatNumber: int, fault: Fault) returns (exit: Worker.Exit)
      requires Valid()
      modifies this
      ensures Valid()
      ensures AtMostOneBooking(old(State())) ==> AtMostOneBooking(State())
      ensures Worker.Step(State(), exit) == Worker.ProcessBooking(old(State()), userId, seatNumber, fault)
    {
      ghost var before := State();
      Worker.ProcessBookingPreserves(before, userId, seatNumber, fault);
      var lockKey := LockKey(seatNumber);
      var acquired := SetNx(lockKey, userId);
      if !acquired {
        return Worker.Dropped;
      }
      // try
      exit := BookUnderLock(userId, seatNumber, fault);
      // finally
      var released := EvalUnlock(lockKey, userId);
    }

    /** The try block of `processBooking`. */
    method BookUnderLock(userId: string, seatNumber: int, fault: Fault) returns (exit: Worker.Exit)
      modifies this
      ensures Worker.Step(State(), exit) == Worker.UnderLock(old(State()), userId, seatNumber, fault)
    {
      if fault == FailFind { return Worker.Errored; }
      var found := FindFirst(seats, NumberIs(seatNumber));
      if found.None? || seats[found.value].status != Available {
        return Worker.Unavailable;
      }
      var booking := WriteBooking(userId, found.value, Worker.WorkerUserName, fault);
      if booking.None? || fault == FailPublish {
        return Worker.Errored;
      }
      Publish(Notice(UpdatesChannel, seatNumber, Booked));
      exit := Worker.Succeeded;
    }

    /** The consumer's `eachMessage` callback. */
    method EachMessage(m: Worker.Message, fault: Fault) returns (exit: Worker.Exit)
      requires Valid()
      modifies this
      ensures Valid()
      ensures AtMostOneBooking(old(State())) ==> AtMostOneBooking(State())
      ensures Worker.Step(State(), exit) == Worker.EachMessage(old(State()), m, fault)
    {
      if m.value.None? {
        return Worker.Skipped;
      }
      exit := ProcessBooking(m.value.value.userId, m.value.value.seatNumber, fault);
    }

    // ---- src/index.ts ----

    /** `POST /api/book-async`. */
    method BookAsync(userId: string, seatNumber: int, fault: Fault) returns (result: Handlers.HttpResult)
      requires Valid()
      modifies this
      ensures Valid()
      ensures AtMostOneBooking(old(State())) ==> AtMostOneBooking(State())
      ensures Handlers.Response(State(), result) == Handlers.BookAsync(old(State()), userId, seatNumber, fault)
    {
      Handlers.AsyncPreserves(State(), userId, seatNumber, fault);
      if fault == FailFind { return Handlers.FailedReply; }
      var found := FindFirst(seats, NumberIs(seatNumber));
      if found.None? { return Handlers.NotFoundReply; }
      if seats[found.value].status != Available { return Handlers.TakenReply; }
      var booking := WriteBooking(userId, found.value, Handlers.TestUserName, fault);
      if booking.None? { return Handlers.FailedReply; }
      result := Handlers.Reply(200, Handlers.BookedBody(true, booking.value.id, Some("Booked")));
    }

    /** `POST /api/book-naive`. */
    method BookNaive(userId: string, seatNumber: int, fault: Fault) returns (result: Handlers.HttpResult)
      requires Valid()
      modifies this
      ensures Valid()
      ensures AtMostOneBooking(old(State())) ==> AtMostOneBooking(State())
      ensures Handlers.Response(State(), result) == Handlers.BookNaive(old(State()), userId, seatNumber, fault)
    {
      Handlers.AsyncPreserves(State(), userId, seatNumber, fault);
      Handlers.NaiveMatchesAsync(State(), userId, seatNumber, fault);
      if fault == FailFind { return Handlers.Thrown; }
      var found := FindFirst(seats, NumberIs(seatNumber));
      if found.None? { return Handlers.NotFoundReply; }
      if seats[found.value].status != Available { return Handlers.TakenReply; }
      var booking := WriteBooking(userId, found.value, Handlers.TestUserName, fault);
      if booking.None? { return Handlers.Thrown; }
      result := Handlers.Reply(200, Handlers.BookedBody(true, booking.value.id, None));
    }

    /** `GET /api/random-seat`: reads only. */
    method RandomSeat() returns (seat: Option<Seat>)
      ensures seat == Handlers.RandomSeat(State())
      ensures seat.None? <==> forall j :: 0 <= j < |seats| ==> seats[j].status != Available
      ensures seat.Some? ==> seat.value in seats && seat.value.status == Available
    {
      var found := FindFirst(seats, StatusIs(Available));
      if found.None? {
        return None;
      }
      return Some(seats[found.value]);
    }

    // ---- prisma/reset.ts and prisma/seed.ts ----

    /** The reset script's `main`. */
    method Reset()
      requires Valid()
      modifies this
      ensures Valid()
      ensures State() == ResetScript.Reset(old(State()))
    {
      ResetScript.ResetKeepsValid(State());
      UpdateManySeats(NumberIs(ResetScript.ResetNumber), Available);
      var seat := FindFirst(seats, NumberIs(ResetScript.ResetNumber));
      if seat.Some? {
        DeleteManyBookings(seats[seat.value].id);
      }
    }

    /** The seed script's `main`. */
    method Seed()
      requires Valid()
      modifies this
      ensures Valid()
      ensures AtMostOneBooking(old(State())) ==> AtMostOneBooking(State())
      ensures State() == SeedScript.Seed(old(State()))
    {
      SeedScript.SeedPreserves(State());
      var event := CreateEvent(SeedScript.EventName, SeedScript.EventDate, SeedScript.SeatCount);
      var payload := SeedScript.BuildSeatsPayload(event.id);
      assert payload == SeedScript.SeatsPayload(event.id);
      CreateManySeats(payload);
    }
  }

  /**
   * Two sequential book-async calls for one existing seat number through the
   * object: the second is always refused with 409, and the two calls
   * together add at most one booking.
   */
  method BookTwice(store: Store, seatNumber: int, first: string, second: string)
    returns (firstResult: Handlers.HttpResult, secondResult: Handlers.HttpResult)
    requires store.Valid()
    requires exists j :: 0 <= j < |store.seats| && store.seats[j].number == seatNumber
    modifies store
    ensures secondResult == Handlers.TakenReply
    ensures firstResult.Reply? && firstResult.code in {200, 409}
    ensures firstResult.code == 200 ==> |store.bookings| == |old(store.bookings)| + 1
    ensures firstResult.code == 409 ==> store.bookings == old(store.bookings)
  {
    ghost var before := store.State();
    Handlers.AsyncSuccess(before, first, seatNumber, NoFault);
    firstResult := store.BookAsync(first, seatNumber, NoFault);
    ghost var middle := store.State();
    secondResult := store.BookAsync(second, seatNumber, NoFault);
    if firstResult.code == 200 {
      Handlers.SecondAsyncBooksNothing(before, first, seatNumber, NoFault, second, NoFault);
    }
  }
}
