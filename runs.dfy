/**
 * Sequential runs of the core's operations against one store: queue
 * messages handled by the worker, the two booking routes, random-seat,
 * lock expiry and seeding. Reset is not among them: it can reopen a booked
 * seat (see ResetScript.ResetKeepsAtMostOneIff), which could then be booked twice.
 */
module Runs {
  import opened Tables
  import opened StoreState
  import Text
  import Locks
  import Worker
  import Handlers
  import SeedScript

  datatype Call =
    | Consume(message: Worker.Message, fault: Fault)
    | BookAsyncCall(userId: string, seatNumber: int, fault: Fault)
    | BookNaiveCall(userId: string, seatNumber: int, fault: Fault)
    | RandomSeatCall
    | LockExpiry(seatNumber: int)
    | SeedCall

  function Apply(db: Db, c: Call): (r: Db) {
    match c
    case Consume(m, f) => Worker.EachMessage(db, m, f).db
    case BookAsyncCall(u, n, f) => Handlers.BookAsync(db, u, n, f).db
    case BookNaiveCall(u, n, f) => Handlers.BookNaive(db, u, n, f).db
    case RandomSeatCall => db
    case LockExpiry(n) => db.(locks := Locks.Expire(db.locks, Text.LockKey(n)))
    case SeedCall => SeedScript.Seed(db)
  }

  /** The calls run one after another, first to last. */
  function Run(db: Db, calls: seq<Call>): (r: Db)
    decreases |calls|
  {
    if calls == [] then db else Run(Apply(db, calls[0]), calls[1..])
  }

  /** The store before anything ran. */
  const Empty: Db := Db([], map[], [], [], map[], [], 0, 0, 0)

  lemma ApplyPreserves(db: Db, c: Call)
    requires Valid(db)
    ensures Valid(Apply(db, c))
    ensures AtMostOneBooking(db) ==> AtMostOneBooking(Apply(db, c))
  {
    match c
    case Consume(m, f) =>
      if m.value.Some? {
        Worker.ProcessBookingPreserves(db, m.value.value.userId, m.value.value.seatNumber, f);
      }
    case BookAsyncCall(u, n, f) => Handlers.AsyncPreserves(db, u, n, f);
    case BookNaiveCall(u, n, f) =>
      Handlers.AsyncPreserves(db, u, n, f);
      Handlers.NaiveMatchesAsync(db, u, n, f);
    case RandomSeatCall =>
    case LockExpiry(n) => InvariantsIgnoreLocksAndLog(db, Locks.Expire(db.locks, Text.LockKey(n)), db.published);
    case SeedCall => SeedScript.SeedPreserves(db);
  }

  /** Every sequential run keeps the ids well formed and at most one booking per seat. */
  lemma {:induction false} RunKeepsAtMostOneBooking(db: Db, calls: seq<Call>)
    requires Valid(db) && AtMostOneBooking(db)
    ensures Valid(Run(db, calls)) && AtMostOneBooking(Run(db, calls))
    decreases |calls|
  {
    if calls != [] {
      ApplyPreserves(db, calls[0]);
      RunKeepsAtMostOneBooking(Apply(db, calls[0]), calls[1..]);
    }
  }

  /**
   * Starting from the empty store, no sequential run ever leaves two
   * bookings for one seat, nor a booking for an AVAILABLE seat.
   */
  lemma NoDoubleBookingFromEmpty(calls: seq<Call>)
    ensures var r := Run(Empty, calls);
      forall i :: 0 <= i < |r.seats| ==>
        CountFor(r.bookings, r.seats[i].id) <= 1
        && (r.seats[i].status == Available ==> CountFor(r.bookings, r.seats[i].id) == 0)
  {
    RunKeepsAtMostOneBooking(Empty, calls);
  }
}
