/**
 * The whole state the booking core touches: the database tables, the
 * Redis lock keys and the log of messages published on Redis channels,
 * together with the id counters that stand for the database's id
 * generation. Also the write sequence every booking path shares:
 * upsert the user, set the seat BOOKED by id, insert the booking.
 */
module StoreState {
  import opened Tables

  /** A message published with `redis.publish(channel, { seatNumber, status })`. */
  datatype Notice = Notice(channel: string, seatNumber: int, status: SeatStatus)

  const UpdatesChannel: string := "seat-updates"

  datatype Db = Db(
    seats: seq<Seat>,
    users: map<string, User>,
    bookings: seq<Booking>,
    events: seq<Event>,
    locks: map<string, string>,
    published: seq<Notice>,
    nextSeatId: nat,
    nextBookingId: nat,
    nextEventId: nat)

  /** The store call that throws first, if any; the rest of that path is not run. */
  datatype Fault = NoFault | FailFind | FailUpsert | FailUpdate | FailCreate | FailPublish

  /** Seat ids are unique; all ids are below their counters; every booking names an allocated seat id. */
  ghost predicate Valid(db: Db) {
    && (forall i, j :: 0 <= i < j < |db.seats| ==> db.seats[i].id != db.seats[j].id)
    && (forall i :: 0 <= i < |db.seats| ==> db.seats[i].id < db.nextSeatId)
    && (forall k :: 0 <= k < |db.bookings| ==> db.bookings[k].id < db.nextBookingId)
    && (forall k :: 0 <= k < |db.bookings| ==> db.bookings[k].seatId < db.nextSeatId)
    && (forall e :: 0 <= e < |db.events| ==> db.events[e].id < db.nextEventId)
  }

  /** Every seat has at most one booking, and an AVAILABLE seat has none. */
  ghost predicate AtMostOneBooking(db: Db) {
    forall i :: 0 <= i < |db.seats| ==>
      && CountFor(db.bookings, db.seats[i].id) <= 1
      && (db.seats[i].status == Available ==> CountFor(db.bookings, db.seats[i].id) == 0)
  }

  /** `booking.create({ data: { userId, seatId } })`, with the next free booking id. */
  function InsertBooking(db: Db, userId: string, seatId: nat): (r: Db)
    ensures |r.bookings| == |db.bookings| + 1
    ensures r.bookings[|db.bookings|] == Booking(db.nextBookingId, userId, seatId)
    ensures r.bookings[..|db.bookings|] == db.bookings
    ensures r.nextBookingId == db.nextBookingId + 1
    ensures && r.seats == db.seats && r.users == db.users && r.events == db.events
            && r.locks == db.locks && r.published == db.published
            && r.nextSeatId == db.nextSeatId && r.nextEventId == db.nextEventId
  {
    db.(bookings := db.bookings + [Booking(db.nextBookingId, userId, seatId)],
        nextBookingId := db.nextBookingId + 1)
  }

  /** The state after the shared write sequence and whether all three writes went through. */
  datatype Written = Written(db: Db, completed: bool)

  /**
   * Upsert the user, `seat.update({ where: { id }, data: { status: "BOOKED" } })`
   * and insert the booking, for the seat at position `i`, stopping at the
   * write that `fault` names.
   */
  function WriteBooking(db: Db, userId: string, i: nat, userName: string, fault: Fault): (r: Written)
    requires i < |db.seats|
    ensures r.completed <==> fault !in {FailUpsert, FailUpdate, FailCreate}
    ensures r.completed ==> |r.db.bookings| == |db.bookings| + 1
    ensures !r.completed ==> r.db.bookings == db.bookings
    ensures && |r.db.seats| == |db.seats| && r.db.locks == db.locks && r.db.published == db.published
            && r.db.events == db.events && r.db.nextSeatId == db.nextSeatId
  {
    if fault == FailUpsert then Written(db, false)
    else
      var withUser := db.(users := UpsertUser(db.users, userId, userName));
      if fault == FailUpdate then Written(withUser, false)
      else
        var seatId := db.seats[i].id;
        var withSeat := withUser.(seats := SetStatusWhere(withUser.seats, IdIs(seatId), Booked));
        if fault == FailCreate then Written(withSeat, false)
        else Written(InsertBooking(withSeat, userId, seatId), true)
  }

  /**
   * What the write sequence does on each path: it completes exactly when no
   * write throws; then the seat at `i` and only it is BOOKED and exactly one
   * booking (userId, seat id) with a fresh id is appended. A failed create
   * leaves the seat BOOKED without a booking; an earlier failure leaves the
   * seats and bookings as they were. Locks, events and the published log are
   * never touched.
   */
  lemma WriteBookingEffect(db: Db, userId: string, i: nat, userName: string, fault: Fault)
    requires Valid(db) && i < |db.seats|
    ensures var w := WriteBooking(db, userId, i, userName, fault);
      && (w.completed <==> fault !in {FailUpsert, FailUpdate, FailCreate})
      && w.db.locks == db.locks && w.db.published == db.published && w.db.events == db.events
      && w.db.nextSeatId == db.nextSeatId && w.db.nextEventId == db.nextEventId
      && (fault == FailUpsert ==> w.db == db)
      && (fault != FailUpsert ==> w.db.users == UpsertUser(db.users, userId, userName))
      && (fault in {FailUpsert, FailUpdate} ==> w.db.seats == db.seats && w.db.bookings == db.bookings)
      && (fault !in {FailUpsert, FailUpdate} ==>
            && |w.db.seats| == |db.seats|
            && w.db.seats[i] == db.seats[i].(status := Booked)
            && (forall j :: 0 <= j < |db.seats| && j != i ==> w.db.seats[j] == db.seats[j]))
      && (w.completed ==> w.db.bookings == db.bookings + [Booking(db.nextBookingId, userId, db.seats[i].id)])
      && (!w.completed ==> w.db.bookings == db.bookings)
  {
    var seatId := db.seats[i].id;
    var s := SetStatusWhere(db.seats, IdIs(seatId), Booked);
    forall j | 0 <= j < |db.seats| && j != i ensures s[j] == db.seats[j] {
      assert db.seats[j].id != seatId;
    }
  }

  /** Validity and the booking invariant only speak of seats, bookings, events and counters. */
  lemma InvariantsIgnoreLocksAndLog(db: Db, locks: map<string, string>, published: seq<Notice>)
    ensures Valid(db) <==> Valid(db.(locks := locks, published := published))
    ensures AtMostOneBooking(db) <==> AtMostOneBooking(db.(locks := locks, published := published))
  {
  }

  /** The write sequence keeps the ids well formed. */
  lemma WriteBookingKeepsValid(db: Db, userId: string, i: nat, userName: string, fault: Fault)
    requires Valid(db) && i < |db.seats|
    ensures Valid(WriteBooking(db, userId, i, userName, fault).db)
  {
    WriteBookingEffect(db, userId, i, userName, fault);
    var w := WriteBooking(db, userId, i, userName, fault).db;
    if w.bookings != db.bookings {
      var b := Booking(db.nextBookingId, userId, db.seats[i].id);
      assert w.bookings == db.bookings + [b];
      forall k | 0 <= k < |w.bookings|
        ensures w.bookings[k].id < w.nextBookingId && w.bookings[k].seatId < w.nextSeatId
      {
        if k < |db.bookings| { assert w.bookings[k] == db.bookings[k]; }
      }
    }
  }

  /** On an AVAILABLE seat the write sequence keeps at most one booking per seat. */
  lemma WriteBookingKeepsAtMostOne(db: Db, userId: string, i: nat, userName: string, fault: Fault)
    requires Valid(db) && AtMostOneBooking(db)
    requires i < |db.seats| && db.seats[i].status == Available
    ensures AtMostOneBooking(WriteBooking(db, userId, i, userName, fault).db)
  {
    WriteBookingEffect(db, userId, i, userName, fault);
    var w := WriteBooking(db, userId, i, userName, fault).db;
    var seatId := db.seats[i].id;
    if fault !in {FailUpsert, FailUpdate} {
      forall j | 0 <= j < |w.seats|
        ensures CountFor(w.bookings, w.seats[j].id) <= 1
        ensures w.seats[j].status == Available ==> CountFor(w.bookings, w.seats[j].id) == 0
      {
        if w.bookings != db.bookings {
          CountAppend(db.bookings, Booking(db.nextBookingId, userId, seatId), w.seats[j].id);
          if j != i {
            assert w.seats[j].id == db.seats[j].id != seatId;
          }
        }
      }
    }
  }
}
