/**
 * The reset script (prisma/reset.ts lines 5-26): set every seat numbered 1
 * back to AVAILABLE, then delete the bookings of the FIRST seat numbered 1,
 * if there is one.
 */
module ResetScript {
  import opened Wrappers
  import opened Tables
  import opened StoreState

  const ResetNumber: int := 1

  function Reset(db: Db): (r: Db)
    ensures |r.seats| == |db.seats|
    ensures forall j :: 0 <= j < |r.seats| ==> r.seats[j].id == db.seats[j].id && r.seats[j].number == db.seats[j].number
    ensures forall j :: 0 <= j < |r.seats| && r.seats[j].number == ResetNumber ==> r.seats[j].status == Available
    ensures forall b :: b in r.bookings ==> b in db.bookings
    ensures && r.users == db.users && r.events == db.events && r.locks == db.locks
            && r.published == db.published && r.nextSeatId == db.nextSeatId
  {
    var reopened := db.(seats := SetStatusWhere(db.seats, NumberIs(ResetNumber), Available));
    match FindFirst(reopened.seats, NumberIs(ResetNumber))
    case None => reopened
    case Some(i) => reopened.(bookings := DeleteBookingsOf(reopened.bookings, reopened.seats[i].id))
  }

  /** Changing statuses does not change which seat is the first with a given number. */
  lemma FindByNumberIgnoresStatus(seats: seq<Seat>, w: Where, st: SeatStatus, n: int)
    ensures FindFirst(SetStatusWhere(seats, w, st), NumberIs(n)) == FindFirst(seats, NumberIs(n))
  {
    var s := SetStatusWhere(seats, w, st);
    forall j | 0 <= j < |seats| ensures s[j].number == seats[j].number {
      if Matches(seats[j], w) { assert s[j] == seats[j].(status := st); } else { assert s[j] == seats[j]; }
    }
    FindFirstSameMatches(s, seats, NumberIs(n));
  }

  /**
   * What reset does: every seat numbered 1 is AVAILABLE, every other seat is
   * unchanged; if some seat is numbered 1, the first such seat has no booking
   * left and exactly the bookings of the other seats remain; if none is, all
   * bookings remain. Nothing else in the store changes.
   */
  lemma ResetEffect(db: Db)
    ensures var r := Reset(db);
            var f := FindFirst(db.seats, NumberIs(ResetNumber));
      && |r.seats| == |db.seats|
      && (forall j :: 0 <= j < |db.seats| && db.seats[j].number == ResetNumber ==>
            r.seats[j] == db.seats[j].(status := Available))
      && (forall j :: 0 <= j < |db.seats| && db.seats[j].number != ResetNumber ==> r.seats[j] == db.seats[j])
      && (f.None? ==> r.bookings == db.bookings)
      && (f.Some? ==>
            && CountFor(r.bookings, db.seats[f.value].id) == 0
            && (forall b :: b in r.bookings <==> b in db.bookings && b.seatId != db.seats[f.value].id))
      && r.users == db.users && r.events == db.events && r.locks == db.locks && r.published == db.published
      && r.nextSeatId == db.nextSeatId && r.nextBookingId == db.nextBookingId && r.nextEventId == db.nextEventId
  {
    var reopened := SetStatusWhere(db.seats, NumberIs(ResetNumber), Available);
    FindByNumberIgnoresStatus(db.seats, NumberIs(ResetNumber), Available, ResetNumber);
    var f := FindFirst(db.seats, NumberIs(ResetNumber));
    if f.Some? {
      assert reopened[f.value].id == db.seats[f.value].id;
      CountAfterDelete(db.bookings, db.seats[f.value].id, db.seats[f.value].id);
    }
  }

  /**
   * Reset keeps every booking record of the other seats as often as it
   * occurred, and removes every record of the first seat numbered 1.
   */
  lemma ResetKeepsOtherBookings(db: Db)
    ensures var f := FindFirst(db.seats, NumberIs(ResetNumber));
      forall b :: multiset(Reset(db).bookings)[b]
                  == if f.Some? && b.seatId == db.seats[f.value].id then 0 else multiset(db.bookings)[b]
  {
    FindByNumberIgnoresStatus(db.seats, NumberIs(ResetNumber), Available, ResetNumber);
  }

  /** Running reset twice leaves the same store as running it once. */
  lemma ResetIdempotent(db: Db)
    ensures Reset(Reset(db)) == Reset(db)
  {
    var once := Reset(db);
    var reopened := SetStatusWhere(db.seats, NumberIs(ResetNumber), Available);
    FindByNumberIgnoresStatus(db.seats, NumberIs(ResetNumber), Available, ResetNumber);
    FindByNumberIgnoresStatus(reopened, NumberIs(ResetNumber), Available, ResetNumber);
    SetStatusWhereIdempotent(db.seats, NumberIs(ResetNumber), Available);
    assert once.seats == reopened;
    match FindFirst(db.seats, NumberIs(ResetNumber))
    case None =>
    case Some(i) =>
      DeleteBookingsIdempotent(db.bookings, reopened[i].id);
  }

  /** Reset keeps the ids well formed. */
  lemma ResetKeepsValid(db: Db)
    requires Valid(db)
    ensures Valid(Reset(db))
  {
    ResetEffect(db);
    var r := Reset(db);
    assert forall j :: 0 <= j < |r.seats| ==> r.seats[j].id == db.seats[j].id;
    var f := FindFirst(db.seats, NumberIs(ResetNumber));
    if f.Some? {
      var seatId := db.seats[f.value].id;
      FindByNumberIgnoresStatus(db.seats, NumberIs(ResetNumber), Available, ResetNumber);
      assert r.bookings == DeleteBookingsOf(db.bookings, seatId);
      forall k | 0 <= k < |r.bookings|
        ensures r.bookings[k].id < r.nextBookingId && r.bookings[k].seatId < r.nextSeatId
      {
        assert r.bookings[k] in db.bookings;
      }
    }
  }

  /**
   * Reset keeps at most one booking per seat when at most one seat is
   * numbered 1: the reopened seat loses all its bookings.
   */
  lemma ResetKeepsAtMostOne(db: Db)
    requires AtMostOneBooking(db)
    requires forall i, j ::
               (0 <= i < |db.seats| && 0 <= j < |db.seats| &&
                db.seats[i].number == ResetNumber && db.seats[j].number == ResetNumber) ==> i == j
    ensures AtMostOneBooking(Reset(db))
  {
    ResetEffect(db);
    var r := Reset(db);
    var f := FindFirst(db.seats, NumberIs(ResetNumber));
    forall j | 0 <= j < |r.seats|
      ensures CountFor(r.bookings, r.seats[j].id) <= 1
      ensures r.seats[j].status == Available ==> CountFor(r.bookings, r.seats[j].id) == 0
    {
      if f.Some? {
        CountAfterDelete(db.bookings, db.seats[f.value].id, r.seats[j].id);
        if db.seats[j].number == ResetNumber {
          assert j == f.value;
        }
      }
    }
  }

  /**
   * One seat after reset: it keeps its id, it is AVAILABLE when numbered 1
   * and otherwise unchanged, and it keeps its bookings unless it has the id
   * of the first seat numbered 1, in which case it has none.
   */
  lemma ResetSeat(db: Db, j: nat)
    requires j < |db.seats|
    ensures var r := Reset(db);
            var f := FindFirst(db.seats, NumberIs(ResetNumber));
      && j < |r.seats| && r.seats[j].id == db.seats[j].id
      && (db.seats[j].number == ResetNumber ==> r.seats[j].status == Available)
      && (db.seats[j].number != ResetNumber ==> r.seats[j] == db.seats[j])
      && CountFor(r.bookings, r.seats[j].id)
         == if f.Some? && db.seats[f.value].id == db.seats[j].id then 0 else CountFor(db.bookings, db.seats[j].id)
  {
    var r := Reset(db);
    var reopened := SetStatusWhere(db.seats, NumberIs(ResetNumber), Available);
    FindByNumberIgnoresStatus(db.seats, NumberIs(ResetNumber), Available, ResetNumber);
    assert r.seats == reopened;
    var f := FindFirst(db.seats, NumberIs(ResetNumber));
    if f.Some? {
      var seatId := db.seats[f.value].id;
      assert reopened[f.value].id == seatId;
      assert r.bookings == DeleteBookingsOf(db.bookings, seatId);
      CountAfterDelete(db.bookings, seatId, db.seats[j].id);
    } else {
      assert r.bookings == db.bookings;
      assert !Matches(db.seats[j], NumberIs(ResetNumber));
    }
  }

  /** Reset never gives a seat a second booking: each seat's count stays or drops to zero. */
  lemma ResetKeepsSingleBookings(db: Db)
    requires forall i :: 0 <= i < |db.seats| ==> CountFor(db.bookings, db.seats[i].id) <= 1
    ensures var r := Reset(db);
      forall i :: 0 <= i < |r.seats| ==> CountFor(r.bookings, r.seats[i].id) <= 1
  {
    ResetEffect(db);
    forall j | 0 <= j < |Reset(db).seats| ensures CountFor(Reset(db).bookings, Reset(db).seats[j].id) <= 1 {
      ResetSeat(db, j);
    }
  }

  /** Every booked seat numbered 1 is the first seat numbered 1: the only one whose bookings reset deletes. */
  ghost predicate OnlyFirstResetSeatBooked(db: Db) {
    forall j :: 0 <= j < |db.seats| && db.seats[j].number == ResetNumber && CountFor(db.bookings, db.seats[j].id) > 0 ==>
      FindFirst(db.seats, NumberIs(ResetNumber)) == Some(j)
  }

  /** Reset keeps the booking invariant when only the first seat numbered 1 may be booked. */
  lemma ResetKeepsAtMostOneWhenOnlyFirstBooked(db: Db)
    requires AtMostOneBooking(db) && OnlyFirstResetSeatBooked(db)
    ensures AtMostOneBooking(Reset(db))
  {
    ResetEffect(db);
    var r := Reset(db);
    forall j | 0 <= j < |r.seats|
      ensures CountFor(r.bookings, r.seats[j].id) <= 1
      ensures r.seats[j].status == Available ==> CountFor(r.bookings, r.seats[j].id) == 0
    {
      ResetSeat(db, j);
      if db.seats[j].number == ResetNumber && FindFirst(db.seats, NumberIs(ResetNumber)) != Some(j) {
        assert CountFor(db.bookings, db.seats[j].id) == 0;
      }
    }
  }

  /** A booked seat numbered 1 after the first one is reopened with its booking kept. */
  lemma ResetLeavesLaterResetSeatBooked(db: Db, j: nat)
    requires Valid(db) && j < |db.seats| && db.seats[j].number == ResetNumber
    requires CountFor(db.bookings, db.seats[j].id) > 0 && FindFirst(db.seats, NumberIs(ResetNumber)) != Some(j)
    ensures !AtMostOneBooking(Reset(db))
  {
    ResetEffect(db);
    var r := Reset(db);
    var f := FindFirst(db.seats, NumberIs(ResetNumber));
    assert f.Some? && f.value != j;
    assert db.seats[f.value].id != db.seats[j].id;
    CountAfterDelete(db.bookings, db.seats[f.value].id, db.seats[j].id);
    assert r.seats[j].id == db.seats[j].id;
    assert r.seats[j].status == Available && CountFor(r.bookings, r.seats[j].id) > 0;
  }

  /**
   * On a well-formed store with the booking invariant, reset keeps the
   * invariant exactly when no seat numbered 1 other than the first one has a
   * booking.
   */
  lemma ResetKeepsAtMostOneIff(db: Db)
    requires Valid(db) && AtMostOneBooking(db)
    ensures AtMostOneBooking(Reset(db)) <==> OnlyFirstResetSeatBooked(db)
  {
    if OnlyFirstResetSeatBooked(db) {
      ResetKeepsAtMostOneWhenOnlyFirstBooked(db);
    } else {
      var j :| 0 <= j < |db.seats| && db.seats[j].number == ResetNumber
               && CountFor(db.bookings, db.seats[j].id) > 0
               && FindFirst(db.seats, NumberIs(ResetNumber)) != Some(j);
      ResetLeavesLaterResetSeatBooked(db, j);
    }
  }

  /**
   * With two seats numbered 1 (say from two seeded events), reset reopens
   * both but deletes only the first one's bookings: the second seat is
   * AVAILABLE while a booking still references it.
   */
  lemma ResetWithTwoSeatsNumberedOne()
    ensures var db := Db([Seat(0, 1, "A", Available, 0), Seat(1, 1, "A", Booked, 1)], map[],
                         [Booking(0, "alice", 1)], [], map[], [], 2, 1, 2);
      Valid(db) && AtMostOneBooking(db) && !AtMostOneBooking(Reset(db))
  {
    var seats := [Seat(0, 1, "A", Available, 0), Seat(1, 1, "A", Booked, 1)];
    var bs := [Booking(0, "alice", 1)];
    var db := Db(seats, map[], bs, [], map[], [], 2, 1, 2);
    assert bs[..0] == [];
    assert CountFor(bs, 0) == 0;
    assert CountFor(bs, 1) == 1;
    var reopened := SetStatusWhere(seats, NumberIs(ResetNumber), Available);
    assert reopened[0] == seats[0] && reopened[1] == Seat(1, 1, "A", Available, 1);
    assert FindFirst(reopened, NumberIs(ResetNumber)) == Some(0);
    assert DeleteBookingsOf(bs, 0) == bs by {
      assert bs == bs[..0] + [bs[0]];
    }
    assert Reset(db) == db.(seats := reopened);
    assert reopened[1].status == Available && CountFor(bs, reopened[1].id) == 1;
  }
}
