/**
 * The seed script (prisma/seed.ts lines 5-36): create the event, build the
 * payload of 10,000 seat records in a loop, and insert them in one batch.
 */
module SeedScript {
  import opened Tables
  import opened StoreState

  const SeatCount: nat := 10000
  const EventName: string := "The Eras Tour"
  const EventDate: string := "2026-06-01"
  const SeatRow: string := "A"

  /** A seat record before the database assigns its id. */
  datatype SeatData = SeatData(number: int, row: string, status: SeatStatus, eventId: nat)

  /** The payload the loop builds, entry k for seat number k + 1. */
  function SeatsPayload(eventId: nat): (r: seq<SeatData>)
    ensures |r| == SeatCount
    ensures forall k :: 0 <= k < |r| ==> r[k].number == k + 1 && r[k].eventId == eventId
  {
    seq(SeatCount, k => SeatData(k + 1, SeatRow, Available, eventId))
  }

  /** The loop of lines 21-28: push one record per seat number 1..10000. */
  method BuildSeatsPayload(eventId: nat) returns (payload: seq<SeatData>)
    ensures |payload| == SeatCount
    ensures forall k :: 0 <= k < |payload| ==> payload[k] == SeatData(k + 1, SeatRow, Available, eventId)
  {
    payload := [];
    for i := 1 to SeatCount + 1
      invariant |payload| == i - 1
      invariant forall k :: 0 <= k < |payload| ==> payload[k] == SeatData(k + 1, SeatRow, Available, eventId)
    {
      payload := payload + [SeatData(i, SeatRow, Available, eventId)];
    }
  }

  /** `seat.createMany({ data })`: the records as seats with consecutive fresh ids. */
  function CreatedSeats(payload: seq<SeatData>, firstId: nat): (r: seq<Seat>)
    ensures |r| == |payload|
    ensures forall k :: 0 <= k < |payload| ==>
      r[k] == Seat(firstId + k, payload[k].number, payload[k].row, payload[k].status, payload[k].eventId)
  {
    seq(|payload|, k requires 0 <= k < |payload| =>
      Seat(firstId + k, payload[k].number, payload[k].row, payload[k].status, payload[k].eventId))
  }

  /** The event record of lines 9-15. */
  function SeedEvent(db: Db): (r: Event)
    ensures Valid(db) ==> forall e :: 0 <= e < |db.events| ==> db.events[e].id != r.id
    ensures r.totalSeats == |SeatsPayload(r.id)|
  {
    Event(db.nextEventId, EventName, EventDate, SeatCount)
  }

  function Seed(db: Db): (r: Db)
    ensures |r.seats| == |db.seats| + SeatCount && r.seats[..|db.seats|] == db.seats
    ensures r.events == db.events + [SeedEvent(db)]
    ensures r.nextSeatId == db.nextSeatId + SeatCount && r.nextEventId == db.nextEventId + 1
    ensures && r.bookings == db.bookings && r.users == db.users && r.locks == db.locks
            && r.published == db.published && r.nextBookingId == db.nextBookingId
  {
    var event := SeedEvent(db);
    var created := CreatedSeats(SeatsPayload(event.id), db.nextSeatId);
    db.(events := db.events + [event], nextEventId := db.nextEventId + 1,
        seats := db.seats + created, nextSeatId := db.nextSeatId + |created|)
  }

  /**
   * The payload: 10,000 entries, numbers 1..10000 strictly increasing (so no
   * duplicates), every entry AVAILABLE in row "A" and referencing the event.
   */
  lemma PayloadShape(eventId: nat)
    ensures var p := SeatsPayload(eventId);
      && |p| == SeatCount
      && (forall k :: 0 <= k < |p| ==> p[k].number == k + 1)
      && (forall a, b :: 0 <= a < b < |p| ==> p[a].number < p[b].number)
      && (forall k :: 0 <= k < |p| ==> p[k].status == Available && p[k].row == SeatRow && p[k].eventId == eventId)
  {
  }

  /**
   * What seeding does: one event appended whose `totalSeats` equals the
   * number of seats created; the old seats kept; one new seat per number
   * 1..10000, AVAILABLE, in row "A", referencing that event's id.
   */
  lemma SeedEffect(db: Db)
    ensures var r := Seed(db);
            var event := r.events[|db.events|];
      && |r.events| == |db.events| + 1 && r.events[..|db.events|] == db.events
      && event.id == db.nextEventId && event.totalSeats == |r.seats| - |db.seats|
      && |r.seats| == |db.seats| + SeatCount && r.seats[..|db.seats|] == db.seats
      && (forall j :: |db.seats| <= j < |r.seats| ==>
            && r.seats[j].number == j - |db.seats| + 1 && r.seats[j].status == Available
            && r.seats[j].row == SeatRow && r.seats[j].eventId == event.id)
      && r.bookings == db.bookings && r.users == db.users && r.locks == db.locks && r.published == db.published
  {
  }

  /** Seeding keeps the ids well formed and at most one booking per seat: the new seats have fresh ids and no bookings. */
  lemma SeedPreserves(db: Db)
    requires Valid(db)
    ensures Valid(Seed(db))
    ensures AtMostOneBooking(db) ==> AtMostOneBooking(Seed(db))
  {
    var r := Seed(db);
    var n := |db.seats|;
    assert forall j :: 0 <= j < n ==> r.seats[j] == db.seats[j];
    assert forall j :: n <= j < |r.seats| ==> r.seats[j].id == db.nextSeatId + (j - n);
    forall j | n <= j < |r.seats| ensures CountFor(r.bookings, r.seats[j].id) == 0 {
      assert forall k :: 0 <= k < |db.bookings| ==> db.bookings[k].seatId < db.nextSeatId <= r.seats[j].id;
    }
  }
}
