/**
 * The queue worker: `processBooking(userId, seatNumber)` and the
 * `eachMessage` dispatch of the consumer (src/worker.ts lines 18-71, 81-83).
 * The lock is taken with SET NX under `lock:seat:<n>` with the user id as
 * owner value; the try block checks the seat, writes and publishes; the
 * finally block releases with compare-and-delete.
 */
module Worker {
  import opened Wrappers
  import opened Tables
  import opened StoreState
  import opened Text
  import opened Locks

  /** How one call of the worker ended; the source only logs this. */
  datatype Exit = Skipped | Dropped | Unavailable | Errored | Succeeded

  datatype Step = Step(db: Db, exit: Exit)

  const WorkerUserName: string := "Worker User"

  /** The try block (lines 33-57): run while the lock is held. */
  function UnderLock(db: Db, userId: string, seatNumber: int, fault: Fault): (r: Step)
    ensures r.exit in {Unavailable, Errored, Succeeded}
    ensures r.db.locks == db.locks
    ensures r.exit == Succeeded <==>
              fault == NoFault && match FindFirst(db.seats, NumberIs(seatNumber))
                                  case None => false
                                  case Some(i) => db.seats[i].status == Available
    ensures r.exit == Succeeded ==> r.db.published == db.published + [Notice(UpdatesChannel, seatNumber, Booked)]
    ensures r.exit != Succeeded ==> r.db.published == db.published
    ensures r.exit == Unavailable ==> r.db == db
  {
    if fault == FailFind then Step(db, Errored)
    else match FindFirst(db.seats, NumberIs(seatNumber))
      case None => Step(db, Unavailable)
      case Some(i) =>
        if db.seats[i].status != Available then Step(db, Unavailable)
        else
          var w := WriteBooking(db, userId, i, WorkerUserName, fault);
          if !w.completed || fault == FailPublish then Step(w.db, Errored)
          else Step(w.db.(published := w.db.published + [Notice(UpdatesChannel, seatNumber, Booked)]), Succeeded)
  }

  /** `processBooking`: acquire, try block, compare-and-delete release in `finally`. */
  function ProcessBooking(db: Db, userId: string, seatNumber: int, fault: Fault): (r: Step)
    ensures r.exit != Skipped
    ensures r.exit == Dropped <==> LockKey(seatNumber) in db.locks
    ensures r.exit == Dropped ==> r.db == db
    ensures r.exit != Dropped ==> r.db.locks == db.locks
  {
    var key := LockKey(seatNumber);
    var acquired := SetNx(db.locks, key, userId);
    if !acquired.ok then Step(db, Dropped)
    else
      var r := UnderLock(db.(locks := acquired.locks), userId, seatNumber, fault);
      Step(r.db.(locks := CompareAndDelete(r.db.locks, key, userId)), r.exit)
  }

  /** A booking request as the API serialises it onto the topic. */
  datatype BookingRequest = BookingRequest(userId: string, seatNumber: int)

  /** A consumed message; `value` is None when the message has no payload. */
  datatype Message = Message(value: Option<BookingRequest>)

  /** `eachMessage`: skip a message without value, otherwise process the request it carries. */
  function EachMessage(db: Db, m: Message, fault: Fault): (r: Step)
    ensures r.exit == Skipped <==> m.value.None?
    ensures m.value.None? ==> r.db == db
  {
    match m.value
    case None => Step(db, Skipped)
    case Some(req) => ProcessBooking(db, req.userId, req.seatNumber, fault)
  }

  /** A message with no value is skipped and changes nothing. */
  lemma EmptyMessageSkipped(db: Db, fault: Fault)
    ensures EachMessage(db, Message(None), fault) == Step(db, Skipped)
  {
  }

  /** When the lock key is already present the worker drops the request and the whole store is unchanged. */
  lemma BusyLockChangesNothing(db: Db, userId: string, seatNumber: int, fault: Fault)
    requires LockKey(seatNumber) in db.locks
    ensures ProcessBooking(db, userId, seatNumber, fault) == Step(db, Dropped)
  {
  }

  /** The try block never touches the lock map. */
  lemma UnderLockKeepsLocks(db: Db, userId: string, seatNumber: int, fault: Fault)
    ensures UnderLock(db, userId, seatNumber, fault).db.locks == db.locks
  {
  }

  /**
   * When the key was free, the lock the worker took is gone again on every
   * exit path (unavailable, error and success): the lock map on return is
   * the one it started with.
   */
  lemma LockReleasedOnEveryPath(db: Db, userId: string, seatNumber: int, fault: Fault)
    requires LockKey(seatNumber) !in db.locks
    ensures var r := ProcessBooking(db, userId, seatNumber, fault);
      r.exit != Dropped && r.db.locks == db.locks && LockKey(seatNumber) !in r.db.locks
  {
  }

  /**
   * With the lock taken: a missing seat or a seat that is not AVAILABLE
   * leaves seats, users, bookings and the published log unchanged.
   */
  lemma UnavailableChangesNothing(db: Db, userId: string, seatNumber: int, fault: Fault)
    requires Valid(db) && LockKey(seatNumber) !in db.locks && fault != FailFind
    requires var f := FindFirst(db.seats, NumberIs(seatNumber));
             f.None? || db.seats[f.value].status != Available
    ensures ProcessBooking(db, userId, seatNumber, fault) == Step(db, Unavailable)
  {
    LockReleasedOnEveryPath(db, userId, seatNumber, fault);
  }

  /**
   * The worker succeeds exactly when the key was free, no store call
   * throws, and the first seat with that number is AVAILABLE. Then that
   * seat, and no other, becomes BOOKED, exactly one booking
   * (userId, seat id) is appended, the user is upserted as "Worker User",
   * exactly one {seatNumber, BOOKED} notice is published, and the lock map
   * is back to what it was.
   */
  lemma SuccessBooksExactlyOnce(db: Db, userId: string, seatNumber: int, fault: Fault)
    requires Valid(db)
    ensures var r := ProcessBooking(db, userId, seatNumber, fault);
            var f := FindFirst(db.seats, NumberIs(seatNumber));
      && (r.exit == Succeeded <==>
            LockKey(seatNumber) !in db.locks && fault == NoFault && f.Some? && db.seats[f.value].status == Available)
      && (r.exit == Succeeded ==>
            && |r.db.seats| == |db.seats|
            && r.db.seats[f.value] == db.seats[f.value].(status := Booked)
            && (forall j :: 0 <= j < |db.seats| && j != f.value ==> r.db.seats[j] == db.seats[j])
            && r.db.bookings == db.bookings + [Booking(db.nextBookingId, userId, db.seats[f.value].id)]
            && r.db.published == db.published + [Notice(UpdatesChannel, seatNumber, Booked)]
            && r.db.users == UpsertUser(db.users, userId, WorkerUserName)
            && r.db.locks == db.locks)
  {
    var key := LockKey(seatNumber);
    if key !in db.locks {
      var held := db.(locks := db.locks[key := userId]);
      var f := FindFirst(db.seats, NumberIs(seatNumber));
      if fault != FailFind && f.Some? && db.seats[f.value].status == Available {
        WriteBookingEffect(held, userId, f.value, WorkerUserName, fault);
      }
    }
  }

  /** A notice is published only by a successful call, never by a dropped, unavailable or failed one. */
  lemma PublishedOnlyOnSuccess(db: Db, userId: string, seatNumber: int, fault: Fault)
    requires Valid(db)
    ensures var r := ProcessBooking(db, userId, seatNumber, fault);
      r.exit != Succeeded ==> r.db.published == db.published
  {
    var key := LockKey(seatNumber);
    if key !in db.locks {
      var held := db.(locks := db.locks[key := userId]);
      var f := FindFirst(db.seats, NumberIs(seatNumber));
      if fault != FailFind && f.Some? && db.seats[f.value].status == Available {
        WriteBookingEffect(held, userId, f.value, WorkerUserName, fault);
      }
    }
  }

  lemma UnderLockKeeps(db: Db, userId: string, seatNumber: int, fault: Fault)
    requires Valid(db)
    ensures Valid(UnderLock(db, userId, seatNumber, fault).db)
    ensures AtMostOneBooking(db) ==> AtMostOneBooking(UnderLock(db, userId, seatNumber, fault).db)
  {
    var f := FindFirst(db.seats, NumberIs(seatNumber));
    if fault != FailFind && f.Some? && db.seats[f.value].status == Available {
      var w := WriteBooking(db, userId, f.value, WorkerUserName, fault).db;
      WriteBookingKeepsValid(db, userId, f.value, WorkerUserName, fault);
      if AtMostOneBooking(db) {
        WriteBookingKeepsAtMostOne(db, userId, f.value, WorkerUserName, fault);
      }
      InvariantsIgnoreLocksAndLog(w, w.locks, w.published + [Notice(UpdatesChannel, seatNumber, Booked)]);
    }
  }

  /** Every call keeps the ids well formed and, when it held before, at most one booking per seat. */
  lemma ProcessBookingPreserves(db: Db, userId: string, seatNumber: int, fault: Fault)
    requires Valid(db)
    ensures Valid(ProcessBooking(db, userId, seatNumber, fault).db)
    ensures AtMostOneBooking(db) ==> AtMostOneBooking(ProcessBooking(db, userId, seatNumber, fault).db)
  {
    var key := LockKey(seatNumber);
    if key !in db.locks {
      var held := db.(locks := db.locks[key := userId]);
      InvariantsIgnoreLocksAndLog(db, held.locks, db.published);
      UnderLockKeeps(held, userId, seatNumber, fault);
      var r := UnderLock(held, userId, seatNumber, fault).db;
      InvariantsIgnoreLocksAndLog(r, CompareAndDelete(r.locks, key, userId), r.published);
    }
  }

  /**
   * Redelivery: replaying a request after it succeeded, by any user and
   * with any fault, books nothing and leaves the store exactly as the first
   * call left it.
   */
  lemma ReplayAfterSuccessChangesNothing(db: Db, userId: string, seatNumber: int, userId': string, fault': Fault)
    requires Valid(db)
    requires ProcessBooking(db, userId, seatNumber, NoFault).exit == Succeeded
    ensures var first := ProcessBooking(db, userId, seatNumber, NoFault).db;
            var again := ProcessBooking(first, userId', seatNumber, fault');
      again.exit in {Unavailable, Errored} && again.db == first
  {
    var first := ProcessBooking(db, userId, seatNumber, NoFault).db;
    SuccessBooksExactlyOnce(db, userId, seatNumber, NoFault);
    LockReleasedOnEveryPath(db, userId, seatNumber, NoFault);
    var i := FindFirst(db.seats, NumberIs(seatNumber)).value;
    assert first.seats[i].number == seatNumber;
    assert forall j :: 0 <= j < i ==> first.seats[j] == db.seats[j];
    assert FindFirst(first.seats, NumberIs(seatNumber)) == Some(i);
    ProcessBookingPreserves(db, userId, seatNumber, NoFault);
    if fault' != FailFind {
      UnavailableChangesNothing(first, userId', seatNumber, fault');
    } else {
      LockReleasedOnEveryPath(first, userId', seatNumber, fault');
    }
  }
}
