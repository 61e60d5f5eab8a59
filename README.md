# Ticket-Blitz seat booking core in Dafny

This project models the seat-booking decision procedure of Ticket-Blitz, a concert ticketing
system. The code runs against Prisma (seats, users, bookings, events) and Redis (lock keys and a
pub/sub channel). The model replaces both with in-memory values:

- `Tables`: the seat, user, booking and event records, and the Prisma queries the core issues.
  These are `findFirst` with a `where` filter, `update`/`updateMany` of a seat's status, the
  user `upsert` and the bookings' `deleteMany`.
- `Locks`: the Redis lock map. It covers `SET key owner NX`, the Lua compare-and-delete
  unlock script, and TTL expiry as a separate operation.
- `Text`: the lock key `lock:seat:<n>`, with the seat number printed in decimal.
- `StoreState`: the whole store `Db`, its well-formedness (`Valid`), the booking invariant
  `AtMostOneBooking`, and the write sequence every booking path shares: upsert user, set the
  seat BOOKED by id, insert booking.
- `Worker`: the queue worker's `processBooking` and the consumer's `eachMessage` callback.
- `Handlers`: the routes `book-async`, `book-naive` and `random-seat`.
- `ResetScript`, `SeedScript`: the two Prisma scripts.
- `Runs`: sequential runs of these operations.
- `Server`: a `Store` class. Its fields are the tables, the lock map and the publish log. Each
  route, the worker and each script is a method that changes the fields call by call, as the
  source does. Each method is proved to end in the state the value-level functions above give.

A store call that throws is modelled by a `Fault` parameter. It names the first call that
throws: find, upsert, update, create or publish. The path stops there. The worker and
`book-async` catch the error and `book-naive` lets it escape (`Thrown`). The worker returns
nothing in the source; the model's `Worker.Exit` names the path it took. The source logs the
dropped, unavailable, failed and successful paths, and skips a message without value silently.

Three details of the code shape what the model proves:
- The seat write is a plain `update` by id with no guard on the old status
  (src/index.ts:62-65, src/worker.ts:50).
- The lock owner value is the user's id, so two attempts by one user share it
  (src/worker.ts:24,69). A stale release by an earlier attempt of the same user therefore
  deletes that user's later lock (`Locks.StaleReleaseBySameUserDeletes`).
- When the lock is busy, the worker logs and drops the request (src/worker.ts:26-31).

The guarantee that at most one booking exists per seat is proved for sequential runs only. A
check of the seat's status comes before every booking write.

The reset script updates every seat numbered 1 but deletes only the bookings of the first such
seat. No seat ever gets a second booking from reset (`ResetScript.ResetKeepsSingleBookings`).
Reset keeps the whole invariant exactly when no seat numbered 1 other than the first one has a
booking (`ResetScript.ResetKeepsAtMostOneIff`). Otherwise the later seat is AVAILABLE again
while its booking stays, and a later booking of it would be a second one. Seeding twice gives
two seats numbered 1, and `ResetScript.ResetWithTwoSeatsNumberedOne` exhibits such a state.

## Model

| member | source | states |
|---|---|---|
| Text.LockKey | src/worker.ts:19 | the lock key is `lock:seat:` followed by the seat number's exact decimal text (what `${seatNumber}` prints for seat numbers up to 2^53 in magnitude), and that suffix reads back as the seat number |
| Text.NatDigitsValue | src/worker.ts:19 | the decimal text of a natural number reads back as that number |
| Text.IntToStringValue | src/worker.ts:19 | the exact decimal text of an integer, with '-' for negatives (what `${n}` prints for integers up to 2^53 in magnitude), reads back as n |
| Text.LockKeyInjective | src/worker.ts:19 | two seat numbers share a lock key if and only if they are equal, so a lock on one seat never blocks another |
| Tables.FindFirst | src/worker.ts:34 | `findFirst` gives the first seat in table order that matches the filter; it gives nothing exactly when no seat matches |
| Tables.SetStatusWhere | prisma/reset.ts:6-9 | `updateMany` gives every matching seat the new status and leaves every other seat as it was |
| Tables.UpsertUser | src/worker.ts:44-48 | the upsert leaves an existing email's users unchanged and creates a missing one as id = email = userId |
| Tables.UpsertIdempotent | src/index.ts:51-59 | a second upsert for the same identity changes nothing |
| Tables.DeleteBookingsOf | prisma/reset.ts:20-22 | `deleteMany` keeps every booking of another seat as often as it occurred, removes every booking of the seat, and shrinks the table by that seat's count |
| Tables.CountAfterDelete | prisma/reset.ts:20-22 | after deleting a seat's bookings that seat has none, and every other seat keeps its count |
| Tables.DeleteBookingsIdempotent | prisma/reset.ts:18-23 | deleting a seat's bookings twice equals deleting them once |
| Tables.SetStatusWhereIdempotent | prisma/reset.ts:6-9 | for every filter and status, setting the status on the seats the filter selects twice equals doing it once |
| Locks.SetNx | src/worker.ts:24-31 | SET NX succeeds exactly when the key is absent, and then adds only that key mapped to the owner; otherwise nothing changes |
| Locks.CompareAndDelete | src/worker.ts:61-69 | the unlock script deletes the key only when its stored value equals the owner; otherwise the lock map is unchanged |
| Locks.Expire | src/worker.ts:20 | TTL expiry removes the key, keeps every other key with its owner and adds none |
| Locks.AcquireThenRelease | src/worker.ts:24-69 | acquiring a free key and releasing it with the same owner restores the lock map |
| Locks.HeldKeyRefusesAcquire | src/worker.ts:24-31 | while the key is held, a second acquire by anyone fails and changes nothing |
| Locks.StaleReleaseSparesOtherOwner | src/worker.ts:61-69 | a release after expiry and re-acquire by a different user leaves that user's lock in place |
| Locks.StaleReleaseBySameUserDeletes | src/worker.ts:24-69 | since the owner value is the user id, a stale release by the same user deletes that user's newer lock |
| StoreState.InsertBooking | src/worker.ts:51 | booking create appends exactly one booking (userId, seatId) with the next id, keeps the earlier ones, advances the booking id counter and leaves seats, users, events, locks, the log and the other counters as they were |
| StoreState.WriteBooking | src/worker.ts:44-51 | the write sequence completes exactly when none of upsert, update and create throws; a completed one adds one booking, an incomplete one none; it never changes the number of seats, the locks, the log, the events or the seat counter (its full effect is WriteBookingEffect) |
| StoreState.WriteBookingEffect | src/worker.ts:44-51 | the write sequence completes exactly when no write throws; then the seat alone is BOOKED and one booking is appended. A failed create leaves the seat BOOKED with no booking. An earlier failure changes no seat or booking |
| StoreState.WriteBookingKeepsValid | src/worker.ts:44-51 | the write sequence keeps seat ids unique and every id below its counter |
| StoreState.WriteBookingKeepsAtMostOne | src/worker.ts:34-51 | writing to an AVAILABLE seat keeps at most one booking per seat and none on AVAILABLE seats |
| Worker.EmptyMessageSkipped | src/worker.ts:81 | a message without value is skipped with no state change |
| Worker.UnderLock | src/worker.ts:33-59 | the try block ends Unavailable, Errored or Succeeded; it succeeds exactly when no call throws and the first seat with the number is AVAILABLE; it publishes one BOOKED notice exactly on success; it never touches the lock map; Unavailable leaves the store unchanged |
| Worker.ProcessBooking | src/worker.ts:18-71 | the request is dropped exactly when the lock key is already held, and then the store is unchanged; on every other path the lock map ends as it began (the rest is stated by SuccessBooksExactlyOnce, PublishedOnlyOnSuccess and ProcessBookingPreserves) |
| Worker.EachMessage | src/worker.ts:80-84 | a message is skipped exactly when it has no value, and a skipped message changes nothing |
| Worker.BusyLockChangesNothing | src/worker.ts:24-31 | when the lock key is present the request is dropped and seats, users, bookings, locks and the published log are unchanged |
| Worker.UnderLockKeepsLocks | src/worker.ts:33-57 | the try block never touches the lock map |
| Worker.LockReleasedOnEveryPath | src/worker.ts:33-70 | when the key was free, it is absent again on return on every path (unavailable, error, success) and the lock map is as before |
| Worker.UnavailableChangesNothing | src/worker.ts:34-39 | a missing seat or one that is not AVAILABLE changes no seat, user, booking or lock and publishes nothing |
| Worker.SuccessBooksExactlyOnce | src/worker.ts:50-54 | success happens exactly when the key is free, no call throws and the seat is AVAILABLE. Then only that seat becomes BOOKED, one booking (userId, seat id) and one {seatNumber, BOOKED} notice are appended, the user table is the "Worker User" upsert of the old one, and the lock map is as it was |
| Worker.PublishedOnlyOnSuccess | src/worker.ts:54-59 | a dropped, unavailable or failed call publishes nothing |
| Worker.UnderLockKeeps | src/worker.ts:33-57 | the try block keeps the store well formed and the booking invariant |
| Worker.ProcessBookingPreserves | src/worker.ts:18-71 | every worker call keeps the store well formed and at most one booking per seat |
| Worker.ReplayAfterSuccessChangesNothing | src/worker.ts:34-39 | redelivering a request after it succeeded books nothing and leaves the store exactly as it was |
| Handlers.RandomSeat | src/index.ts:152-157 | random-seat gives the first AVAILABLE seat in table order, or nothing exactly when no seat is AVAILABLE |
| Handlers.BookAsync | src/index.ts:31-85 | book-async always replies, with 200, 404, 409 or 500; 200 exactly when no call throws and the first seat with the number is AVAILABLE; no booking is added without 200; 404 and 409 change nothing; locks and the log are never touched |
| Handlers.BookNaive | src/index.ts:96-149 | book-naive throws exactly when the lookup throws or a write on an AVAILABLE seat throws, and otherwise replies 200, 404 or 409; no booking is added without 200; locks and the log are never touched |
| Handlers.AsyncNotFound | src/index.ts:36-42 | book-async on a number no seat has answers 404 and changes nothing |
| Handlers.AsyncTaken | src/index.ts:44-46 | book-async on a seat that is not AVAILABLE answers 409 and changes nothing |
| Handlers.AsyncSuccess | src/index.ts:61-79 | 200 comes exactly when the seat is AVAILABLE and no write throws. Then only that seat becomes BOOKED and one booking (userId, seatId) is appended to the existing ones. The reply carries that booking's id and "Booked", and the user is upserted |
| Handlers.AsyncErrorKeepsBookings | src/index.ts:81-84 | book-async always replies, never touches locks or the published log, and on 404, 409 or 500 adds no booking |
| Handlers.AsyncPreserves | src/index.ts:31-85 | book-async keeps the store well formed and at most one booking per seat |
| Handlers.SecondAsyncBooksNothing | src/index.ts:44-46 | after a successful book-async, a second call for the same seat answers 409 (500 if its lookup throws) and changes nothing |
| Handlers.NaiveMatchesAsync | src/index.ts:96-149 | run alone, book-naive leaves the same store as book-async and gives the same 404, 409 and booking id; it throws where book-async answers 500 |
| Handlers.RandomSeatAfterBooking | src/index.ts:152-157 | a seat book-async just booked is never the one random-seat offers |
| ResetScript.FindByNumberIgnoresStatus | prisma/reset.ts:18 | changing statuses does not change which seat is the first with a given number |
| ResetScript.Reset | prisma/reset.ts:5-26 | reset keeps every seat's id and number, leaves every seat numbered 1 AVAILABLE, only removes bookings, and changes no user, event, lock, notice or seat counter (its exact effect is ResetEffect) |
| ResetScript.ResetEffect | prisma/reset.ts:5-26 | every seat numbered 1 becomes AVAILABLE and other seats are unchanged. The first seat numbered 1 keeps no booking, and a booking remains exactly when it belongs to another seat. With no seat numbered 1, all bookings remain. Users, events, locks, the log and all three counters are unchanged |
| ResetScript.ResetKeepsOtherBookings | prisma/reset.ts:18-23 | reset keeps every booking record of the other seats as often as it occurred and removes every record of the first seat numbered 1 |
| ResetScript.ResetIdempotent | prisma/reset.ts:6-23 | running reset twice gives the same store as running it once |
| ResetScript.ResetKeepsValid | prisma/reset.ts:6-23 | reset keeps the store well formed |
| ResetScript.ResetKeepsAtMostOne | prisma/reset.ts:6-23 | with at most one seat numbered 1, reset keeps at most one booking per seat and none on AVAILABLE seats |
| ResetScript.ResetSeat | prisma/reset.ts:6-23 | one seat after reset keeps its id, is AVAILABLE if numbered 1 and otherwise unchanged, and keeps its bookings unless it shares the id of the first seat numbered 1, which has none |
| ResetScript.ResetKeepsSingleBookings | prisma/reset.ts:6-23 | reset never leaves a seat with two bookings when none had two before, whatever the seat numbers |
| ResetScript.ResetKeepsAtMostOneWhenOnlyFirstBooked | prisma/reset.ts:6-23 | when no seat numbered 1 but the first has a booking, reset keeps at most one booking per seat and none on AVAILABLE seats |
| ResetScript.ResetLeavesLaterResetSeatBooked | prisma/reset.ts:6-23 | a booked seat numbered 1 that is not the first one is reopened with its booking kept, so the booking invariant fails |
| ResetScript.ResetKeepsAtMostOneIff | prisma/reset.ts:6-23 | on a well-formed store with the booking invariant, reset keeps the invariant if and only if no seat numbered 1 other than the first has a booking |
| ResetScript.ResetWithTwoSeatsNumberedOne | prisma/reset.ts:6-23 | with two seats numbered 1 where the second is booked, reset leaves an AVAILABLE seat that still has a booking |
| SeedScript.BuildSeatsPayload | prisma/seed.ts:20-28 | the loop builds exactly 10,000 entries; entry k-1 has number k, row "A", status AVAILABLE and the event's id |
| SeedScript.SeatsPayload | prisma/seed.ts:20-28 | the payload has 10,000 entries, entry k-1 numbered k, all referencing the event |
| SeedScript.SeedEvent | prisma/seed.ts:9-15 | the event gets an id no existing event has, and its totalSeats equals the number of seats the payload creates |
| SeedScript.Seed | prisma/seed.ts:5-36 | seeding appends the event and 10,000 seats, keeps the old seats, advances the seat and event counters, and changes no booking, user, lock or notice (the new seats are stated by SeedEffect) |
| SeedScript.CreatedSeats | prisma/seed.ts:31-33 | createMany inserts one seat per payload entry, in payload order, with that entry's number, row, status and event and the consecutive ids from the first free one |
| SeedScript.PayloadShape | prisma/seed.ts:21-28 | the payload numbers run 1..10000, strictly increasing and so without duplicates; every entry is AVAILABLE, in row "A" and references the event |
| SeedScript.SeedEffect | prisma/seed.ts:5-36 | seeding appends one event whose totalSeats equals the number of seats created. It keeps the old seats and adds 10,000 AVAILABLE seats numbered 1..10000 in row "A" that reference that event |
| SeedScript.SeedPreserves | prisma/seed.ts:31-33 | the seeded seats get fresh ids and no bookings, so the store stays well formed with at most one booking per seat |
| Runs.ApplyPreserves | src/worker.ts:81-83 | each message, route call, lock expiry or seeding keeps the store well formed and the booking invariant |
| Runs.RunKeepsAtMostOneBooking | src/index.ts:44-72 | any sequential run of worker, route, lock-expiry and seed calls (reset excluded) keeps at most one booking per seat and none on AVAILABLE seats |
| Runs.NoDoubleBookingFromEmpty | src/index.ts:44-72 | from the empty store, no sequential run of worker, route, lock-expiry and seed calls (reset excluded) leaves two bookings for one seat or a booking on an AVAILABLE seat |
| Server.Store.SetNx | src/worker.ts:24 | SET NX sets the key and returns true exactly when the key was absent; nothing else changes |
| Server.Store.EvalUnlock | src/worker.ts:61-69 | the unlock script returns 1 and deletes the key exactly when it held the owner; otherwise it returns 0 |
| Server.Store.ExpireLock | src/worker.ts:20 | TTL expiry drops the seat's lock key and keeps the invariants |
| Server.Store.Publish | src/worker.ts:54 | publish appends the notice to the log and changes nothing else |
| Server.Store.UpsertUser | src/index.ts:51-59 | the user table becomes the upsert of the old one |
| Server.Store.UpdateSeatStatus | src/index.ts:62-65 | the plain update by id sets that seat's status |
| Server.Store.UpdateManySeats | prisma/reset.ts:6-9 | updateMany sets the status of every matching seat |
| Server.Store.CreateBooking | src/index.ts:67-72 | create appends the booking with the next id and returns it |
| Server.Store.DeleteManyBookings | prisma/reset.ts:20-22 | deleteMany removes the seat's bookings |
| Server.Store.CreateEvent | prisma/seed.ts:9-15 | the event is appended with the next id and returned |
| Server.Store.CreateManySeats | prisma/seed.ts:31-33 | the payload's seats are appended with consecutive fresh ids |
| Server.Store.WriteBooking | src/worker.ts:44-51 | the object runs the shared write sequence and returns the booking exactly when it completed |
| Server.Store.ProcessBooking | src/worker.ts:18-71 | the object's processBooking ends in the state and exit path of Worker.ProcessBooking and keeps the invariants |
| Server.Store.BookUnderLock | src/worker.ts:33-59 | the object's try block ends as Worker.UnderLock says |
| Server.Store.EachMessage | src/worker.ts:80-84 | the object's message callback ends as Worker.EachMessage says and keeps the invariants |
| Server.Store.BookAsync | src/index.ts:31-85 | the object's book-async gives the reply and state of Handlers.BookAsync and keeps the invariants |
| Server.Store.BookNaive | src/index.ts:96-149 | the object's book-naive gives the result and state of Handlers.BookNaive and keeps the invariants |
| Server.Store.RandomSeat | src/index.ts:152-157 | random-seat returns the first AVAILABLE seat or nothing exactly when none is AVAILABLE, and changes nothing |
| Server.Store.Reset | prisma/reset.ts:5-26 | the object's reset ends in ResetScript.Reset of its old state and stays well formed |
| Server.Store.Seed | prisma/seed.ts:5-36 | the object's seed ends in SeedScript.Seed of its old state and keeps the invariants |
| Server.BookTwice | src/index.ts:44-72 | two sequential book-async calls for an existing seat: the second answers 409, and together they add at most one booking |

## Left out

- Concurrency and interleavings: the double booking that `book-naive` allows under concurrent
  requests, and the load test that provokes it. Every property here is about sequential runs.
- Wall-clock behaviour: the 5-second lock TTL is not timed. Expiry is the separate operation
  `Locks.Expire` / `Server.Store.ExpireLock`, and it cannot happen in the middle of a call. The
  `setTimeout` delays are left out as well.
- Library plumbing: Fastify routing and CORS, the health endpoint, and Socket.io startup. Also
  Kafka connect/subscribe/run and its offset commits and redelivery: redelivery appears only as
  calling the worker again, in `Worker.ReplayAfterSuccessChangesNothing`. Also Redis and Prisma
  client construction, JSON parsing of the message (a parse error is not modelled) and logging.
- The commented-out `book-secure` route: it is dead code, and the worker holds the same logic.
- The React client and the load-test script: UI rendering and an HTTP load generator.
- Specific Prisma errors: a throwing store call is the `Fault` parameter. The publish fault has
  no effect on the routes, which do not publish. Errors thrown by `SET` before the try block,
  or by the unlock `eval` in `finally`, are not modelled. Neither are errors in the two scripts.
- The Prisma schema is not part of this model. Seat, booking and event ids are natural numbers
  taken from counters. Unique constraints the schema may impose, such as on the user id, are
  not modelled. The booking's creation timestamp and the event's date object are left out; the
  date appears as its string.
- Seat status is one of AVAILABLE, LOCKED and BOOKED. No code path sets LOCKED, and other
  strings in the status column are not modelled.
- Seat numbers are integers. Non-integer JSON numbers, and JavaScript's exponent notation for
  numbers of 10^21 and above in the lock key, are not modelled.
- Text.LockKey: a seat number is a JavaScript double, and `${n}` prints its exact digits only
  for |n| ≤ 2^53. Above that it prints the shortest digits that read back to the same double:
  2^60 prints as 1152921504606847000, while the model's key ends in 1152921504606846976. Larger
  integers are not all representable as doubles. The model's key is the exact decimal text.
- Text.IntToStringValue: its read-back is about the exact decimal text, which equals what `${n}`
  prints only for |n| ≤ 2^53, for the same reason.
- The HTTP status Fastify sends when `book-naive` throws belongs to Fastify, which is not
  modelled: the result is `Thrown`.
- Delivery of published notices to subscribers is left out; the model keeps the log of
  published notices.
- Runs.RunKeepsAtMostOneBooking: it does not include reset in the calls. Reset reopens a
  booked seat numbered 1 that is not the first such seat (ResetScript.ResetKeepsAtMostOneIff),
  and a booking after that would give the seat a second one.
- Runs.NoDoubleBookingFromEmpty: it rests on Runs.RunKeepsAtMostOneBooking and leaves reset
  out of the runs for the same reason.
- Tables.FindFirst: Prisma's `findFirst` without `orderBy` has no defined row order
  (src/worker.ts:34, src/index.ts:36-38, 102-104 and 153-155, prisma/reset.ts:18). The model
  takes the first match in table order, and status updates never move a row. When seat numbers
  repeat, four results rely on that fixed order: Worker.ReplayAfterSuccessChangesNothing,
  Handlers.SecondAsyncBooksNothing, Server.BookTwice and ResetScript.ResetIdempotent. With
  another order, a replay or a second call could pick a different seat with the same number,
  and a second reset could delete a different seat's bookings.
