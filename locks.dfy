/**
 * The Redis key space used as a per-seat lock: `SET key owner NX EX ttl`
 * to acquire and a Lua compare-and-delete script to release
 * (src/worker.ts lines 24 and 61-69). Expiry after the TTL is modelled as
 * a separate operation that drops the key.
 */
module Locks {

  /** The lock map after `SET key owner NX` and whether the key was set. */
  datatype Acquired = Acquired(locks: map<string, string>, ok: bool)

  function SetNx(locks: map<string, string>, key: string, owner: string): (r: Acquired)
    ensures r.ok <==> key !in locks
    ensures r.ok ==> r.locks == locks[key := owner]
    ensures !r.ok ==> r.locks == locks
  {
    if key in locks then Acquired(locks, false) else Acquired(locks[key := owner], true)
  }

  /** The unlock script: delete the key only when its stored value equals `owner`. */
  function CompareAndDelete(locks: map<string, string>, key: string, owner: string): (r: map<string, string>)
    ensures key in locks && locks[key] == owner ==> r == locks - {key}
    ensures !(key in locks && locks[key] == owner) ==> r == locks
  {
    if key in locks && locks[key] == owner then locks - {key} else locks
  }

  /** The TTL running out: the key disappears whoever holds it. */
  function Expire(locks: map<string, string>, key: string): (r: map<string, string>)
    ensures r.Keys == locks.Keys - {key}
    ensures key !in r && forall k :: k in locks && k != key ==> k in r && r[k] == locks[k]
  {
    locks - {key}
  }

  /** Acquiring a free key and then releasing it with the same owner leaves the lock map as it was. */
  lemma AcquireThenRelease(locks: map<string, string>, key: string, owner: string)
    requires key !in locks
    ensures SetNx(locks, key, owner).ok
    ensures CompareAndDelete(SetNx(locks, key, owner).locks, key, owner) == locks
  {
  }

  /** A second acquire of a held key fails and changes nothing, whoever asks. */
  lemma HeldKeyRefusesAcquire(locks: map<string, string>, key: string, owner: string, other: string)
    requires key !in locks
    ensures var held := SetNx(locks, key, owner).locks;
            !SetNx(held, key, other).ok && SetNx(held, key, other).locks == held
  {
  }

  /**
   * A stale release after the TTL expired and a different owner re-acquired
   * the key leaves that owner's lock in place.
   */
  lemma StaleReleaseSparesOtherOwner(locks: map<string, string>, key: string, owner: string, other: string)
    requires key !in locks && owner != other
    ensures var held := SetNx(Expire(SetNx(locks, key, owner).locks, key), key, other).locks;
            CompareAndDelete(held, key, owner) == held && held[key] == other
  {
  }

  /**
   * Because the owner value is the user's id and not a per-attempt token, a
   * stale release by an earlier attempt of the SAME user deletes the lock
   * that user's later attempt holds.
   */
  lemma StaleReleaseBySameUserDeletes(locks: map<string, string>, key: string, user: string)
    requires key !in locks
    ensures var held := SetNx(Expire(SetNx(locks, key, user).locks, key), key, user).locks;
            key in held && key !in CompareAndDelete(held, key, user)
  {
  }
}
