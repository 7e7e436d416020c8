// A lock that stops circular walks when expressions forward values to the
// variables defined off them.  A process-wide stamp counts rounds of
// triggering; a lock can be taken once per round, can be disabled until it is
// reset, and every lock is released by advancing the shared stamp.

module DefinesLocks {
  import opened Common

  /** The shared round counter (a static field of the lock class in the source). */
  class GlobalStamp {
    var stamp: nat

    ghost predicate Valid()
      reads this
    {
      stamp <= UINT64_MAX
    }

    /** The counter starts at 1, so a fresh lock (stamp 0) can be taken. */
    constructor ()
      ensures Valid() && stamp == 1
    {
      stamp := 1;
    }

    /** Starts the next round; a 64-bit counter, so it wraps after its maximum. */
    method UnlockAll()
      requires Valid()
      modifies this
      ensures Valid()
      ensures stamp == (old(stamp) + 1) % (UINT64_MAX + 1)
    {
      stamp := (stamp + 1) % (UINT64_MAX + 1);
    }
  }

  class DefinesLock {
    var localStamp: nat
    const global: GlobalStamp

    ghost predicate Valid()
      reads this, global
    {
      localStamp <= UINT64_MAX && global.Valid()
    }

    constructor (global: GlobalStamp)
      requires global.Valid()
      ensures Valid() && this.global == global && localStamp == 0
    {
      this.global := global;
      localStamp := 0;
    }

    /** Whether TryLock would succeed now; changes nothing. */
    function SoftTry(): (ok: bool)
      reads this, global
      requires Valid()
      ensures ok ==> !IsDisabled()
    {
      localStamp < global.stamp
    }

    function IsDisabled(): (disabled: bool)
      reads this
      ensures disabled <==> localStamp == UINT64_MAX
    {
      localStamp == UINT64_MAX
    }

    /** Takes the lock for this round; succeeds at most once per round. */
    method TryLock() returns (ok: bool)
      requires Valid()
      modifies this
      ensures Valid()
      ensures ok == old(SoftTry())
      ensures !SoftTry()
      ensures !ok ==> localStamp == old(localStamp)
      ensures old(IsDisabled()) ==> IsDisabled()
    {
      if localStamp >= global.stamp {
        return false;
      }
      localStamp := global.stamp;
      return true;
    }

    /** After Disable no round lets the lock be taken until Reset. */
    method Disable()
      requires Valid()
      modifies this
      ensures Valid() && IsDisabled() && !SoftTry()
    {
      localStamp := UINT64_MAX;
    }

    /** Re-enables the lock; reports whether it had been taken or disabled. */
    method Reset() returns (wasSet: bool)
      requires Valid()
      modifies this
      ensures Valid()
      ensures wasSet == (old(localStamp) != 0)
      ensures localStamp == 0 && !IsDisabled()
      ensures global.stamp > 0 ==> SoftTry()
    {
      var copy := localStamp;
      localStamp := 0;
      return copy != 0;
    }
  }

  /**
   * A lock taken in this round (and not disabled) can be taken again once
   * the shared stamp advances, as long as the stamp did not wrap around.
   */
  method UnlockAllReleases(lock: DefinesLock)
    requires lock.Valid() && !lock.SoftTry() && !lock.IsDisabled()
    requires lock.localStamp == lock.global.stamp && lock.global.stamp < UINT64_MAX
    modifies lock.global
    ensures lock.Valid() && lock.SoftTry()
  {
    lock.global.UnlockAll();
  }
}
