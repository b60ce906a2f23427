/** The caching lock client and server as they are written: maps over all locks, section by section. */
module LockCacheEndpoints {
  import opened LockCacheModel

  class LockClientCache {
    var locks: map<int, Status>
    var revokeFlag: map<int, bool>

    /** A lock with a flag has a state. */
    predicate Valid()
      reads this
    {
      revokeFlag.Keys <= locks.Keys
    }

    constructor ()
      ensures Valid() && locks == map[] && revokeFlag == map[]
    {
      locks, revokeFlag := map[], map[];
    }

    function StatusOfLock(lid: int): Status
      reads this
    {
      if lid in locks then locks[lid] else NONE
    }

    function Flag(lid: int): bool
      reads this
    {
      lid in revokeFlag && revokeFlag[lid]
    }

    /** Nothing changed for other locks. */
    twostate predicate OthersKept(lid: int)
      reads this
    {
      forall other | other != lid :: StatusOfLock(other) == old(StatusOfLock(other)) && Flag(other) == old(Flag(other))
    }

    /** Acquire, from its start or from a wake-up in its second loop: up to the next wait or call. */
    method AcquireSection(lid: int) returns (pc: Pc)
      requires Valid()
      modifies this
      ensures Valid()
      ensures (StatusOfLock(lid), pc) == TakeOrWait(old(StatusOfLock(lid))) && Flag(lid) == old(Flag(lid))
      ensures OthersKept(lid)
    {
      if lid !in locks {
        locks := locks[lid := NONE];
        revokeFlag := revokeFlag[lid := false];
      }
      if locks[lid] == NONE {
        locks := locks[lid := ACQUIRING];
        return Acquiring(AcquireSent);
      }
      if locks[lid] != FREE {
        return FreeWait;
      }
      locks := locks[lid := LOCKED];
      pc := Holding;
    }

    /** The acquire call returned, or its thread woke up in the first loop. */
    method AcquireReturned(lid: int, retry: bool) returns (pc: Pc)
      requires lid in locks
      requires Valid()
      modifies this
      ensures Valid()
      ensures (StatusOfLock(lid), pc) == AfterAnswer(old(StatusOfLock(lid)), !retry) && Flag(lid) == old(Flag(lid))
      ensures OthersKept(lid)
    {
      if retry {
        if locks[lid] != FREE && locks[lid] != LOCKED {
          if locks[lid] == NONE {
            locks := locks[lid := ACQUIRING];
            return Acquiring(AcquireSent);
          }
          return RetryWait;
        }
      }
      locks := locks[lid := LOCKED];
      pc := Holding;
    }

    method ReleaseSection(lid: int) returns (pc: Pc)
      requires Valid()
      modifies this
      ensures Valid()
      ensures (StatusOfLock(lid), pc) == StartRelease(old(Flag(lid))) && Flag(lid) == old(Flag(lid))
      ensures OthersKept(lid)
    {
      if lid in revokeFlag && revokeFlag[lid] {
        locks := locks[lid := RELEASING];
        return Releasing(ReleaseSent);
      }
      locks := locks[lid := FREE];
      pc := Outside;
    }

    method ReleaseReturned(lid: int)
      requires Valid()
      modifies this
      ensures Valid()
      ensures StatusOfLock(lid) == NONE && !Flag(lid) && OthersKept(lid)
    {
      locks := locks[lid := NONE];
      revokeFlag := revokeFlag[lid := false];
    }

    /** True if the handler goes on to release the lock to the server. */
    method RevokeHandler(lid: int) returns (releases: bool)
      requires Valid()
      modifies this
      ensures Valid()
      ensures (StatusOfLock(lid), Flag(lid)) == HandleRevoke(old(StatusOfLock(lid)), old(Flag(lid)))
      ensures releases <==> old(StatusOfLock(lid)) == FREE
      ensures OthersKept(lid)
    {
      if lid !in locks {
        locks := locks[lid := NONE];
      }
      if locks[lid] == FREE {
        locks := locks[lid := RELEASING];
        return true;
      }
      revokeFlag := revokeFlag[lid := true];
      releases := false;
    }

    method RevokeReleased(lid: int)
      requires Valid()
      modifies this
      ensures Valid()
      ensures StatusOfLock(lid) == NONE && Flag(lid) == old(Flag(lid)) && OthersKept(lid)
    {
      locks := locks[lid := NONE];
    }

    method RetryHandler(lid: int)
      requires Valid()
      modifies this
      ensures Valid()
      ensures StatusOfLock(lid) == HandleRetry(old(StatusOfLock(lid))) && Flag(lid) == old(Flag(lid))
      ensures OthersKept(lid)
    {
      if lid !in locks || locks[lid] == NONE {
        return;
      }
      if locks[lid] == ACQUIRING {
        locks := locks[lid := LOCKED];
      }
    }
  }

  class LockServerCache {
    var locks: map<int, seq<int>>

    constructor ()
      ensures locks == map[]
    {
      locks := map[];
    }

    function QueueOf(lid: int): seq<int>
      reads this
    {
      if lid in locks then locks[lid] else []
    }

    /** Queue the client; the answer, or the revoke to send to the client before it. */
    method Acquire(lid: int, client: int) returns (call: AcquireCall)
      modifies this
      ensures (QueueOf(lid), call) == ServerAcquire(old(QueueOf(lid)), client)
      ensures forall other | other != lid :: QueueOf(other) == old(QueueOf(other))
    {
      if lid !in locks {
        locks := locks[lid := []];
      }
      if locks[lid] == [] {
        locks := locks[lid := locks[lid] + [client]];
        return AcquireAnswered(true);
      }
      var previous := locks[lid][|locks[lid]| - 1];
      locks := locks[lid := locks[lid] + [client]];
      call := Revoking(previous);
    }

    /** Pop the front; the retry to send to the next client, if any. */
    method Release(lid: int) returns (call: ReleaseCall)
      requires QueueOf(lid) != []
      modifies this
      ensures (QueueOf(lid), call) == ServerRelease(old(QueueOf(lid)))
      ensures forall other | other != lid :: QueueOf(other) == old(QueueOf(other))
    {
      locks := locks[lid := locks[lid][1..]];
      if locks[lid] == [] {
        return ReleaseAnswered;
      }
      call := Retrying(locks[lid][0]);
    }
  }
}
