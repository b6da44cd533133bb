/**
 The record of one target in the systems database, the queries the locking server
 searches it with, and the `$set` updates it patches it with.
 */
module LockRecord {
  import opened Text
  import opened HolderString

  datatype Record = Record(
    isFree: bool,
    isHealthy: bool,
    useBy: string,         // setup_in_useby
    forParallel: bool,     // in_use_for_parallel
    clientCount: int)      // parallel_client_cnt

  /** Setup names are unique, so a search by name finds at most one record. */
  type Db = map<string, Record>

  datatype LockType = Shared | Exclusive

  /** Query of `find_free_target`. */
  predicate LooksAvailable(r: Record, kind: LockType) {
    r.isHealthy && match kind
                   case Shared => !r.isFree && r.forParallel
                   case Exclusive => r.isFree
  }

  /** Query of `lock_target`. */
  predicate Lockable(r: Record, kind: LockType, convert: bool) {
    match kind
    case Shared => if convert then r.isFree && !r.forParallel else !r.isFree && r.forParallel
    case Exclusive => r.isFree && r.useBy == ""
  }

  /** Update of `lock_target`: computed from the searched record, written over `now`. */
  function Locked(now: Record, kind: LockType, convert: bool, client: string, seen: Record): Record {
    match kind
    case Exclusive => now.(isFree := false, useBy := client)
    case Shared =>
      if convert then now.(isFree := false, useBy := client, clientCount := 1, forParallel := true)
      else now.(isFree := false, useBy := Joined(seen.useBy, client), clientCount := seen.clientCount + 1)
  }

  /** Query and check of `is_target_locked`. */
  predicate Confirmed(r: Record, kind: LockType, client: string) {
    && !r.isFree
    && match kind
       case Shared => r.forParallel && Contains(r.useBy, client) && r.clientCount > 0
       case Exclusive => r.useBy == client
  }

  /** Update of `unlock_target`; for an exclusive lock the filter names the client. */
  function Unlocked(now: Record, client: string, seen: Record): Record
    requires client != ""
  {
    if !seen.forParallel then
      if now.useBy == client then now.(isFree := true, useBy := "") else now
    else if seen.clientCount == 1 then
      now.(isFree := true, useBy := "", forParallel := false, clientCount := 0)
    else
      now.(useBy := Departed(seen.useBy, client), clientCount := seen.clientCount - 1)
  }
}
