/**
 The locking client against a live database: between any two of its requests the other
 clients may do anything, and any request or reply may be lost.
 */
module LockingServer {
  import opened Text
  import opened HolderString
  import opened LockRecord
  import P = LockProtocol

  datatype Delivery = Answered | RequestLost | ReplyLost

  function Search(db: Db, target: string, query: Record -> bool): bool {
    target in db && query(db[target])
  }

  /** The database as one client sees it: before its k-th request the others have their turn. */
  class SystemDb {
    var records: Db
    var requests: nat
    const others: (nat, Db) -> Db
    const network: nat -> Delivery

    constructor (records: Db, others: (nat, Db) -> Db, network: nat -> Delivery)
      ensures this.records == records && requests == 0
      ensures this.others == others && this.network == network
    {
      this.records, this.requests := records, 0;
      this.others, this.network := others, network;
    }

    /** The database a request made now would meet. */
    function Met(): Db reads this { others(requests, records) }

    function Outcome(): Delivery reads this { network(requests) }

    /** GET systemdb/search: OK exactly when a record matches and the answer arrives. */
    method Get(target: string, query: Record -> bool) returns (ok: bool, result: Record)
      modifies this
      ensures records == old(Met()) && requests == old(requests) + 1
      ensures ok <==> old(Outcome()).Answered? && Search(records, target, query)
      ensures ok ==> result == records[target]
    {
      var outcome := network(requests);
      records, requests := others(requests, records), requests + 1;
      ok := outcome.Answered? && target in records && query(records[target]);
      result := if ok then records[target] else Record(false, false, "", false, 0);
    }

    /** PATCH systemdb/update: OK also when the filter matched nothing. */
    method Patch(target: string, update: Record -> Record) returns (ok: bool)
      modifies this
      ensures requests == old(requests) + 1
      ensures records == if old(Outcome()).RequestLost? || target !in old(Met()) then old(Met())
                         else old(Met())[target := update(old(Met())[target])]
      ensures ok <==> old(Outcome()).Answered?
    {
      var outcome := network(requests);
      records, requests := others(requests, records), requests + 1;
      if !outcome.RequestLost? && target in records {
        records := records[target := update(records[target])];
      }
      ok := outcome.Answered?;
    }
  }

  /** Nobody else is at work. */
  ghost predicate OthersIdle(db: SystemDb) {
    forall k, d :: db.others(k, d) == d
  }

  /** Nobody else is at work and nothing is lost. */
  ghost predicate Quiet(db: SystemDb) {
    OthersIdle(db) && forall k :: db.network(k) == Answered
  }

  /**
   Any number of requests later: the searches let the others work, the patch is computed
   from the searched record and lands on whatever record it meets.
   */
  method LockTarget(db: SystemDb, target: string, client: string, kind: LockType, convert: bool)
    returns (acquired: bool)
    modifies db
    ensures var k := old(db.requests);
            var met := old(db.Met());
            if db.network(k).Answered? && Search(met, target, r => Lockable(r, kind, convert)) then
              var met' := db.others(k + 1, met);
              && db.requests == k + 2
              && acquired == db.network(k + 1).Answered?
              && db.records == if db.network(k + 1).RequestLost? || target !in met' then met'
                               else met'[target := Locked(met'[target], kind, convert, client, met[target])]
            else
              db.requests == k + 1 && !acquired && db.records == met
  {
    acquired := false;
    var ok, seen := db.Get(target, r => Lockable(r, kind, convert));
    if ok {
      acquired := db.Patch(target, r => Locked(r, kind, convert, client, seen));
    }
  }

  /** The query part of the confirmation; the rest is checked on the answer. */
  predicate LockSearch(r: Record, kind: LockType, client: string) {
    !r.isFree && match kind
                 case Shared => r.forParallel
                 case Exclusive => r.useBy == client
  }

  method IsTargetLocked(db: SystemDb, target: string, client: string, kind: LockType)
    returns (confirmed: bool)
    modifies db
    ensures db.requests == old(db.requests) + 1 && db.records == old(db.Met())
    ensures confirmed <==> old(db.Outcome()).Answered?
                           && Search(db.records, target, r => Confirmed(r, kind, client))
  {
    var ok, seen := db.Get(target, r => LockSearch(r, kind, client));
    if !ok {
      confirmed := false;
    } else if kind.Shared? {
      confirmed := Contains(seen.useBy, client) && seen.clientCount > 0;
    } else {
      confirmed := true;
    }
  }

  method IsTargetPresent(db: SystemDb, target: string) returns (present: bool)
    modifies db
    ensures db.requests == old(db.requests) + 1 && db.records == old(db.Met())
    ensures present <==> old(db.Outcome()).Answered? && target in db.records
  {
    var seen;
    present, seen := db.Get(target, r => true);
  }

  predicate AvailableIn(db: Db, kind: LockType, target: string) {
    target in db && LooksAvailable(db[target], kind)
  }

  predicate FirstAvailable(db: Db, kind: LockType, targets: seq<string>, found: string) {
    exists i | 0 <= i < |targets| ::
      && targets[i] == found && AvailableIn(db, kind, found)
      && forall j | 0 <= j < i :: !AvailableIn(db, kind, targets[j])
  }

  /**
   The first target of the list found available: at the moment it answers it looks available,
   and with nobody else at work no earlier target of the list does.
   */
  method FindFreeTarget(db: SystemDb, targets: seq<string>, kind: LockType) returns (available: string)
    modifies db
    ensures db.requests >= old(db.requests)
    ensures available != "" ==>
              && available in targets && available in db.records && db.records[available].isHealthy
              && (kind.Exclusive? ==> db.records[available].isFree)
              && (kind.Shared? ==> !db.records[available].isFree && db.records[available].forParallel)
    ensures Quiet(db) ==> db.records == old(db.records)
    ensures Quiet(db) && "" !in targets ==>
              if available == "" then forall t | t in targets :: !AvailableIn(db.records, kind, t)
              else FirstAvailable(db.records, kind, targets, available)
  {
    available := "";
    for i := 0 to |targets|
      invariant available == "" && db.requests >= old(db.requests)
      invariant Quiet(db) ==> db.records == old(db.records)
      invariant Quiet(db) ==> forall j | 0 <= j < i :: !AvailableIn(db.records, kind, targets[j])
    {
      var present := IsTargetPresent(db, targets[i]);
      if present {
        var ok, seen := db.Get(targets[i], r => LooksAvailable(r, kind));
        if ok {
          available := targets[i];
          break;
        }
      }
    }
  }

  /**
   What a release does to the record it meets.  One that saw an exclusive lock changes it if and only if
   the record still names the client, and then frees it; one that saw a shared lock frees it if and only if
   it saw a single holder.
   */
  lemma ReleaseExact(now: Record, client: string, seen: Record)
    requires client != ""
    ensures var after := Unlocked(now, client, seen);
            && after.isHealthy == now.isHealthy
            && (!seen.forParallel ==>
                  && (after != now <==> now.useBy == client)
                  && (now.useBy == client ==> after == now.(isFree := true, useBy := "")))
            && (seen.forParallel && seen.clientCount == 1 ==>
                  after.isFree && after.useBy == "" && !after.forParallel && after.clientCount == 0)
            && (seen.forParallel && seen.clientCount != 1 ==>
                  after.isFree == now.isFree && after.forParallel == now.forParallel
                  && after.clientCount == seen.clientCount - 1 && after.useBy == Strip(RemoveAll(seen.useBy, client)))
  {
  }

  /**
   Release.  A shared lock counts down and drops the name, an exclusive one is freed only if the
   record still names this client; either way the answer says only that the patch was sent.  So, after a
   search that met an exclusive lock, a reported release changed the database met by the patch if and only
   if the target still named this client there.
   */
  method UnlockTarget(db: SystemDb, target: string, client: string) returns (released: bool)
    requires client != ""
    modifies db
    ensures var k := old(db.requests);
            var met := old(db.Met());
            if db.network(k).Answered? && Search(met, target, (r: Record) => !r.isFree) then
              var met' := db.others(k + 1, met);
              && released == db.network(k + 1).Answered?
              && db.records == if db.network(k + 1).RequestLost? || target !in met' then met'
                               else met'[target := Unlocked(met'[target], client, met[target])]
            else
              !released && db.records == met
    ensures released ==>
              && target in old(db.Met())
              && var met' := db.others(old(db.requests) + 1, old(db.Met()));
                 !old(db.Met())[target].forParallel ==>
                   (db.records != met' <==> target in met' && met'[target].useBy == client)
  {
    released := false;
    ghost var met := db.Met();
    ghost var met' := db.others(db.requests + 1, met);
    var ok, seen := db.Get(target, (r: Record) => !r.isFree);
    if ok {
      if target in met' { ReleaseExact(met'[target], client, seen); }
      released := db.Patch(target, r => Unlocked(r, client, seen));
    }
  }

  /** A client that releases another's exclusive lock is told that it did, and nothing has changed. */
  method StrangersRelease() returns (released: bool, before: Db, after: Db)
    ensures released && after == before
    ensures before == map["t" := Record(false, true, "a", false, 0)]
  {
    before := map["t" := Record(false, true, "a", false, 0)];
    var db := new SystemDb(before, (k, d) => d, k => Answered);
    released := UnlockTarget(db, "t", "b");
    after := db.records;
  }

  // ---- testrunner ------------------------------------------------------------------

  /** Left alone between its patch and its confirming search, a client that locked is confirmed. */
  lemma LockedIsConfirmed(r: Record, kind: LockType, convert: bool, client: string)
    requires Lockable(r, kind, convert) && r.clientCount >= 0
    ensures Confirmed(Locked(r, kind, convert, client, r), kind, client)
  {
    ContainsItself(client);
    assert Joined(r.useBy, client)[|r.useBy| + 1..] == client;
    OccursInTail(Joined(r.useBy, client), |r.useBy| + 1, client, 0);
  }

  /** The search matches and the patch gets through: the lock is taken, whatever becomes of the answers. */
  predicate Takes(db: SystemDb, records: Db, k: nat, target: string, kind: LockType, convert: bool) {
    && target != "" && target in records
    && (kind.Exclusive? ==> records[target].isFree && records[target].useBy == "")
    && (kind.Shared? && convert ==> records[target].isFree && !records[target].forParallel)
    && (kind.Shared? && !convert ==> !records[target].isFree && records[target].forParallel)
    && db.network(k).Answered? && !db.network(k + 1).RequestLost?
  }

  /** The record after the client took it: its own, the first of a shared one, or one more of a shared one. */
  predicate TakenBy(after: Record, before: Record, kind: LockType, convert: bool, client: string) {
    && !after.isFree && after.isHealthy == before.isHealthy
    && (kind.Exclusive? ==> after.useBy == client && after.forParallel == before.forParallel
                            && after.clientCount == before.clientCount)
    && (kind.Shared? && convert ==> after.useBy == client && after.forParallel && after.clientCount == 1)
    && (kind.Shared? && !convert ==> after.useBy == before.useBy + " " + client && after.forParallel
                                     && after.clientCount == before.clientCount + 1)
  }

  /**
   Lock and confirm.  With nobody else at work the lock is taken exactly when the search matches and the
   patch gets through, and reported exactly when both later answers arrive: "" leaves a lock behind if
   and only if the answer to the patch or to the confirming search was lost.
   */
  method AcquireTarget(db: SystemDb, target: string, client: string, kind: LockType, convert: bool)
    returns (found: string)
    modifies db
    ensures found == "" || found == target
    ensures found != "" ==> Search(db.records, target, r => Confirmed(r, kind, client))
    ensures OthersIdle(db) ==>
              if Takes(db, old(db.records), old(db.requests), target, kind, convert) then
                && target in db.records && db.records == old(db.records)[target := db.records[target]]
                && TakenBy(db.records[target], old(db.records)[target], kind, convert, client)
              else db.records == old(db.records)
    ensures OthersIdle(db) && (target in old(db.records) ==> old(db.records)[target].clientCount >= 0) ==>
              (found != "" <==> Takes(db, old(db.records), old(db.requests), target, kind, convert)
                                && db.network(old(db.requests) + 1).Answered? && db.network(old(db.requests) + 2).Answered?)
  {
    found := "";
    ghost var records := db.records;
    if target in records && Lockable(records[target], kind, convert) && records[target].clientCount >= 0 {
      LockedIsConfirmed(records[target], kind, convert, client);
    }
    if target != "" {
      var locked := LockTarget(db, target, client, kind, convert);
      if locked {
        var confirmed := IsTargetLocked(db, target, client, kind);
        if confirmed { found := target; }
      }
    }
  }

  // ---- polling ---------------------------------------------------------------------------------

  ghost predicate SomeShared(db: Db, targets: seq<string>) {
    exists t :: t in targets && AvailableIn(db, Shared, t)
  }

  /** The first target that looks free can be locked. */
  ghost predicate FirstFreeLockable(db: Db, targets: seq<string>, kind: LockType) {
    exists f :: FirstAvailable(db, Exclusive, targets, f) && if kind.Shared? then !db[f].forParallel else db[f].useBy == ""
  }

  /** What decides whether polling ever ends while nobody else is at work. */
  ghost predicate Acquirable(db: Db, targets: seq<string>, parallel: bool) {
    if parallel then SomeShared(db, targets) || FirstFreeLockable(db, targets, Shared)
    else FirstFreeLockable(db, targets, Exclusive)
  }

  ghost predicate Counting(db: Db) {
    forall t | t in db :: db[t].clientCount >= 0
  }

  lemma FirstIsUnique(db: Db, kind: LockType, targets: seq<string>, f: string, g: string)
    requires FirstAvailable(db, kind, targets, f) && FirstAvailable(db, kind, targets, g)
    ensures f == g
  {
    var i :| 0 <= i < |targets| && targets[i] == f && forall j | 0 <= j < i :: !AvailableIn(db, kind, targets[j]);
    var j :| 0 <= j < |targets| && targets[j] == g && forall k | 0 <= k < j :: !AvailableIn(db, kind, targets[k]);
  }

  /** The exclusive search found f: polling goes on exactly when f cannot be locked. */
  lemma FirstFound(db: Db, targets: seq<string>, kind: LockType, f: string)
    requires FirstAvailable(db, Exclusive, targets, f)
    ensures FirstFreeLockable(db, targets, kind) <==> Lockable(db[f], kind, kind.Shared?)
  {
    if g :| FirstAvailable(db, Exclusive, targets, g) && if kind.Shared? then !db[g].forParallel else db[g].useBy == "" {
      FirstIsUnique(db, Exclusive, targets, f, g);
    }
  }

  /** One round of polling for an exclusive target, or for a free one to share. */
  method TryFree(db: SystemDb, targets: seq<string>, kind: LockType, client: string) returns (acquired: string)
    modifies db
    ensures acquired != "" ==> acquired in targets && Search(db.records, acquired, r => Confirmed(r, kind, client))
    ensures Quiet(db) && "" !in targets && Counting(old(db.records)) ==>
              && (acquired != "" <==> FirstFreeLockable(old(db.records), targets, kind))
              && (acquired == "" ==> db.records == old(db.records))
  {
    acquired := "";
    ghost var records := db.records;
    var seqTarget := FindFreeTarget(db, targets, Exclusive);
    if seqTarget != "" {
      if Quiet(db) && "" !in targets { FirstFound(records, targets, kind, seqTarget); }
      acquired := AcquireTarget(db, seqTarget, client, kind, kind.Shared?);
    }
  }

  /** One round of polling for a target to share. */
  method TryShared(db: SystemDb, targets: seq<string>, client: string) returns (acquired: string)
    modifies db
    ensures acquired != "" ==> acquired in targets && Search(db.records, acquired, r => Confirmed(r, Shared, client))
    ensures Quiet(db) && "" !in targets && Counting(old(db.records)) ==>
              && (acquired != "" <==> SomeShared(old(db.records), targets)
                                      || FirstFreeLockable(old(db.records), targets, Shared))
              && (acquired == "" ==> db.records == old(db.records))
  {
    var target := FindFreeTarget(db, targets, Shared);
    if target == "" {
      acquired := TryFree(db, targets, Shared, client);
    } else {
      acquired := AcquireTarget(db, target, client, Shared, false);
    }
  }

  /**
   `rounds` bounds how long the caller keeps polling; the source polls until it succeeds.
   Whatever the others do, a target is returned only if it is on the list and its record, at the
   confirming search, was not free and named this client.  With nobody else at work and nothing lost a
   target is returned, in the first round or never, exactly when a shared one can be joined or the first
   that looks free can be locked.
   */
  method GetAvailableTarget(db: SystemDb, targets: seq<string>, parallel: bool, client: string, rounds: nat)
    returns (acquired: string)
    modifies db
    ensures acquired != "" ==>
              && acquired in targets && acquired in db.records && !db.records[acquired].isFree
              && (parallel ==> && db.records[acquired].forParallel && db.records[acquired].clientCount > 0
                               && Contains(db.records[acquired].useBy, client))
              && (!parallel ==> db.records[acquired].useBy == client)
    ensures Quiet(db) && "" !in targets && Counting(old(db.records)) && rounds > 0 ==>
              (acquired != "" <==> Acquirable(old(db.records), targets, parallel))
  {
    acquired := "";
    var left := rounds;
    while acquired == "" && left > 0
      invariant left <= rounds && (acquired != "" ==> left < rounds)
      invariant acquired != "" ==>
                  && acquired in targets
                  && acquired in db.records
                  && Confirmed(db.records[acquired], if parallel then Shared else Exclusive, client)
      invariant Quiet(db) && "" !in targets && Counting(old(db.records)) ==>
                  && (acquired == "" ==> db.records == old(db.records))
                  && (left < rounds ==> (acquired != "" <==> Acquirable(old(db.records), targets, parallel)))
    {
      left := left - 1;
      if parallel {
        acquired := TryShared(db, targets, client);
      } else {
        acquired := TryFree(db, targets, Exclusive, client);
      }
    }
  }

  /** A target that is free but still names a client is found every time and can never be locked. */
  lemma NamedFreeTargetIsNeverAcquired(db: Db, t: string)
    requires AvailableIn(db, Exclusive, t) && db[t].useBy != ""
    ensures !Acquirable(db, [t], false)
  {
    assert [t][0] == t;
    assert FirstAvailable(db, Exclusive, [t], t);
    FirstFound(db, [t], Exclusive, t);
  }

  // ---- a target used and left again ----------------------------------------------------------

  /** A healthy target whose holders have all left looks free again, to lock or to share, and can be locked. */
  lemma LeftIsAvailable(s: P.State, actions: seq<P.Action>, s': P.State, t: string)
    requires P.AllIdleAndFree(s) && P.Runs(s, actions, true, s') && t in s.db && s.db[t].isHealthy
    requires P.Holders(s', t) == {}
    ensures AvailableIn(s'.db, Exclusive, t)
    ensures forall kind :: FirstFreeLockable(s'.db, [t], kind)
  {
    P.LastHolderRestores(s, actions, s', t);
    assert [t][0] == t;
    assert FirstAvailable(s'.db, Exclusive, [t], t);
  }

  /** ... and a client left alone with the database takes it in one round. */
  method TakeAgain(ghost s: P.State, ghost actions: seq<P.Action>, ghost s': P.State, db: SystemDb, t: string,
                   kind: LockType, client: string) returns (acquired: string)
    requires P.AllIdleAndFree(s) && P.Runs(s, actions, true, s') && t in s.db && s.db[t].isHealthy
    requires P.Holders(s', t) == {} && t != ""
    requires Quiet(db) && db.records == s'.db && Counting(s'.db)
    modifies db
    ensures acquired == t && t in db.records && !db.records[t].isFree
  {
    LeftIsAvailable(s, actions, s', t);
    acquired := TryFree(db, [t], kind, client);
  }
}
