/** `main` and `trigger_deployment` of the switch-setup script: run, redeploy, run again. */
module Retry {

  /**
   What the outside does, by position in the ticket list, attempt (from 1) and deployment retry
   (from 0), and the number of hosts given.
   */
  datatype World = World(
    runFails: (nat, nat) -> bool,
    revertFails: (nat, nat, nat) -> bool,
    buildSucceeds: (nat, nat, nat) -> bool,
    hosts: nat)

  datatype Event =
    | Run(te: nat, todo: bool, failed: bool)
    | Revert(te: nat, failed: bool)
    | Build(te: nat, success: bool)
    | Release

  /** How the script ends; Unbound is the exception on the unset job name. */
  datatype Exit = Completed | TooManyAttempts | DeploymentFailed | Unbound

  /** Only single-node and three-node jobs are known. */
  predicate KnownHosts(w: World) {
    w.hosts == 1 || w.hosts == 3
  }

  // ---- when a ticket is meant to complete ------------------------------------------------------

  /** Retry r of a deployment builds a setup: no revert fails up to it, and no build before it succeeded. */
  predicate DeploysAt(w: World, te: nat, attempt: nat, r: nat) {
    && (forall q: nat | q <= r :: !w.revertFails(te, attempt, q))
    && (forall q: nat | q < r :: !w.buildSucceeds(te, attempt, q))
    && w.buildSucceeds(te, attempt, r)
  }

  predicate Deploys(w: World, te: nat, attempt: nat) {
    exists r: nat | r < 3 :: DeploysAt(w, te, attempt, r)
  }

  /** Every attempt below k fails and is followed by a working deployment. */
  predicate Reaches(w: World, te: nat, k: nat) {
    forall j: nat | 1 <= j < k :: w.runFails(te, j) && Deploys(w, te, j)
  }

  predicate Passes(w: World, te: nat) {
    exists k: nat | 1 <= k <= 4 :: Reaches(w, te, k) && !w.runFails(te, k)
  }

  // ---- counting ----------------------------------------------------------------------------------

  function Runs(trace: seq<Event>, te: nat): nat {
    if trace == [] then 0
    else Runs(trace[..|trace| - 1], te) + if trace[|trace| - 1].Run? && trace[|trace| - 1].te == te then 1 else 0
  }

  function Builds(trace: seq<Event>, te: nat): nat {
    if trace == [] then 0
    else Builds(trace[..|trace| - 1], te) + if trace[|trace| - 1].Build? && trace[|trace| - 1].te == te then 1 else 0
  }

  function Releases(trace: seq<Event>): nat {
    if trace == [] then 0
    else Releases(trace[..|trace| - 1]) + if trace[|trace| - 1].Release? then 1 else 0
  }

  lemma CountLast(trace: seq<Event>, e: Event, te: nat)
    ensures Runs(trace + [e], te) == Runs(trace, te) + if e.Run? && e.te == te then 1 else 0
    ensures Builds(trace + [e], te) == Builds(trace, te) + if e.Build? && e.te == te then 1 else 0
    ensures Releases(trace + [e]) == Releases(trace) + if e.Release? then 1 else 0
  {
    assert (trace + [e])[..|trace|] == trace;
  }

  lemma {:induction false} CountAppend(a: seq<Event>, b: seq<Event>, te: nat)
    ensures Runs(a + b, te) == Runs(a, te) + Runs(b, te)
    ensures Builds(a + b, te) == Builds(a, te) + Builds(b, te)
    ensures Releases(a + b) == Releases(a) + Releases(b)
    decreases |b|
  {
    if b == [] {
      assert a + b == a;
    } else {
      var front, last := b[..|b| - 1], b[|b| - 1];
      CountAppend(a, front, te);
      CountLast(a + front, last, te);
      assert (a + front) + [last] == a + b;
    }
  }

  lemma {:induction false} CountNone(trace: seq<Event>, te: nat)
    requires forall i | 0 <= i < |trace| :: !trace[i].Release? && trace[i].te != te
    ensures Runs(trace, te) == Builds(trace, te) == Releases(trace) == 0
    decreases |trace|
  {
    if trace != [] {
      CountNone(trace[..|trace| - 1], te);
    }
  }

  // ---- what every trace keeps ----------------------------------------------------------------------

  /** Between two runs of a ticket lies a successful build for it, and the earlier run failed. */
  predicate Separated(trace: seq<Event>) {
    forall i, j | 0 <= i < j < |trace| && trace[i].Run? && trace[j].Run? && trace[i].te == trace[j].te ::
      trace[i].failed && exists k | i < k < j :: trace[k] == Build(trace[i].te, true)
  }

  /** A ticket's first run takes all of its tests, its later ones only those still to do. */
  predicate TodoOnRerun(trace: seq<Event>) {
    forall j | 0 <= j < |trace| && trace[j].Run? ::
      trace[j].todo <==> exists i | 0 <= i < j :: RunOf(trace[i], trace[j].te)
  }

  /** Right before every build the VM was reverted for the same ticket, and that worked. */
  predicate RevertedFirst(trace: seq<Event>) {
    forall i | 0 <= i < |trace| && trace[i].Build? :: i > 0 && trace[i - 1] == Revert(trace[i].te, false)
  }

  lemma RevertedJoin(a: seq<Event>, b: seq<Event>)
    requires RevertedFirst(a) && RevertedFirst(b)
    ensures RevertedFirst(a + b)
  {
    var all, n := a + b, |a|;
    forall i | 0 <= i < |all| && all[i].Build? ensures i > 0 && all[i - 1] == Revert(all[i].te, false) {
      if i >= n {
        assert all[i] == b[i - n] && all[i - 1] == b[i - n - 1];
      }
    }
  }

  predicate OnlyOf(trace: seq<Event>, te: nat) {
    forall i | 0 <= i < |trace| :: !trace[i].Release? && trace[i].te == te
  }

  predicate OnlyDeploys(trace: seq<Event>, te: nat) {
    RevertedFirst(trace) && forall i | 0 <= i < |trace| :: (trace[i].Revert? || trace[i].Build?) && trace[i].te == te
  }

  // ---- trigger_deployment --------------------------------------------------------------------------

  /** The first n retries: every revert worked, no build did. */
  ghost predicate Unbuilt(w: World, te: nat, attempt: nat, n: nat) {
    forall q: nat | q < n :: !w.revertFails(te, attempt, q) && !w.buildSucceeds(te, attempt, q)
  }

  lemma Deployment(w: World, te: nat, attempt: nat, n: nat)
    requires Unbuilt(w, te, attempt, n) && n < 3 && !w.revertFails(te, attempt, n) && w.buildSucceeds(te, attempt, n)
    ensures Deploys(w, te, attempt)
  {
    assert DeploysAt(w, te, attempt, n);
  }

  /** One retry up to its build; the job name is set only for one host or three. */
  method TriggerBuild(w: World, te: nat, attempt: nat, r: nat) returns (events: seq<Event>, exit: Exit)
    ensures OnlyDeploys(events, te) && Builds(events, te) <= 1
    ensures if w.revertFails(te, attempt, r) then exit == DeploymentFailed
            else if !KnownHosts(w) then exit == Unbound
            else exit == Completed && events != [] && events[|events| - 1] == Build(te, w.buildSucceeds(te, attempt, r))
  {
    events := [Revert(te, w.revertFails(te, attempt, r))];
    if w.revertFails(te, attempt, r) { return events, DeploymentFailed; }
    if w.hosts != 1 && w.hosts != 3 { return events, Unbound; }
    var built := Build(te, w.buildSucceeds(te, attempt, r));
    CountLast(events, built, te);
    return events + [built], Completed;
  }

  /** At most three builds; it works exactly when one succeeds before a revert fails. */
  method TriggerDeployment(w: World, te: nat, attempt: nat) returns (events: seq<Event>, exit: Exit)
    ensures exit != TooManyAttempts && OnlyDeploys(events, te) && Builds(events, te) <= 3
    ensures exit == Unbound <==> !KnownHosts(w) && !w.revertFails(te, attempt, 0)
    ensures exit == Completed <==> KnownHosts(w) && Deploys(w, te, attempt)
    ensures exit == Completed ==> events != [] && events[|events| - 1] == Build(te, true)
  {
    events := [];
    var retries := 3;
    while retries > 0
      invariant 0 <= retries <= 3 && OnlyDeploys(events, te) && Builds(events, te) <= 3 - retries
      invariant Unbuilt(w, te, attempt, 3 - retries) && (retries < 3 ==> KnownHosts(w))
    {
      var more, ended := TriggerBuild(w, te, attempt, 3 - retries);
      CountAppend(events, more, te);
      RevertedJoin(events, more);
      events := events + more;
      if ended != Completed { return events, ended; }
      if w.buildSucceeds(te, attempt, 3 - retries) {
        Deployment(w, te, attempt, 3 - retries);
        return events, Completed;
      }
      retries := retries - 1;
    }
    exit := DeploymentFailed;
  }

  // ---- one ticket ------------------------------------------------------------------------------------

  /** The events of one ticket with so many runs and at most so many builds. */
  predicate Traced(trace: seq<Event>, te: nat, runs: nat, builds: nat) {
    && OnlyOf(trace, te) && Separated(trace) && TodoOnRerun(trace) && RevertedFirst(trace)
    && Runs(trace, te) == runs && Builds(trace, te) <= builds && Releases(trace) == 0
  }

  predicate AllFailed(trace: seq<Event>) {
    forall i | 0 <= i < |trace| && trace[i].Run? :: trace[i].failed
  }

  /** Before a run: a working setup stands, and every run so far has failed. */
  ghost predicate Between(w: World, te: nat, trace: seq<Event>, attempt: nat) {
    && 1 <= attempt <= 5 && Traced(trace, te, attempt - 1, 3 * (attempt - 1)) && AllFailed(trace)
    && (attempt > 1 ==> KnownHosts(w) && trace != [] && trace[|trace| - 1] == Build(te, true))
    && Reaches(w, te, attempt)
  }

  /** After a run, before the deployment. */
  ghost predicate Ran(w: World, te: nat, trace: seq<Event>, attempt: nat) {
    && 1 <= attempt <= 4 && Traced(trace, te, attempt, 3 * (attempt - 1))
    && trace != [] && AllFailed(trace[..|trace| - 1])
    && trace[|trace| - 1] == Run(te, attempt != 1, w.runFails(te, attempt))
    && Reaches(w, te, attempt)
  }

  predicate RunOf(e: Event, te: nat) {
    e.Run? && e.te == te
  }

  /** Another run keeps the runs apart when the trace has none of the ticket, or failed ones and a build last. */
  lemma SeparatedRun(trace: seq<Event>, e: Event)
    requires Separated(trace) && e.Run?
    requires forall i | 0 <= i < |trace| && RunOf(trace[i], e.te) ::
               trace[i].failed && trace[|trace| - 1] == Build(e.te, true)
    ensures Separated(trace + [e])
  {
    var all, n := trace + [e], |trace|;
    forall i, j | 0 <= i < j < |all| && all[i].Run? && all[j].Run? && all[i].te == all[j].te
      ensures all[i].failed && exists k | i < k < j :: all[k] == Build(all[i].te, true)
    {
      if j == n {
        assert RunOf(trace[i], e.te) && all[n - 1] == Build(e.te, true);
      } else {
        var k :| i < k < j && trace[k] == Build(trace[i].te, true);
        assert all[k] == Build(all[i].te, true);
      }
    }
  }

  lemma SeparatedOthers(trace: seq<Event>, more: seq<Event>)
    requires Separated(trace) && forall i | 0 <= i < |more| :: !more[i].Run?
    ensures Separated(trace + more)
  {
    var all, n := trace + more, |trace|;
    forall i, j | 0 <= i < j < |all| && all[i].Run? && all[j].Run? && all[i].te == all[j].te
      ensures all[i].failed && exists k | i < k < j :: all[k] == Build(all[i].te, true)
    {
      var k :| i < k < j && trace[k] == Build(trace[i].te, true);
      assert all[k] == Build(all[i].te, true);
    }
  }

  lemma TodoRun(trace: seq<Event>, e: Event)
    requires TodoOnRerun(trace) && e.Run?
    requires e.todo <==> exists i | 0 <= i < |trace| :: RunOf(trace[i], e.te)
    ensures TodoOnRerun(trace + [e])
  {
    var all, n := trace + [e], |trace|;
    forall j | 0 <= j < |all| && all[j].Run?
      ensures all[j].todo <==> exists i | 0 <= i < j :: RunOf(all[i], all[j].te)
    {
      assert forall i | 0 <= i < j :: RunOf(all[i], all[j].te) == RunOf(trace[i], all[j].te);
    }
  }

  lemma TodoOthers(trace: seq<Event>, more: seq<Event>)
    requires TodoOnRerun(trace) && forall i | 0 <= i < |more| :: !more[i].Run?
    ensures TodoOnRerun(trace + more)
  {
    var all, n := trace + more, |trace|;
    forall j | 0 <= j < |all| && all[j].Run?
      ensures all[j].todo <==> exists i | 0 <= i < j :: RunOf(all[i], all[j].te)
    {
      assert forall i | 0 <= i < j :: RunOf(all[i], all[j].te) == RunOf(trace[i], all[j].te);
    }
  }

  lemma {:induction false} RunsSome(trace: seq<Event>, te: nat)
    ensures Runs(trace, te) > 0 <==> exists i | 0 <= i < |trace| :: RunOf(trace[i], te)
    decreases |trace|
  {
    if trace != [] {
      var n := |trace| - 1;
      RunsSome(trace[..n], te);
      assert RunOf(trace[n], te) || forall i | 0 <= i < |trace| :: RunOf(trace[i], te) ==> RunOf(trace[..n][i], te);
    }
  }

  lemma TracedRun(trace: seq<Event>, te: nat, runs: nat, builds: nat, e: Event)
    requires Traced(trace, te, runs, builds) && RunOf(e, te) && AllFailed(trace)
    requires e.todo <==> runs > 0
    requires runs > 0 ==> trace != [] && trace[|trace| - 1] == Build(te, true)
    ensures Traced(trace + [e], te, runs + 1, builds)
  {
    RunsSome(trace, te);
    CountLast(trace, e, te);
    SeparatedRun(trace, e);
    TodoRun(trace, e);
    RevertedJoin(trace, [e]);
  }

  lemma {:induction false} DeploysOnly(trace: seq<Event>, te: nat)
    requires OnlyDeploys(trace, te)
    ensures Runs(trace, te) == Releases(trace) == 0
    decreases |trace|
  {
    if trace != [] {
      DeploysOnly(trace[..|trace| - 1], te);
    }
  }

  lemma TracedOthers(trace: seq<Event>, te: nat, runs: nat, builds: nat, more: seq<Event>)
    requires Traced(trace, te, runs, builds) && OnlyDeploys(more, te)
    requires Builds(more, te) <= 3
    ensures Traced(trace + more, te, runs, builds + 3)
  {
    DeploysOnly(more, te);
    CountAppend(trace, more, te);
    SeparatedOthers(trace, more);
    TodoOthers(trace, more);
    RevertedJoin(trace, more);
  }

  lemma RunKeeps(w: World, te: nat, trace: seq<Event>, attempt: nat)
    requires Between(w, te, trace, attempt) && attempt <= 4
    ensures Ran(w, te, trace + [Run(te, attempt != 1, w.runFails(te, attempt))], attempt)
  {
    var e := Run(te, attempt != 1, w.runFails(te, attempt));
    TracedRun(trace, te, attempt - 1, 3 * (attempt - 1), e);
    assert (trace + [e])[..|trace|] == trace;
  }

  lemma FailedOthers(trace: seq<Event>, te: nat, more: seq<Event>)
    requires trace != [] && AllFailed(trace[..|trace| - 1]) && OnlyDeploys(more, te)
    requires trace[|trace| - 1].Run? && trace[|trace| - 1].failed
    ensures AllFailed(trace + more)
  {
    var all, n := trace + more, |trace|;
    forall i | 0 <= i < |all| && all[i].Run?
      ensures all[i].failed
    {
      assert all[i] == trace[i] && (i < n - 1 ==> trace[..n - 1][i] == trace[i]);
    }
  }

  lemma DeployKeeps(w: World, te: nat, trace: seq<Event>, attempt: nat, events: seq<Event>)
    requires Ran(w, te, trace, attempt) && w.runFails(te, attempt)
    requires KnownHosts(w) && Deploys(w, te, attempt)
    requires OnlyDeploys(events, te) && Builds(events, te) <= 3
    requires events != [] && events[|events| - 1] == Build(te, true)
    ensures Between(w, te, trace + events, attempt + 1)
  {
    TracedOthers(trace, te, attempt, 3 * (attempt - 1), events);
    FailedOthers(trace, te, events);
  }

  /** The ticket completes: at the first attempt, or after deployments that all work. */
  predicate TicketPasses(w: World, te: nat) {
    !w.runFails(te, 1) || (KnownHosts(w) && Passes(w, te))
  }

  /** A second attempt needs a first deployment, which a wrong number of hosts does not survive. */
  predicate TicketUnbound(w: World, te: nat) {
    !KnownHosts(w) && w.runFails(te, 1) && !w.revertFails(te, 1, 0)
  }

  /** A failed run without a working deployment, or a fifth attempt, is the end. */
  lemma NeverPasses(w: World, te: nat, attempt: nat)
    requires 1 <= attempt && (attempt <= 4 ==> w.runFails(te, attempt) && !(KnownHosts(w) && Deploys(w, te, attempt)))
    requires Reaches(w, te, attempt)
    ensures !TicketPasses(w, te)
  {
    if attempt > 1 {
      assert w.runFails(te, 1);
    }
    if KnownHosts(w) {
      forall k: nat | 1 <= k <= 4 && Reaches(w, te, k) ensures w.runFails(te, k) {
      }
    }
  }

  /** The events without the release that comes before an exception of the script's own. */
  predicate Raised(exit: Exit) {
    exit == TooManyAttempts || exit == DeploymentFailed
  }

  function Body(events: seq<Event>, exit: Exit): seq<Event>
    requires Raised(exit) ==> events != []
  {
    if Raised(exit) then events[..|events| - 1] else events
  }

  /** A ticket's events when it has ended, and how it ended. */
  ghost predicate Ended(w: World, te: nat, events: seq<Event>, exit: Exit) {
    && events != [] && (Raised(exit) ==> events[|events| - 1] == Release)
    && TracedBody(events, exit, te)
    && (exit == Completed ==> events[|events| - 1].Run? && !events[|events| - 1].failed)
    && EndsAs(w, te, exit)
  }

  ghost predicate EndsAs(w: World, te: nat, exit: Exit) {
    && (exit == Completed <==> TicketPasses(w, te))
    && (exit == Unbound <==> TicketUnbound(w, te))
    && (exit == TooManyAttempts <==> KnownHosts(w) && Reaches(w, te, 5))
  }

  lemma StopsBefore(w: World, te: nat, attempt: nat)
    requires 1 <= attempt <= 4 && !(w.runFails(te, attempt) && Deploys(w, te, attempt))
    ensures !Reaches(w, te, 5)
  {
  }

  ghost predicate TracedBody(events: seq<Event>, exit: Exit, te: nat)
    requires Raised(exit) ==> events != []
  {
    exists runs: nat | runs <= 4 :: Traced(Body(events, exit), te, runs, 12)
  }

  lemma EndsPassing(w: World, te: nat, attempt: nat)
    requires 1 <= attempt <= 4 && Reaches(w, te, attempt) && !w.runFails(te, attempt)
    requires attempt > 1 ==> KnownHosts(w)
    ensures EndsAs(w, te, Completed)
  {
    StopsBefore(w, te, attempt);
  }

  lemma EndPassed(w: World, te: nat, events: seq<Event>, attempt: nat)
    requires Ran(w, te, events, attempt) && !w.runFails(te, attempt) && (attempt > 1 ==> KnownHosts(w))
    ensures Ended(w, te, events, Completed)
  {
    assert EndsAs(w, te, Completed) by { EndsPassing(w, te, attempt); }
    assert TracedBody(events, Completed, te) by {
      assert Traced(Body(events, Completed), te, attempt, 12);
    }
  }

  lemma EndTooMany(w: World, te: nat, events: seq<Event>)
    requires Between(w, te, events, 5)
    ensures Ended(w, te, events + [Release], TooManyAttempts)
  {
    NeverPasses(w, te, 5);
    assert Body(events + [Release], TooManyAttempts) == events;
    assert Traced(events, te, 4, 12);
  }

  lemma EndFailed(w: World, te: nat, events: seq<Event>, attempt: nat, more: seq<Event>, exit: Exit)
    requires Ran(w, te, events, attempt) && w.runFails(te, attempt) && (attempt > 1 ==> KnownHosts(w))
    requires OnlyDeploys(more, te) && Builds(more, te) <= 3
    requires exit == DeploymentFailed || exit == Unbound
    requires exit == Unbound <==> !KnownHosts(w) && !w.revertFails(te, attempt, 0)
    requires !(KnownHosts(w) && Deploys(w, te, attempt))
    ensures Ended(w, te, events + more + if exit == Unbound then [] else [Release], exit)
  {
    var body := events + more;
    var all := body + if exit == Unbound then [] else [Release];
    NeverPasses(w, te, attempt);
    TracedOthers(events, te, attempt, 3 * (attempt - 1), more);
    assert Body(all, exit) == body;
    assert Traced(body, te, attempt, 12);
    if KnownHosts(w) { StopsBefore(w, te, attempt); }
  }

  /** One round of the loop of tickets: up to four runs, each but the last followed by a deployment. */
  method RunTicket(w: World, te: nat) returns (events: seq<Event>, exit: Exit)
    ensures Ended(w, te, events, exit)
  {
    events := [];
    var teCompleted, attempts := false, 1;
    while !teCompleted
      invariant 1 <= attempts <= 5
      invariant !teCompleted ==> Between(w, te, events, attempts)
      invariant teCompleted ==> 2 <= attempts && Ran(w, te, events, attempts - 1) && !w.runFails(te, attempts - 1)
                                && (attempts > 2 ==> KnownHosts(w))
      decreases if teCompleted then 0 else 6 - attempts
    {
      if attempts >= 5 {
        EndTooMany(w, te, events);
        return events + [Release], TooManyAttempts;
      }
      var status := w.runFails(te, attempts);
      RunKeeps(w, te, events, attempts);
      events := events + [Run(te, attempts != 1, status)];
      attempts := attempts + 1;
      if status {
        var more, ret := TriggerDeployment(w, te, attempts - 1);
        if ret == Completed {
          DeployKeeps(w, te, events, attempts - 1, more);
          events := events + more;
        } else {
          EndFailed(w, te, events, attempts - 1, more, ret);
          return events + more + (if ret == Unbound then [] else [Release]), ret;
        }
      } else {
        teCompleted := true;
      }
    }
    EndPassed(w, te, events, attempts - 1);
    exit := Completed;
  }

  // ---- all tickets ---------------------------------------------------------------------------------

  /** At most four runs and twelve builds a ticket, in the order of the list, and the runs apart. */
  predicate InOrder(trace: seq<Event>) {
    forall i, j | 0 <= i < j < |trace| && !trace[i].Release? && !trace[j].Release? :: trace[i].te <= trace[j].te
  }

  ghost predicate Kept(trace: seq<Event>) {
    && Separated(trace) && TodoOnRerun(trace) && RevertedFirst(trace) && InOrder(trace)
    && (forall te: nat :: Runs(trace, te) <= 4 && Builds(trace, te) <= 12)
  }

  predicate Below(trace: seq<Event>, n: nat) {
    forall i | 0 <= i < |trace| :: !trace[i].Release? && trace[i].te < n
  }

  /** The ticket's last run returned status 0. */
  predicate LastRunPassed(trace: seq<Event>, te: nat) {
    exists j | 0 <= j < |trace| ::
      RunOf(trace[j], te) && !trace[j].failed && forall i | j < i < |trace| :: !RunOf(trace[i], te)
  }

  lemma SeparatedJoin(a: seq<Event>, b: seq<Event>, te: nat)
    requires Separated(a) && Separated(b) && Below(a, te) && OnlyOf(b, te)
    ensures Separated(a + b)
  {
    var all, n := a + b, |a|;
    forall i, j | 0 <= i < j < |all| && all[i].Run? && all[j].Run? && all[i].te == all[j].te
      ensures all[i].failed && exists k | i < k < j :: all[k] == Build(all[i].te, true)
    {
      if j < n {
        var k :| i < k < j && a[k] == Build(a[i].te, true);
        assert all[k] == Build(all[i].te, true);
      } else {
        assert i >= n && all[i] == b[i - n] && all[j] == b[j - n];
        var k :| i - n < k < j - n && b[k] == Build(b[i - n].te, true);
        assert all[n + k] == Build(all[i].te, true);
      }
    }
  }

  lemma TodoJoin(a: seq<Event>, b: seq<Event>, te: nat)
    requires TodoOnRerun(a) && TodoOnRerun(b) && Below(a, te) && OnlyOf(b, te)
    ensures TodoOnRerun(a + b)
  {
    var all, n := a + b, |a|;
    forall j | 0 <= j < |all| && all[j].Run?
      ensures all[j].todo <==> exists i | 0 <= i < j :: RunOf(all[i], all[j].te)
    {
      if j < n {
        assert forall i | 0 <= i < j :: RunOf(all[i], all[j].te) == RunOf(a[i], a[j].te);
      } else {
        assert all[j] == b[j - n];
        assert forall i | 0 <= i < n :: !RunOf(all[i], te);
        assert forall i | n <= i < j :: RunOf(all[i], te) == RunOf(b[i - n], te);
        if i :| 0 <= i < j - n && RunOf(b[i], te) {
          assert RunOf(all[n + i], te);
        }
      }
    }
  }

  lemma KeptJoin(a: seq<Event>, b: seq<Event>, te: nat, runs: nat)
    requires Kept(a) && Below(a, te) && Traced(b, te, runs, 12) && runs <= 4
    ensures Kept(a + b) && Below(a + b, te + 1)
  {
    SeparatedJoin(a, b, te);
    TodoJoin(a, b, te);
    RevertedJoin(a, b);
    forall t: nat ensures Runs(a + b, t) <= 4 && Builds(a + b, t) <= 12 {
      CountAppend(a, b, t);
      if t == te {
        CountNone(a, te);
      } else {
        NoneOf(b, te, t);
      }
    }
  }

  lemma {:induction false} NoneOf(trace: seq<Event>, te: nat, t: nat)
    requires OnlyOf(trace, te) && t != te
    ensures Runs(trace, t) == Builds(trace, t) == 0
    decreases |trace|
  {
    if trace != [] {
      NoneOf(trace[..|trace| - 1], te, t);
    }
  }

  lemma {:induction false} NoRelease(trace: seq<Event>, n: nat)
    requires Below(trace, n)
    ensures Releases(trace) == 0
    decreases |trace|
  {
    if trace != [] {
      NoRelease(trace[..|trace| - 1], n);
    }
  }

  lemma KeptRelease(trace: seq<Event>, n: nat)
    requires Kept(trace) && Below(trace, n)
    ensures Kept(trace + [Release]) && Releases(trace + [Release]) == 1
  {
    SeparatedOthers(trace, [Release]);
    TodoOthers(trace, [Release]);
    RevertedJoin(trace, [Release]);
    NoRelease(trace, n);
    forall t: nat ensures Runs(trace + [Release], t) <= 4 && Builds(trace + [Release], t) <= 12 {
      CountLast(trace, Release, t);
    }
    CountLast(trace, Release, 0);
  }

  /** The tickets before n have all completed. */
  ghost predicate SoFar(w: World, trace: seq<Event>, n: nat) {
    && Kept(trace) && Below(trace, n)
    && forall te: nat | te < n :: TicketPasses(w, te) && LastRunPassed(trace, te)
  }

  lemma LastRunStays(a: seq<Event>, b: seq<Event>, te: nat)
    requires LastRunPassed(a, te) && forall i | 0 <= i < |b| :: !RunOf(b[i], te)
    ensures LastRunPassed(a + b, te)
  {
    var j :| 0 <= j < |a| && RunOf(a[j], te) && !a[j].failed && forall i | j < i < |a| :: !RunOf(a[i], te);
    assert RunOf((a + b)[j], te);
  }

  lemma TicketCompletes(w: World, trace: seq<Event>, n: nat, events: seq<Event>)
    requires SoFar(w, trace, n) && Ended(w, n, events, Completed)
    ensures SoFar(w, trace + events, n + 1)
  {
    var runs: nat :| runs <= 4 && Traced(events, n, runs, 12);
    KeptJoin(trace, events, n, runs);
    var all := trace + events;
    assert RunOf(all[|all| - 1], n);
    assert LastRunPassed(all, n);
    forall te: nat | te < n ensures LastRunPassed(all, te) {
      LastRunStays(trace, events, te);
    }
  }

  /** How a run over n tickets ends, and what its trace shows. */
  ghost predicate Finished(w: World, n: nat, trace: seq<Event>, exit: Exit) {
    && Kept(trace)
    && (exit == Completed <==> forall te: nat | te < n :: TicketPasses(w, te))
    && (exit == Unbound <==> exists te: nat | te < n ::
          TicketUnbound(w, te) && forall t: nat | t < te :: TicketPasses(w, t))
    && (exit == Completed ==> forall te: nat | te < n :: LastRunPassed(trace, te))
    && (if exit == Unbound then Releases(trace) == 0
        else Releases(trace) == 1 && trace[|trace| - 1] == Release)
  }

  lemma AllComplete(w: World, trace: seq<Event>, n: nat)
    requires SoFar(w, trace, n)
    ensures Finished(w, n, trace + [Release], Completed)
  {
    KeptRelease(trace, n);
    forall te: nat | te < n ensures LastRunPassed(trace + [Release], te) && !TicketUnbound(w, te) {
      LastRunStays(trace, [Release], te);
    }
  }

  lemma TicketFails(w: World, trace: seq<Event>, n: nat, te: nat, events: seq<Event>, exit: Exit)
    requires SoFar(w, trace, te) && te < n && Ended(w, te, events, exit) && exit != Completed
    ensures Finished(w, n, trace + events, exit)
  {
    var body := Body(events, exit);
    var runs: nat :| runs <= 4 && Traced(body, te, runs, 12);
    KeptJoin(trace, body, te, runs);
    if Raised(exit) {
      KeptRelease(trace + body, te + 1);
      assert trace + events == (trace + body) + [Release];
    } else {
      NoRelease(trace + body, te + 1);
    }
    forall t: nat | t < n && TicketUnbound(w, t) && forall s: nat | s < t :: TicketPasses(w, s)
      ensures t == te
    {
      assert t < te ==> TicketPasses(w, t);
      assert t > te ==> TicketPasses(w, te);
    }
  }

  /**
   For every list of tickets and every outcome of runs, reverts and builds the script stops; the VM is
   released once, at the very end, except when the number of hosts leaves the job name unset.
   */
  method RunTickets(w: World, n: nat) returns (trace: seq<Event>, exit: Exit)
    ensures Finished(w, n, trace, exit)
  {
    trace := [];
    for te := 0 to n
      invariant SoFar(w, trace, te)
    {
      var events, ended := RunTicket(w, te);
      if ended != Completed {
        TicketFails(w, trace, n, te, events, ended);
        return trace + events, ended;
      }
      TicketCompletes(w, trace, te, events);
      trace := trace + events;
    }
    AllComplete(w, trace, n);
    return trace + [Release], Completed;
  }

  /** With two hosts one failed run and a working revert leave the VM taken. */
  lemma TwoHostsKeepTheVm(w: World, n: nat, trace: seq<Event>, exit: Exit)
    requires w.hosts == 2 && n > 0 && w.runFails(0, 1) && !w.revertFails(0, 1, 0)
    requires Finished(w, n, trace, exit)
    ensures exit == Unbound && Releases(trace) == 0
  {
    assert TicketUnbound(w, 0);
  }
}
