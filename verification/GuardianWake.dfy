/** The wake and continuation loops of `internal/cli/guardian_wake.go`. The server, the work command and the project
    queue answer as they like; what the worker does is recorded in order. */
module GuardianWake {
  import opened Wrappers

  datatype Listing = ListFailed | NonePending | Pending(first: nat)

  datatype Result = Succeeded | Coalesced | Broke

  datatype Check = Runnable | Idle | CheckFailed

  datatype Act =
    | Listed(listing: Listing)        // the first pending nudge, if any
    | Unbound(nudge: nat)             // the wake context could not be bound
    | Delivered(nudge: nat)
    | Worked(nudge: nat, result: Result)
    | Acked(nudge: nat, ok: bool)
    | Acknowledged(nudge: nat)
    | Asked(answer: Check)            // is there runnable work left?
    | Continued(result: Result)       // a follow-up cycle of a bounded run
    | Extended(result: Result)        // a follow-up cycle of an until-idle run

  /** How the outside answers at each moment; a moment is the number of acts so far. */
  datatype World = World(
    pending: nat -> Listing,
    binds: nat -> bool,
    works: nat -> Result,
    acks: nat -> bool,
    runnable: nat -> Check)

  const MAX_BATCHES := 64

  function Last(log: seq<Act>): Option<Act> {
    if log == [] then None else Some(log[|log| - 1])
  }

  /** What must stand right before an act for it to be allowed. */
  predicate Allowed(before: Option<Act>, a: Act) {
    match a
    case Delivered(n) => before == Some(Listed(Pending(n)))
    case Worked(n, _) => before == Some(Delivered(n))
    case Acked(n, _) => before == Some(Worked(n, Succeeded))
    case Acknowledged(n) => before == Some(Acked(n, true))
    case Continued(_) => before.Some? && (before.value.Acknowledged? || before.value == Continued(Succeeded))
    case Extended(_) => before == Some(Asked(Runnable))
    case _ => true
  }

  /** The act records what the outside really answered at that moment. */
  predicate Truthful(w: World, k: nat, a: Act) {
    match a
    case Listed(listing) => listing == w.pending(k)
    case Unbound(_) => !w.binds(k)
    case Delivered(_) => w.binds(k)
    case Worked(_, result) => result == w.works(k)
    case Acked(_, ok) => ok == w.acks(k)
    case Asked(answer) => answer == w.runnable(k)
    case Continued(result) => result == w.works(k)
    case Extended(result) => result == w.works(k)
    case Acknowledged(_) => true
  }

  predicate Justified(w: World, log: seq<Act>, k: nat)
    requires k < |log|
  {
    Allowed(if k == 0 then None else Some(log[k - 1]), log[k]) && Truthful(w, k, log[k])
  }

  ghost predicate AllJustified(w: World, log: seq<Act>) {
    forall k :: 0 <= k < |log| ==> Justified(w, log, k)
  }

  /** A wake ends here without acknowledging: nothing pending, or a step that failed. */
  predicate StopsWake(last: Option<Act>) {
    match last
    case Some(Listed(listing)) => !listing.Pending?
    case Some(Unbound(_)) => true
    case Some(Worked(_, result)) => result != Succeeded
    case Some(Acked(_, ok)) => !ok
    case _ => false
  }

  /** A continuation run ends here before its limit: no runnable work, or a cycle that did not succeed. */
  predicate StopsRun(last: Option<Act>) {
    match last
    case Some(Asked(answer)) => answer != Runnable
    case Some(Continued(result)) => result != Succeeded
    case Some(Extended(result)) => result != Succeeded
    case _ => false
  }

  /** The cycles a log counts as completed. */
  function Completed(log: seq<Act>): nat {
    if log == [] then 0
    else
      var a := log[|log| - 1];
      Completed(log[..|log| - 1]) + Counts(a)
  }

  function Counts(a: Act): nat {
    if a.Acknowledged? || a == Continued(Succeeded) || a == Extended(Succeeded) then 1 else 0
  }

  /** The number of until-idle cycles begun. */
  function Extensions(log: seq<Act>): nat {
    if log == [] then 0
    else Extensions(log[..|log| - 1]) + if log[|log| - 1].Extended? then 1 else 0
  }

  /** The nudge acknowledged last, or the one known at the start. */
  function LastAcknowledged(log: seq<Act>, start: nat): nat {
    if log == [] then start
    else if log[|log| - 1].Acknowledged? then log[|log| - 1].nudge
    else LastAcknowledged(log[..|log| - 1], start)
  }

  lemma LogGrows(w: World, log: seq<Act>, a: Act)
    requires AllJustified(w, log) && Allowed(Last(log), a) && Truthful(w, |log|, a)
    ensures AllJustified(w, log + [a])
    ensures Completed(log + [a]) == Completed(log) + Counts(a)
    ensures Extensions(log + [a]) == Extensions(log) + if a.Extended? then 1 else 0
    ensures forall start :: LastAcknowledged(log + [a], start) == if a.Acknowledged? then a.nudge else LastAcknowledged(log, start)
  {
    assert (log + [a])[..|log|] == log;
    JustifiedGrows(w, log, a);
  }

  lemma JustifiedGrows(w: World, log: seq<Act>, a: Act)
    requires AllJustified(w, log) && Allowed(Last(log), a) && Truthful(w, |log|, a)
    ensures AllJustified(w, log + [a])
  {
    var all := log + [a];
    forall k | 0 <= k < |all| ensures Justified(w, all, k) {
      if k < |log| {
        assert Justified(w, log, k);
        assert all[k] == log[k] && (k > 0 ==> all[k - 1] == log[k - 1]);
      } else {
        assert (if k == 0 then None else Some(all[k - 1])) == Last(log);
      }
    }
  }

  /** In a justified log every acknowledgement of a nudge comes straight after a successful work cycle for that very
      nudge, which came straight after its delivery. */
  lemma AcknowledgedOnlyAfterWork(w: World, log: seq<Act>, k: nat)
    requires AllJustified(w, log) && k < |log| && log[k].Acknowledged?
    ensures k >= 4
    ensures var n := log[k].nudge;
            log[k - 4..k] == [Listed(Pending(n)), Delivered(n), Worked(n, Succeeded), Acked(n, true)]
    ensures w.works(k - 2) == Succeeded && w.acks(k - 1)
  {
    assert Justified(w, log, k);
    assert Justified(w, log, k - 1);
    assert Justified(w, log, k - 2);
    assert Justified(w, log, k - 3);
  }

  /** In a justified log every until-idle cycle comes straight after the queue reported runnable work, and every follow-up
      cycle of a bounded run straight after an acknowledgement or a cycle that succeeded. */
  lemma CyclesAreLicensed(w: World, log: seq<Act>, k: nat)
    requires AllJustified(w, log) && k < |log|
    ensures log[k].Extended? ==> k > 0 && log[k - 1] == Asked(Runnable) && w.runnable(k - 1) == Runnable
    ensures log[k].Continued? ==> k > 0 && (log[k - 1].Acknowledged? || (log[k - 1] == Continued(Succeeded) && w.works(k - 1) == Succeeded))
    ensures log[k].Extended? || log[k].Continued? ==> log[k].result == w.works(k)
  {
    assert Justified(w, log, k);
    if k > 0 {
      assert Justified(w, log, k - 1);
    }
  }

  /** The exit code of a wake that stops after this act. */
  function ExitCode(last: Option<Act>): nat {
    match last
    case Some(Listed(listing)) => if listing == ListFailed then 1 else 0
    case Some(Unbound(_)) => 1
    case Some(Worked(_, result)) => if result == Broke then 1 else 0
    case Some(Acked(_, ok)) => if ok then 0 else 1
    case _ => 0
  }

  /** The most follow-up cycles one wake may run. */
  function FollowUps(continuous: bool, untilIdle: bool, maxCycles: int): nat {
    if !continuous || maxCycles < 2 then 0
    else if untilIdle then MAX_BATCHES * (maxCycles - 1)
    else maxCycles - 1
  }

  function MostCycles(turns: nat, followUps: nat): nat {
    turns * (1 + followUps)
  }

  /** What one wake adds to the log: it serves one nudge, up to `served`, and either stops there without an
      acknowledgement or follows up with cycles until a stopping act or the limit. */
  ghost predicate IsWake(before: seq<Act>, served: seq<Act>, after: seq<Act>, followUps: nat) {
    && before < served <= after
    && (StopsWake(Last(served)) ==> after == served && Completed(served) == Completed(before))
    && (!StopsWake(Last(served)) ==>
          && Last(served).value.Acknowledged?
          && Completed(served) == Completed(before) + 1
          && Completed(served) <= Completed(after) <= Completed(served) + followUps
          && (Completed(after) == Completed(served) + followUps || StopsRun(Last(after))))
  }

  class Worker {
    const world: World
    var log: seq<Act>
    var workCycles: nat
    var lastNudge: nat
    ghost const startCycles: nat
    ghost const startNudge: nat

    constructor (world: World, workCycles: nat, lastNudge: nat)
      ensures Valid() && this.world == world && log == []
      ensures this.workCycles == workCycles == startCycles && this.lastNudge == lastNudge == startNudge
    {
      this.world := world;
      log := [];
      this.workCycles := workCycles;
      this.lastNudge := lastNudge;
      startCycles, startNudge := workCycles, lastNudge;
    }

    /** Every act was allowed, and the context counts the completed cycles and names the last acknowledged nudge. */
    ghost predicate Valid()
      reads this
    {
      && AllJustified(world, log)
      && workCycles == startCycles + Completed(log)
      && lastNudge == LastAcknowledged(log, startNudge)
    }

    method Note(a: Act)
      requires AllJustified(world, log) && Allowed(Last(log), a) && Truthful(world, |log|, a)
      modifies this`log
      ensures log == old(log) + [a] && AllJustified(world, log) && Last(log) == Some(a)
      ensures Completed(log) == old(Completed(log)) + Counts(a)
      ensures Extensions(log) == old(Extensions(log)) + if a.Extended? then 1 else 0
      ensures LastAcknowledged(log, startNudge) == if a.Acknowledged? then a.nudge else old(LastAcknowledged(log, startNudge))
    {
      LogGrows(world, log, a);
      log := log + [a];
    }

    /** `runAdditionalWorkCycles` */
    method RunAdditional(maxCycles: int) returns (completed: nat)
      requires Valid() && Last(log).Some? && Last(log).value.Acknowledged?
      modifies this`log, this`workCycles
      ensures Valid() && workCycles == old(workCycles) + completed && Extensions(log) == old(Extensions(log))
      ensures old(log) <= log && completed <= (if maxCycles < 2 then 0 else maxCycles - 1)
      ensures completed == (if maxCycles < 2 then 0 else maxCycles - 1) || StopsRun(Last(log))
    {
      completed := 0;
      var cycle := 2;
      while cycle <= maxCycles
        invariant cycle == completed + 2 && (completed == 0 || cycle <= maxCycles + 1)
        invariant Valid() && workCycles == old(workCycles) + completed && Extensions(log) == old(Extensions(log))
        invariant old(log) <= log
        invariant Last(log).Some? && (Last(log).value.Acknowledged? || Last(log).value == Continued(Succeeded))
        decreases maxCycles - cycle
      {
        var result := world.works(|log|);
        Note(Continued(result));
        if result != Succeeded {
          break;
        }
        workCycles := workCycles + 1;
        completed := completed + 1;
        cycle := cycle + 1;
      }
    }

    /** Asks whether there is runnable work left. */
    method Ask() returns (runnable: bool)
      requires Valid()
      modifies this`log
      ensures Valid() && old(log) <= log && Extensions(log) == old(Extensions(log))
      ensures if runnable then Last(log) == Some(Asked(Runnable)) else StopsRun(Last(log))
    {
      var answer := world.runnable(|log|);
      Note(Asked(answer));
      runnable := answer == Runnable;
    }

    /** Runs one follow-up cycle of an until-idle run. */
    method RunExtended() returns (succeeded: bool)
      requires Valid() && Last(log) == Some(Asked(Runnable))
      modifies this`log, this`workCycles
      ensures Valid() && old(log) <= log && Extensions(log) == old(Extensions(log)) + 1
      ensures if succeeded then workCycles == old(workCycles) + 1 else workCycles == old(workCycles) && StopsRun(Last(log))
    {
      var result := world.works(|log|);
      Note(Extended(result));
      if result != Succeeded {
        return false;
      }
      workCycles := workCycles + 1;
      return true;
    }

    /** One batch of `runWorkUntilIdle`, its first runnable check already made. */
    method RunBatch(maxCycles: int) returns (total: nat, stop: bool)
      requires maxCycles >= 2 && Valid() && Last(log) == Some(Asked(Runnable))
      modifies this`log, this`workCycles
      ensures Valid() && workCycles == old(workCycles) + total && total <= maxCycles - 1
      ensures if stop then StopsRun(Last(log)) else total == maxCycles - 1
      ensures Extensions(log) <= old(Extensions(log)) + maxCycles - 1 && old(log) <= log
    {
      total, stop := 0, false;
      var cycle := 2;
      while cycle <= maxCycles
        invariant 2 <= cycle <= maxCycles + 1 && total == cycle - 2
        invariant Valid() && workCycles == old(workCycles) + total
        invariant Extensions(log) == old(Extensions(log)) + total && old(log) <= log
        invariant cycle == 2 ==> Last(log) == Some(Asked(Runnable))
      {
        if cycle > 2 {
          var runnable := Ask();
          if !runnable {
            return total, true;
          }
        }
        var succeeded := RunExtended();
        if !succeeded {
          return total, true;
        }
        total := total + 1;
        cycle := cycle + 1;
      }
    }

    /** `runWorkUntilIdle`: at most 64 batches, every cycle straight after a positive runnable check. */
    method RunUntilIdle(maxCycles: int) returns (total: nat)
      requires Valid()
      modifies this`log, this`workCycles
      ensures Valid() && workCycles == old(workCycles) + total
      ensures old(log) <= log && (maxCycles < 2 ==> total == 0 && log == old(log))
      ensures maxCycles >= 2 ==> total <= 64 * (maxCycles - 1)
      ensures maxCycles >= 2 ==> total == 64 * (maxCycles - 1) || StopsRun(Last(log))
      ensures maxCycles >= 2 ==> Extensions(log) <= old(Extensions(log)) + 64 * (maxCycles - 1)
    {
      total := 0;
      if maxCycles < 2 {
        return;
      }
      var batch := 0;
      while batch < MAX_BATCHES
        invariant 0 <= batch <= MAX_BATCHES
        invariant Valid() && workCycles == old(workCycles) + total
        invariant total == batch * (maxCycles - 1) && old(log) <= log
        invariant Extensions(log) <= old(Extensions(log)) + batch * (maxCycles - 1)
      {
        MoreBatches(batch, maxCycles - 1);
        var runnable := Ask();
        if !runnable {
          return;
        }
        var done, stop := RunBatch(maxCycles);
        total := total + done;
        if stop {
          return;
        }
        batch := batch + 1;
      }
    }

    /** Lists, binds and delivers, stopping where a step fails. */
    method Deliver() returns (nudge: nat, delivered: bool, code: nat)
      requires Valid()
      modifies this`log
      ensures Valid() && old(log) < log
      ensures if delivered then Last(log) == Some(Delivered(nudge))
              else StopsWake(Last(log)) && code == ExitCode(Last(log))
    {
      nudge, delivered, code := 0, false, 0;
      var pending := world.pending(|log|);
      Note(Listed(pending));
      if !pending.Pending? {
        code := if pending == ListFailed then 1 else 0;
        return;
      }
      nudge := pending.first;
      if !world.binds(|log|) {
        Note(Unbound(nudge));
        code := 1;
        return;
      }
      Note(Delivered(nudge));
      delivered := true;
    }

    /** Delivers a nudge and runs its work cycle. */
    method Attempt() returns (nudge: nat, worked: bool, code: nat)
      requires Valid()
      modifies this`log
      ensures Valid() && old(log) < log
      ensures if worked then Last(log) == Some(Worked(nudge, Succeeded))
              else StopsWake(Last(log)) && code == ExitCode(Last(log))
    {
      nudge, worked, code := Deliver();
      if !worked {
        return;
      }
      var result := world.works(|log|);
      Note(Worked(nudge, result));
      worked := result == Succeeded;
      code := if result == Broke then 1 else 0;
    }

    /** The first half of a wake, up to the acknowledgement. */
    method ServeNudge() returns (acknowledged: bool, code: nat)
      requires Valid()
      modifies this`log, this`workCycles, this`lastNudge
      ensures Valid() && old(log) < log
      ensures acknowledged ==> Last(log) == Some(Acknowledged(lastNudge)) && workCycles == old(workCycles) + 1
      ensures !acknowledged ==> lastNudge == old(lastNudge) && workCycles == old(workCycles) && StopsWake(Last(log))
      ensures code == ExitCode(Last(log))
    {
      var nudge, worked;
      nudge, worked, code := Attempt();
      if !worked {
        return false, code;
      }
      var ok := world.acks(|log|);
      Note(Acked(nudge, ok));
      if !ok {
        return false, 1;
      }
      Note(Acknowledged(nudge));
      lastNudge := nudge;
      workCycles := workCycles + 1;
      return true, 0;
    }

    /** One wake: `runWakeOnce`, which is also one turn of `runPollLoop`. */
    method Wake(continuous: bool, untilIdle: bool, maxCycles: int) returns (code: nat, ghost served: seq<Act>)
      requires Valid()
      modifies this`log, this`workCycles, this`lastNudge
      ensures Valid() && IsWake(old(log), served, log, FollowUps(continuous, untilIdle, maxCycles))
      ensures code == ExitCode(Last(served))
      ensures code == 0 || code == 1
      ensures code == 1 <==>
                && served != []
                && var last := served[|served| - 1];
                   last == Listed(ListFailed) || last.Unbound? || (last.Worked? && last.result == Broke) || (last.Acked? && !last.ok)
      ensures workCycles <= old(workCycles) + 1 + FollowUps(continuous, untilIdle, maxCycles)
    {
      var acknowledged;
      acknowledged, code := ServeNudge();
      served := log;
      if acknowledged && continuous {
        if untilIdle {
          var _ := RunUntilIdle(maxCycles);
        } else {
          var _ := RunAdditional(maxCycles);
        }
      }
    }

    /** Any number of turns of `runPollLoop`. */
    method Poll(turns: nat, continuous: bool, untilIdle: bool, maxCycles: int)
      requires Valid()
      modifies this`log, this`workCycles, this`lastNudge
      ensures Valid() && old(log) <= log
      ensures workCycles <= old(workCycles) + MostCycles(turns, FollowUps(continuous, untilIdle, maxCycles))
    {
      var turn := 0;
      while turn < turns
        invariant 0 <= turn <= turns && Valid() && old(log) <= log
        invariant workCycles <= old(workCycles) + MostCycles(turn, FollowUps(continuous, untilIdle, maxCycles))
      {
        var _, served := Wake(continuous, untilIdle, maxCycles);
        MoreCycles(turn, FollowUps(continuous, untilIdle, maxCycles));
        turn := turn + 1;
      }
    }
  }

  lemma MoreCycles(turns: nat, followUps: nat)
    ensures MostCycles(turns + 1, followUps) == MostCycles(turns, followUps) + 1 + followUps
  {}

  lemma MoreBatches(batch: nat, cycles: nat)
    requires batch < MAX_BATCHES
    ensures (batch + 1) * cycles == batch * cycles + cycles && (batch + 1) * cycles <= MAX_BATCHES * cycles
    ensures batch * cycles <= MAX_BATCHES * cycles
  {}
}
