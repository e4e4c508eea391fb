/** Startup and shutdown of the desktop app (`cmd/desktop/app.go`) as interleaved atomic sections: any number of
    startup and shutdown calls, each mutex-protected section, channel operation and session call one step. */
module DesktopSession {
  import opened Wrappers

  datatype Session = Session(id: nat, owned: bool)

  /** Where a startup call stands. */
  datatype Startup =
    | Refused                                            // closing, or another startup came first
    | Starting                                           // waiting for the session starter
    | Returned(session: Option<Session>, failed: bool)   // about to enter the finishing section
    | MustClose(late: Session)                           // found the app closing
    | Signalling                                         // about to close the done channel
    | Finished

  datatype Outcome = Unwaited | SawDone | TimedOut

  /** Where a shutdown call stands, with the session it took. */
  datatype Shutdown =
    | Waiting(session: Option<Session>)
    | Deciding(session: Option<Session>, how: Outcome)
    | Ended(session: Option<Session>, how: Outcome)

  datatype Closer = ByStartup(t: nat) | ByShutdown(u: nat)

  datatype Close = Close(session: Session, closer: Closer)

  /** `starter` is the call that made the done channel; `started`, `dropped` and `closes` record what
      happened to sessions. */
  datatype App = App(
    closing: bool,
    starter: Option<nat>,
    doneClosed: bool,
    stored: Option<Session>,
    startups: map<nat, Startup>,
    shutdowns: map<nat, Shutdown>,
    started: seq<Session>,
    dropped: bool,
    closes: seq<Close>)

  datatype Event =
    | EnterStartup(t: nat)
    | StartReturns(t: nat, session: Option<Session>, failed: bool)
    | FinishSection(t: nat)
    | CloseLate(t: nat)
    | Signal(t: nat)
    | EnterShutdown(u: nat)
    | WaitDone(u: nat)
    | WaitExpires(u: nat)
    | Decide(u: nat)

  const INITIAL := App(false, None, false, None, map[], map[], [], false, [])

  predicate Enabled(a: App, e: Event) {
    match e
    case EnterStartup(t) => t !in a.startups
    case StartReturns(t, _, _) => t in a.startups && a.startups[t].Starting?
    case FinishSection(t) => t in a.startups && a.startups[t].Returned?
    case CloseLate(t) => t in a.startups && a.startups[t].MustClose?
    case Signal(t) => t in a.startups && a.startups[t].Signalling?
    case EnterShutdown(u) => u !in a.shutdowns
    case WaitDone(u) => u in a.shutdowns && a.shutdowns[u].Waiting? && a.doneClosed
    case WaitExpires(u) => u in a.shutdowns && a.shutdowns[u].Waiting?
    case Decide(u) => u in a.shutdowns && a.shutdowns[u].Deciding?
  }

  function Next(a: App, e: Event): App
    requires Enabled(a, e)
  {
    match e
    case EnterStartup(t) =>
      if a.closing || a.starter.Some? then a.(startups := a.startups[t := Refused])
      else a.(startups := a.startups[t := Starting], starter := Some(t))
    case StartReturns(t, session, failed) =>
      a.(startups := a.startups[t := Returned(session, failed)],
         started := if session.Some? then a.started + [session.value] else a.started)
    case FinishSection(t) =>
      var Returned(session, failed) := a.startups[t];
      if a.closing then
        a.(startups := a.startups[t := if session.Some? then MustClose(session.value) else Signalling])
      else if failed || session.None? then
        a.(startups := a.startups[t := Signalling], dropped := a.dropped || session.Some?)
      else
        a.(startups := a.startups[t := Signalling], stored := session)
    case CloseLate(t) =>
      a.(startups := a.startups[t := Signalling], closes := a.closes + [Close(a.startups[t].late, ByStartup(t))])
    case Signal(t) =>
      a.(startups := a.startups[t := Finished], doneClosed := true)
    case EnterShutdown(u) =>
      a.(closing := true, stored := None,
         shutdowns := a.shutdowns[u := if a.starter.Some? then Waiting(a.stored) else Deciding(a.stored, Unwaited)])
    case WaitDone(u) =>
      a.(shutdowns := a.shutdowns[u := Deciding(a.shutdowns[u].session, SawDone)])
    case WaitExpires(u) =>
      a.(shutdowns := a.shutdowns[u := Ended(a.shutdowns[u].session, TimedOut)])
    case Decide(u) =>
      var Deciding(session, how) := a.shutdowns[u];
      if session.None? || !session.value.owned then a.(shutdowns := a.shutdowns[u := Ended(session, how)])
      else a.(shutdowns := a.shutdowns[u := Ended(session, how)], closes := a.closes + [Close(session.value, ByShutdown(u))])
  }

  // ---- Who holds the session -----------------------------------------------

  /** The one place a started session is in, or what became of it. */
  datatype Place =
    | WithStartup
    | InStore
    | WithShutdown(u: nat)
    | WasClosed(closer: Closer)
    | LeftRunning(u: nat)   // a shutdown found that the app does not own it
    | Abandoned(u: nat)     // a shutdown holding it timed out
    | Dropped               // the starter returned it together with an error

  predicate StartupHolds(a: App, t: nat, x: Session) {
    t in a.startups && (a.startups[t] == MustClose(x) || (a.startups[t].Returned? && a.startups[t].session == Some(x)))
  }

  predicate ShutdownHas(a: App, u: nat, x: Session) {
    u in a.shutdowns && a.shutdowns[u].session == Some(x)
  }

  /** `place` is where `x`, the session that was started, is. */
  ghost predicate At(a: App, x: Session, place: Place) {
    match place
    case WithStartup => a.starter.Some? && StartupHolds(a, a.starter.value, x)
    case InStore => a.stored == Some(x)
    case WithShutdown(u) => ShutdownHas(a, u, x) && !a.shutdowns[u].Ended?
    case WasClosed(closer) =>
      && a.closes == [Close(x, closer)]
      && (closer.ByStartup? ==> a.starter == Some(closer.t))
      && (closer.ByShutdown? ==> x.owned && ShutdownHas(a, closer.u, x) && a.shutdowns[closer.u].Ended? && a.shutdowns[closer.u].how != TimedOut)
    case LeftRunning(u) => ShutdownHas(a, u, x) && a.shutdowns[u].Ended? && a.shutdowns[u].how != TimedOut && !x.owned
    case Abandoned(u) => ShutdownHas(a, u, x) && a.shutdowns[u] == Ended(Some(x), TimedOut)
    case Dropped => a.dropped
  }

  /** Nobody but `place` holds a session, and no close happened unless `place` says so. */
  ghost predicate OnlyAt(a: App, place: Place) {
    && (forall t :: t in a.startups && (a.startups[t].MustClose? || (a.startups[t].Returned? && a.startups[t].session.Some?)) ==> place == WithStartup)
    && (a.stored.Some? ==> place == InStore)
    && (forall u :: u in a.shutdowns && a.shutdowns[u].session.Some? ==>
          place in {WithShutdown(u), WasClosed(ByShutdown(u)), LeftRunning(u), Abandoned(u)})
    && (a.closes != [] ==> place.WasClosed?)
    && (a.dropped ==> place == Dropped)
  }

  /** Only the first startup gets past the guard, and its stage fixes the done channel. */
  ghost predicate OneStarter(a: App) {
    && (forall t :: t in a.startups && !a.startups[t].Refused? ==> a.starter == Some(t))
    && (a.starter.Some? ==> a.starter.value in a.startups && !a.startups[a.starter.value].Refused?)
    && (a.doneClosed <==> a.starter.Some? && a.startups[a.starter.value].Finished?)
    && (a.starter.Some? && a.startups[a.starter.value].Starting? ==> a.started == [])
    && (a.starter.None? ==> a.started == [])
  }

  /** Once a shutdown has entered, the app is closing, nothing is stored, and a wait ended by the channel
      means the channel was closed. */
  ghost predicate ShutdownsSeen(a: App) {
    && (a.shutdowns != map[] ==> a.closing && a.stored.None?)
    && (forall t :: t in a.startups && a.startups[t].MustClose? ==> a.closing)
    && (forall u :: u in a.shutdowns && a.shutdowns[u].Deciding? ==> a.shutdowns[u].how != TimedOut)
    && (forall u :: u in a.shutdowns && !a.shutdowns[u].Waiting? && a.shutdowns[u].how == SawDone ==> a.doneClosed)
    && (forall u :: u in a.shutdowns && !a.shutdowns[u].Waiting? && a.shutdowns[u].how == Unwaited ==>
          a.starter.None? && a.shutdowns[u].session.None?)
  }

  ghost predicate Inv(a: App, place: Place) {
    && OneStarter(a) && ShutdownsSeen(a)
    && (a.started == [] ==> NothingHeld(a))
    && (a.started != [] ==> |a.started| == 1 && At(a, a.started[0], place) && OnlyAt(a, place))
  }

  ghost predicate NothingHeld(a: App) {
    && a.stored.None? && a.closes == [] && !a.dropped
    && (forall t :: t in a.startups ==> !a.startups[t].MustClose? && (a.startups[t].Returned? ==> a.startups[t].session.None?))
    && (forall u :: u in a.shutdowns ==> a.shutdowns[u].session.None?)
  }

  /** How a step moves the session. */
  ghost function Moved(a: App, place: Place, e: Event): Place
    requires Enabled(a, e)
  {
    match e
    case StartReturns(_, session, _) => if session.Some? then WithStartup else place
    case FinishSection(t) =>
      if a.closing || a.startups[t].session.None? then place else if a.startups[t].failed then Dropped else InStore
    case CloseLate(t) => WasClosed(ByStartup(t))
    case EnterShutdown(u) => if a.stored.Some? then WithShutdown(u) else place
    case WaitExpires(u) => if a.shutdowns[u].session.Some? then Abandoned(u) else place
    case Decide(u) =>
      if a.shutdowns[u].session.None? then place
      else if a.shutdowns[u].session.value.owned then WasClosed(ByShutdown(u)) else LeftRunning(u)
    case _ => place
  }

  lemma NextOneStarter(a: App, e: Event)
    requires OneStarter(a) && Enabled(a, e)
    ensures OneStarter(Next(a, e))
  {}

  lemma NextShutdownsSeen(a: App, e: Event)
    requires OneStarter(a) && ShutdownsSeen(a) && Enabled(a, e)
    requires a.starter.None? ==> a.stored.None?
    ensures ShutdownsSeen(Next(a, e))
  {}

  predicate OfStartup(e: Event) {
    e.EnterStartup? || e.StartReturns? || e.FinishSection? || e.CloseLate? || e.Signal?
  }

  lemma NextPlaceOfStartup(a: App, place: Place, e: Event)
    requires Inv(a, place) && Enabled(a, e) && OfStartup(e) && Next(a, e).started != []
    ensures |Next(a, e).started| == 1
    ensures At(Next(a, e), Next(a, e).started[0], Moved(a, place, e))
  {
    assert e.CloseLate? ==> place == WithStartup;
  }

  lemma NextPlaceOfShutdown(a: App, place: Place, e: Event)
    requires Inv(a, place) && Enabled(a, e) && !OfStartup(e) && a.started != []
    ensures At(Next(a, e), a.started[0], Moved(a, place, e))
  {
    assert !e.EnterShutdown? && a.shutdowns[e.u].session.Some? ==> place == WithShutdown(e.u);
  }

  lemma NextOnlyOfStartup(a: App, place: Place, e: Event)
    requires Inv(a, place) && Enabled(a, e) && OfStartup(e) && Next(a, e).started != []
    ensures OnlyAt(Next(a, e), Moved(a, place, e))
  {}

  lemma NextOnlyOfShutdown(a: App, place: Place, e: Event)
    requires Inv(a, place) && Enabled(a, e) && !OfStartup(e) && a.started != []
    ensures OnlyAt(Next(a, e), Moved(a, place, e))
  {}

  lemma NextNothingHeld(a: App, place: Place, e: Event)
    requires Inv(a, place) && Enabled(a, e) && Next(a, e).started == []
    ensures NothingHeld(Next(a, e))
  {}

  /** Every step keeps the invariant: the session is in exactly one place. */
  lemma NextKeepsInv(a: App, place: Place, e: Event)
    requires Inv(a, place) && Enabled(a, e)
    ensures Inv(Next(a, e), Moved(a, place, e))
  {
    NextOneStarter(a, e);
    NextShutdownsSeen(a, e);
    if Next(a, e).started == [] {
      NextNothingHeld(a, place, e);
    } else if OfStartup(e) {
      NextPlaceOfStartup(a, place, e);
      NextOnlyOfStartup(a, place, e);
    } else {
      NextPlaceOfShutdown(a, place, e);
      NextOnlyOfShutdown(a, place, e);
    }
  }

  // ---- Runs ----------------------------------------------------------------

  datatype Trace = Trace(states: seq<App>, events: seq<Event>)

  ghost predicate StepAt(t: Trace, k: nat)
    requires k < |t.events| && k + 1 < |t.states|
  {
    Enabled(t.states[k], t.events[k]) && t.states[k + 1] == Next(t.states[k], t.events[k])
  }

  ghost predicate IsRun(t: Trace) {
    && |t.states| == |t.events| + 1 && t.states[0] == INITIAL
    && forall k :: 0 <= k < |t.events| ==> StepAt(t, k)
  }

  /** Every interleaving of any number of startup and shutdown calls. */
  type Run = t: Trace | IsRun(t) ghost witness Trace([INITIAL], [])

  lemma {:induction false} RunInv(t: Run, k: nat) returns (place: Place)
    requires k < |t.states|
    ensures Inv(t.states[k], place)
  {
    if k == 0 {
      place := Dropped;
    } else {
      place := RunInv(t, k - 1);
      assert StepAt(t, k - 1);
      NextKeepsInv(t.states[k - 1], place, t.events[k - 1]);
      place := Moved(t.states[k - 1], place, t.events[k - 1]);
    }
  }

  /** The app is closing exactly when some shutdown has entered, and a startup is under way or done exactly when one entered
      before every shutdown. */
  lemma {:induction false} GuardsIff(t: Run, k: nat)
    requires k < |t.states|
    ensures t.states[k].closing <==> exists i :: 0 <= i < k && t.events[i].EnterShutdown?
    ensures t.states[k].starter.Some? <==>
              exists j :: 0 <= j < k && t.events[j].EnterStartup? && forall i :: 0 <= i < j ==> !t.events[i].EnterShutdown?
  {
    if k != 0 {
      GuardsIff(t, k - 1);
      assert StepAt(t, k - 1);
      if t.states[k - 1].starter.Some? {
        var j :| 0 <= j < k - 1 && t.events[j].EnterStartup? && forall i :: 0 <= i < j ==> !t.events[i].EnterShutdown?;
      }
      if t.states[k - 1].closing {
        var i :| 0 <= i < k - 1 && t.events[i].EnterShutdown?;
      }
    }
  }

  /** A startup that enters after a shutdown or after another startup does nothing. */
  lemma LateStartupIsRefused(t: Run, k: nat)
    requires k < |t.events| && t.events[k].EnterStartup?
    ensures t.events[k].t in t.states[k + 1].startups
    ensures t.states[k + 1].startups[t.events[k].t].Refused? <==>
              exists i :: 0 <= i < k && (t.events[i].EnterShutdown? || t.events[i].EnterStartup?)
    ensures t.states[k + 1] == t.states[k].(startups := t.states[k + 1].startups, starter := t.states[k + 1].starter)
  {
    GuardsIff(t, k);
    FirstOfKind(t, k);
    assert StepAt(t, k);
  }

  /** If any startup or shutdown has entered, either one of them was a shutdown or the first was a startup. */
  lemma {:induction false} FirstOfKind(t: Run, k: nat)
    requires k <= |t.events|
    ensures (exists i :: 0 <= i < k && (t.events[i].EnterShutdown? || t.events[i].EnterStartup?)) <==>
              || (exists i :: 0 <= i < k && t.events[i].EnterShutdown?)
              || (exists j :: 0 <= j < k && t.events[j].EnterStartup? && forall i :: 0 <= i < j ==> !t.events[i].EnterShutdown?)
  {}

  /** A shutdown waits exactly when a startup entered before every shutdown; otherwise it decides at once. */
  lemma WaitsIff(t: Run, k: nat)
    requires k < |t.events| && t.events[k].EnterShutdown?
    ensures var u := t.events[k].u;
            && u in t.states[k + 1].shutdowns
            && (t.states[k + 1].shutdowns[u].Waiting? <==>
                  exists j :: 0 <= j < k && t.events[j].EnterStartup? && forall i :: 0 <= i < j ==> !t.events[i].EnterShutdown?)
            && (!t.states[k + 1].shutdowns[u].Waiting? ==> t.states[k + 1].shutdowns[u] == Deciding(t.states[k].stored, Unwaited))
  {
    GuardsIff(t, k);
    assert StepAt(t, k);
  }

  /** A session is dropped exactly when the starter returned it with an error and the app was not closing yet. */
  lemma {:induction false} DroppedIff(t: Run, k: nat)
    requires k < |t.states|
    ensures t.states[k].dropped <==>
              exists j :: 0 <= j < k && DropsAt(t, j)
  {
    if k != 0 {
      DroppedIff(t, k - 1);
      assert StepAt(t, k - 1);
      if t.states[k - 1].dropped {
        var j :| 0 <= j < k - 1 && DropsAt(t, j);
      }
      if t.states[k].dropped && !t.states[k - 1].dropped {
        assert DropsAt(t, k - 1);
      }
    }
  }

  /** Step `j` finishes a startup whose starter returned a session and an error, with no shutdown entered. */
  predicate DropsAt(t: Trace, j: nat)
    requires j < |t.events| && j < |t.states|
  {
    && t.events[j].FinishSection? && !t.states[j].closing
    && t.events[j].t in t.states[j].startups
    && var stage := t.states[j].startups[t.events[j].t]; stage.Returned? && stage.session.Some? && stage.failed
  }

  /** At most one session is ever started, it is closed at most once, and the done channel is never closed twice. */
  lemma AtMostOneSession(t: Run, k: nat)
    requires k < |t.states|
    ensures |t.states[k].started| <= 1 && |t.states[k].closes| <= 1
    ensures t.states[k].closes != [] ==> t.states[k].started == [t.states[k].closes[0].session]
    ensures k < |t.events| && t.events[k].Signal? ==> !t.states[k].doneClosed
  {
    var place := RunInv(t, k);
    if k < |t.events| {
      assert StepAt(t, k);
    }
  }

  /** With any number of shutdown calls: once one of them has seen startup finish, nothing is stored, and an owned
      session has been closed exactly when no other shutdown still holds it or timed out holding it. */
  lemma ClosedAfterDoneIff(t: Run, k: nat, u: nat)
    requires k < |t.states| && u in t.states[k].shutdowns
    requires t.states[k].shutdowns[u].Ended? && t.states[k].shutdowns[u].how == SawDone
    requires t.states[k].started != [] && t.states[k].started[0].owned && !t.states[k].dropped
    ensures t.states[k].stored.None?
    ensures |t.states[k].closes| == 1 <==>
              forall v :: v in t.states[k].shutdowns && t.states[k].shutdowns[v].session.Some? ==>
                t.states[k].shutdowns[v].Ended? && t.states[k].shutdowns[v].how != TimedOut
  {
    var place := RunInv(t, k);
  }

  /** When the only shutdown call ended because startup was done, an owned session has been closed exactly once:
      by that shutdown if it took the session, by the startup otherwise. Nothing remains stored. */
  lemma ShutdownAfterDone(t: Run, k: nat, u: nat)
    requires k < |t.states| && t.states[k].shutdowns.Keys == {u}
    requires t.states[k].shutdowns[u].Ended? && t.states[k].shutdowns[u].how == SawDone
    ensures t.states[k].stored.None? && t.states[k].doneClosed
    ensures t.states[k].started != [] && t.states[k].started[0].owned && !t.states[k].dropped ==>
              t.states[k].starter.Some? && t.states[k].closes ==
                [Close(t.states[k].started[0],
                       if t.states[k].shutdowns[u].session.Some? then ByShutdown(u) else ByStartup(t.states[k].starter.value))]
  {
    var place := RunInv(t, k);
  }

  /** Nothing is left to run but calls that have not begun. */
  ghost predicate Quiet(a: App) {
    && (forall t :: t in a.startups ==> a.startups[t].Refused? || a.startups[t].Finished?)
    && (forall u :: u in a.shutdowns ==> a.shutdowns[u].Ended?)
  }

  /** Once everything has come to rest after a shutdown, an owned session was closed exactly when no shutdown
      timed out while holding it and the starter had not returned it together with an error. */
  lemma ClosedIff(t: Run, k: nat)
    requires k < |t.states| && Quiet(t.states[k]) && t.states[k].shutdowns != map[]
    requires t.states[k].started != [] && t.states[k].started[0].owned
    ensures |t.states[k].closes| == 1 <==>
              !t.states[k].dropped && forall u :: u in t.states[k].shutdowns ==>
                t.states[k].shutdowns[u] != Ended(Some(t.states[k].started[0]), TimedOut)
  {
    var place := RunInv(t, k);
  }

  /** A session that the app does not own is closed only by a startup that found the app closing: at rest it was closed
      exactly when no shutdown took it, it is not stored, and it did not come with an error. */
  lemma UnownedClosedIff(t: Run, k: nat)
    requires k < |t.states| && Quiet(t.states[k])
    requires t.states[k].started != [] && !t.states[k].started[0].owned
    ensures |t.states[k].closes| == 1 <==>
              && !t.states[k].dropped && t.states[k].stored.None?
              && forall u :: u in t.states[k].shutdowns ==> t.states[k].shutdowns[u].session.None?
  {
    var place := RunInv(t, k);
  }

  lemma Extend(t: Run, e: Event) returns (t': Run)
    requires Enabled(t.states[|t.states| - 1], e)
    ensures t' == Trace(t.states + [Next(t.states[|t.states| - 1], e)], t.events + [e])
  {
    var u := Trace(t.states + [Next(t.states[|t.states| - 1], e)], t.events + [e]);
    forall k | 0 <= k < |u.events| ensures StepAt(u, k) {
      if k < |t.events| {
        assert StepAt(t, k);
      }
    }
    t' := u;
  }

  /** The timeout case does occur: a shutdown takes the stored session, times out before the startup signals,
      and the owned session is never closed. */
  lemma TimeoutLeaks() returns (t: Run)
    ensures var a := t.states[|t.states| - 1];
            && Quiet(a) && a.closing && a.stored.None? && !a.dropped
            && a.started == [Session(0, true)] && a.closes == []
  {
    t := Trace([INITIAL], []);
    t := Extend(t, EnterStartup(0));
    t := Extend(t, StartReturns(0, Some(Session(0, true)), false));
    t := Extend(t, FinishSection(0));
    t := Extend(t, EnterShutdown(0));
    t := Extend(t, WaitExpires(0));
    t := Extend(t, Signal(0));
  }
}
