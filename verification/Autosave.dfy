/** The editor's autosave queue (`web/file-editor.js`) against a compare-and-append version store with other
    writers, as a state machine over edits, timer firings, responses and failures. */
module Autosave {
  import opened CommonSubsequence
  import opened Wrappers

  datatype Version = Version(parent: int, content: string)

  /** What has become of the one request in flight. */
  datatype Stage = Sent | Accepted(version: nat) | Rejected

  datatype Request = Request(snapshot: string, expected: nat, stage: Stage)

  datatype Outcome = Skipped | Saved(version: nat) | Failed

  datatype Done = Done(snapshot: string, outcome: Outcome)

  /** `queue` holds the operations not yet begun. `asked`, `sent` and `done` record, in order, the snapshots
      queued, the snapshots posted and the operations finished. */
  datatype Editor = Editor(
    text: string,
    savedContent: string,
    version: nat,
    timer: Option<string>,
    queuedSaves: nat,
    queue: seq<string>,
    inFlight: Option<Request>,
    lastFailed: bool,
    server: seq<Version>,
    asked: seq<string>,
    sent: seq<string>,
    done: seq<Done>)

  datatype Event =
    | Edit(text: string)
    | TimerFires
    | SaveClicked
    | Begin               // the next queued operation starts
    | Arrives             // the server handles the request
    | Refused             // the server fails the request without appending
    | Answered            // the response reaches the editor
    | Lost                // the request or its response is lost
    | OtherWriter(content: string)

  predicate Enabled(e: Editor, ev: Event) {
    match ev
    case Edit(_) => true
    case TimerFires => e.timer.Some?
    case SaveClicked => true
    case Begin => e.inFlight.None? && e.queue != []
    case Arrives => e.inFlight.Some? && e.inFlight.value.stage == Sent
    case Refused => e.inFlight.Some? && e.inFlight.value.stage == Sent
    case Answered => e.inFlight.Some? && e.inFlight.value.stage != Sent
    case Lost => e.inFlight.Some?
    case OtherWriter(_) => true
  }

  /** `handleEditorChange` */
  function Changed(e: Editor, text: string): Editor {
    var e := e.(text := text);
    if text == e.savedContent && e.queuedSaves == 0 then e.(timer := None) else e.(timer := Some(text))
  }

  /** `queueHistoryStep` */
  function Queued(e: Editor, snapshot: string): Editor {
    e.(queuedSaves := e.queuedSaves + 1, queue := e.queue + [snapshot], asked := e.asked + [snapshot])
  }

  /** `saveFile`, up to its first wait */
  function SaveNow(e: Editor): Editor {
    var e := e.(timer := None);
    if e.text == e.savedContent && e.queuedSaves == 0 then e else Queued(e, e.text)
  }

  /** `finishHistoryStep` */
  function FinishStep(e: Editor, success: bool, d: Done): Editor {
    var left := if e.queuedSaves == 0 then 0 else e.queuedSaves - 1;
    var e := e.(queuedSaves := left, inFlight := None, lastFailed := !success, done := e.done + [d]);
    if success && e.text != e.savedContent && e.timer.None? && left == 0 then e.(timer := Some(e.text)) else e
  }

  function Next(e: Editor, ev: Event): Editor
    requires Enabled(e, ev)
  {
    match ev
    case Edit(text) => Changed(e, text)
    case TimerFires => Queued(e.(timer := None), e.timer.value)
    case SaveClicked => SaveNow(e)
    case Begin =>
      var snapshot := e.queue[0];
      var e := e.(queue := e.queue[1..]);
      if snapshot == e.savedContent then FinishStep(e, true, Done(snapshot, Skipped))
      else e.(inFlight := Some(Request(snapshot, e.version, Sent)), sent := e.sent + [snapshot])
    case Arrives =>
      var r := e.inFlight.value;
      if r.expected == |e.server| - 1
      then e.(inFlight := Some(r.(stage := Accepted(|e.server|))), server := e.server + [Version(r.expected, r.snapshot)])
      else e.(inFlight := Some(r.(stage := Rejected)))
    case Refused => e.(inFlight := Some(e.inFlight.value.(stage := Rejected)))
    case Answered =>
      var r := e.inFlight.value;
      if r.stage.Accepted?
      then FinishStep(e.(version := r.stage.version, savedContent := r.snapshot), true, Done(r.snapshot, Saved(r.stage.version)))
      else FinishStep(e, false, Done(r.snapshot, Failed))
    case Lost => FinishStep(e, false, Done(e.inFlight.value.snapshot, Failed))
    case OtherWriter(content) => e.(server := e.server + [Version(|e.server| - 1, content)])
  }

  /** A file whose current version is the last one stored has just been loaded. */
  ghost predicate Loaded(e: Editor) {
    && e.server != [] && e.version == |e.server| - 1
    && e.text == e.savedContent == e.server[e.version].content
    && e.timer.None? && e.queuedSaves == 0 && e.queue == [] && e.inFlight.None? && !e.lastFailed
    && e.asked == [] && e.sent == [] && e.done == []
    && forall v :: 0 <= v < |e.server| ==> e.server[v].parent == v - 1
  }

  // ---- No lost edit --------------------------------------------------------

  /** The counter is the number of unfinished operations; a pending timer holds the current text; and unsaved
      text is always on its way, unless the last finished save failed. */
  ghost predicate NothingLost(e: Editor) {
    && e.queuedSaves == |e.queue| + (if e.inFlight.Some? then 1 else 0)
    && (e.timer.Some? ==> e.timer.value == e.text)
    && (e.text != e.savedContent ==> e.timer.Some? || e.queuedSaves > 0 || e.lastFailed)
  }

  lemma NextNothingLost(e: Editor, ev: Event)
    requires NothingLost(e) && Enabled(e, ev)
    ensures NothingLost(Next(e, ev))
  {}

  /** The flag says whether the operation that finished last failed. */
  ghost predicate FlagIsRight(e: Editor) {
    e.lastFailed <==> e.done != [] && e.done[|e.done| - 1].outcome == Failed
  }

  lemma NextFlagIsRight(e: Editor, ev: Event)
    requires FlagIsRight(e) && Enabled(e, ev)
    ensures FlagIsRight(Next(e, ev))
  {}

  // ---- Order of saves ------------------------------------------------------

  function Snapshots(done: seq<Done>): seq<string> {
    seq(|done|, k requires 0 <= k < |done| => done[k].snapshot)
  }

  /** The finished operations that posted a request. */
  function Posted(done: seq<Done>): seq<string> {
    if done == [] then []
    else Posted(done[..|done| - 1]) + if done[|done| - 1].outcome == Skipped then [] else [done[|done| - 1].snapshot]
  }

  function Flight(e: Editor): seq<string> {
    if e.inFlight.Some? then [e.inFlight.value.snapshot] else []
  }

  /** The version and content the editor knows after these operations. */
  function Known(start: nat, content: string, done: seq<Done>): (nat, string) {
    if done == [] then (start, content)
    else
      var d := done[|done| - 1];
      if d.outcome.Saved? then (d.outcome.version, d.snapshot) else Known(start, content, done[..|done| - 1])
  }

  /** An operation is skipped exactly when it changes nothing, and an accepted one stands directly on the version
      the editor last knew. */
  ghost predicate WellFounded(start: nat, content: string, done: seq<Done>, server: seq<Version>) {
    forall k :: 0 <= k < |done| ==>
      var known := Known(start, content, done[..k]);
      match done[k].outcome
      case Skipped => done[k].snapshot == known.1
      case Saved(v) => done[k].snapshot != known.1 && v < |server| && server[v] == Version(known.0, done[k].snapshot)
      case Failed => done[k].snapshot != known.1
  }

  ghost predicate InOrder(e: Editor) {
    && e.asked == Snapshots(e.done) + Flight(e) + e.queue
    && e.sent == Posted(e.done) + Flight(e)
  }

  ghost predicate Consistent(e: Editor, start: nat, content: string) {
    && start < |e.server| && e.server[start].content == content
    && e.version < |e.server| && e.server[e.version].content == e.savedContent
    && (forall v :: 0 <= v < |e.server| ==> e.server[v].parent == v - 1)
    && (e.version, e.savedContent) == Known(start, content, e.done)
    && WellFounded(start, content, e.done, e.server)
    && (e.inFlight.Some? ==>
          var r := e.inFlight.value;
          && r.expected == e.version && r.snapshot != e.savedContent
          && (r.stage.Accepted? ==> r.stage.version < |e.server| && e.server[r.stage.version] == Version(r.expected, r.snapshot)))
  }

  lemma DoneExtends(start: nat, content: string, done: seq<Done>, d: Done, server: seq<Version>)
    requires WellFounded(start, content, done, server)
    requires var known := Known(start, content, done);
             match d.outcome
             case Skipped => d.snapshot == known.1
             case Saved(v) => d.snapshot != known.1 && v < |server| && server[v] == Version(known.0, d.snapshot)
             case Failed => d.snapshot != known.1
    ensures WellFounded(start, content, done + [d], server)
    ensures Known(start, content, done + [d]) ==
              if d.outcome.Saved? then (d.outcome.version, d.snapshot) else Known(start, content, done)
  {
    var all := done + [d];
    assert all[..|all| - 1] == done;
    forall k | 0 <= k < |all|
      ensures var known := Known(start, content, all[..k]);
              match all[k].outcome
              case Skipped => all[k].snapshot == known.1
              case Saved(v) => all[k].snapshot != known.1 && v < |server| && server[v] == Version(known.0, all[k].snapshot)
              case Failed => all[k].snapshot != known.1
    {
      if k < |done| {
        assert all[..k] == done[..k] && all[k] == done[k];
      }
    }
  }

  lemma RecordsExtend(done: seq<Done>, d: Done)
    ensures Snapshots(done + [d]) == Snapshots(done) + [d.snapshot]
    ensures Posted(done + [d]) == Posted(done) + if d.outcome == Skipped then [] else [d.snapshot]
  {
    assert (done + [d])[..|done|] == done;
  }

  lemma QueuedInOrder(e: Editor, snapshot: string)
    requires InOrder(e)
    ensures InOrder(Queued(e, snapshot))
  {
    var e' := Queued(e, snapshot);
    assert e'.asked == Snapshots(e.done) + Flight(e) + (e.queue + [snapshot]);
  }

  lemma FinishInOrder(e: Editor, e': Editor, d: Done)
    requires InOrder(e) && e.inFlight.Some? && e.inFlight.value.snapshot == d.snapshot && d.outcome != Skipped
    requires e'.asked == e.asked && e'.sent == e.sent && e'.queue == e.queue && e'.done == e.done + [d] && e'.inFlight.None?
    ensures InOrder(e')
  {
    RecordsExtend(e.done, d);
    assert Snapshots(e.done) + [d.snapshot] + e.queue == Snapshots(e.done) + [d.snapshot] + [] + e.queue;
  }

  lemma MoveHead(a: seq<string>, queue: seq<string>)
    requires queue != []
    ensures a + [] + queue == a + [queue[0]] + queue[1..]
    ensures a + [] + queue == (a + [queue[0]]) + [] + queue[1..]
  {}

  lemma SkipInOrder(e: Editor, e': Editor)
    requires InOrder(e) && e.inFlight.None? && e.queue != [] && e'.done == e.done + [Done(e.queue[0], Skipped)]
    requires e'.asked == e.asked && e'.sent == e.sent && e'.queue == e.queue[1..] && e'.inFlight.None?
    ensures InOrder(e')
  {
    MoveHead(Snapshots(e.done), e.queue);
    RecordsExtend(e.done, Done(e.queue[0], Skipped));
    assert Posted(e.done) + [] + [] == Posted(e.done) + [];
  }

  lemma SendInOrder(e: Editor, e': Editor)
    requires InOrder(e) && e.inFlight.None? && e.queue != [] && e'.done == e.done
    requires e'.asked == e.asked && e'.sent == e.sent + [e.queue[0]] && e'.queue == e.queue[1..]
    requires e'.inFlight.Some? && e'.inFlight.value.snapshot == e.queue[0]
    ensures InOrder(e')
  {
    MoveHead(Snapshots(e.done), e.queue);
    assert Posted(e.done) + [] + [e.queue[0]] == Posted(e.done) + [e.queue[0]];
  }

  lemma BeginInOrder(e: Editor)
    requires InOrder(e) && Enabled(e, Begin)
    ensures InOrder(Next(e, Begin))
  {
    if e.queue[0] == e.savedContent {
      SkipInOrder(e, Next(e, Begin));
    } else {
      SendInOrder(e, Next(e, Begin));
    }
  }

  lemma NextInOrder(e: Editor, ev: Event)
    requires InOrder(e) && Enabled(e, ev)
    ensures InOrder(Next(e, ev))
  {
    match ev
    case TimerFires =>
      QueuedInOrder(e.(timer := None), e.timer.value);
    case SaveClicked =>
      QueuedInOrder(e.(timer := None), e.text);
    case Begin =>
      BeginInOrder(e);
    case Answered =>
      var r := e.inFlight.value;
      FinishInOrder(e, Next(e, ev), Done(r.snapshot, if r.stage.Accepted? then Saved(r.stage.version) else Failed));
    case Lost =>
      FinishInOrder(e, Next(e, ev), Done(e.inFlight.value.snapshot, Failed));
    case _ =>
  }

  lemma ServerGrows(start: nat, content: string, done: seq<Done>, server: seq<Version>, v: Version)
    requires WellFounded(start, content, done, server)
    ensures WellFounded(start, content, done, server + [v])
  {
    forall k | 0 <= k < |done| && done[k].outcome.Saved?
      ensures var version := done[k].outcome.version; version < |server| && (server + [v])[version] == server[version]
    {}
  }

  lemma BeginConsistent(e: Editor, start: nat, content: string)
    requires Consistent(e, start, content) && Enabled(e, Begin)
    ensures Consistent(Next(e, Begin), start, content)
  {
    if e.queue[0] == e.savedContent {
      DoneConsistent(e, Next(e, Begin), Done(e.queue[0], Skipped), start, content);
    }
  }

  lemma AnsweredConsistent(e: Editor, start: nat, content: string)
    requires Consistent(e, start, content) && Enabled(e, Answered)
    ensures Consistent(Next(e, Answered), start, content)
  {
    var r := e.inFlight.value;
    DoneConsistent(e, Next(e, Answered), Done(r.snapshot, if r.stage.Accepted? then Saved(r.stage.version) else Failed), start, content);
  }

  lemma ArrivesConsistent(e: Editor, start: nat, content: string)
    requires Consistent(e, start, content) && Enabled(e, Arrives)
    ensures Consistent(Next(e, Arrives), start, content)
  {
    ServerGrows(start, content, e.done, e.server, Version(e.inFlight.value.expected, e.inFlight.value.snapshot));
  }

  lemma NextConsistent(e: Editor, ev: Event, start: nat, content: string)
    requires Consistent(e, start, content) && Enabled(e, ev)
    ensures Consistent(Next(e, ev), start, content)
  {
    match ev
    case Begin =>
      BeginConsistent(e, start, content);
    case Answered =>
      AnsweredConsistent(e, start, content);
    case Lost =>
      DoneConsistent(e, Next(e, ev), Done(e.inFlight.value.snapshot, Failed), start, content);
    case Arrives =>
      ArrivesConsistent(e, start, content);
    case OtherWriter(text) =>
      ServerGrows(start, content, e.done, e.server, Version(|e.server| - 1, text));
    case _ =>
  }

  lemma DoneConsistent(e: Editor, e': Editor, d: Done, start: nat, content: string)
    requires Consistent(e, start, content)
    requires e'.server == e.server && e'.done == e.done + [d] && e'.inFlight.None?
    requires match d.outcome
             case Skipped => d.snapshot == e.savedContent
             case Saved(v) => d.snapshot != e.savedContent && v < |e.server| && e.server[v] == Version(e.version, d.snapshot)
             case Failed => d.snapshot != e.savedContent
    requires (e'.version, e'.savedContent) == if d.outcome.Saved? then (d.outcome.version, d.snapshot) else (e.version, e.savedContent)
    ensures Consistent(e', start, content)
  {
    DoneExtends(start, content, e.done, d, e.server);
  }

  // ---- Runs ----------------------------------------------------------------

  datatype Trace = Trace(states: seq<Editor>, events: seq<Event>)

  ghost predicate StepAt(t: Trace, k: nat)
    requires k < |t.events| && k + 1 < |t.states|
  {
    Enabled(t.states[k], t.events[k]) && t.states[k + 1] == Next(t.states[k], t.events[k])
  }

  ghost predicate IsRun(t: Trace) {
    && |t.states| == |t.events| + 1 && Loaded(t.states[0])
    && forall k :: 0 <= k < |t.events| ==> StepAt(t, k)
  }

  const JUST_LOADED := Editor("", "", 0, None, 0, [], None, false, [Version(-1, "")], [], [], [])

  /** Every run from a freshly loaded file. */
  type Run = t: Trace | IsRun(t) ghost witness Trace([JUST_LOADED], [])

  lemma {:induction false} RunNothingLost(t: Run, k: nat)
    requires k < |t.states|
    ensures NothingLost(t.states[k]) && FlagIsRight(t.states[k])
  {
    if k != 0 {
      RunNothingLost(t, k - 1);
      assert StepAt(t, k - 1);
      NextNothingLost(t.states[k - 1], t.events[k - 1]);
      NextFlagIsRight(t.states[k - 1], t.events[k - 1]);
    }
  }

  lemma {:induction false} RunInOrder(t: Run, k: nat)
    requires k < |t.states|
    ensures InOrder(t.states[k])
  {
    if k != 0 {
      RunInOrder(t, k - 1);
      assert StepAt(t, k - 1);
      NextInOrder(t.states[k - 1], t.events[k - 1]);
    }
  }

  lemma {:induction false} RunConsistent(t: Run, k: nat)
    requires k < |t.states|
    ensures Consistent(t.states[k], t.states[0].version, t.states[0].savedContent)
  {
    if k != 0 {
      RunConsistent(t, k - 1);
      assert StepAt(t, k - 1);
      NextConsistent(t.states[k - 1], t.events[k - 1], t.states[0].version, t.states[0].savedContent);
    }
  }

  lemma RunInvariants(t: Run, k: nat)
    requires k < |t.states|
    ensures NothingLost(t.states[k]) && FlagIsRight(t.states[k]) && InOrder(t.states[k])
    ensures Consistent(t.states[k], t.states[0].version, t.states[0].savedContent)
  {
    RunNothingLost(t, k);
    RunInOrder(t, k);
    RunConsistent(t, k);
  }

  /** In every reachable state, text that differs from the saved content has a timer pending, a save queued, or the
      most recently finished save failed; and the counter equals the number of unfinished operations. */
  lemma NoLostEdit(t: Run, k: nat)
    requires k < |t.states|
    ensures t.states[k].text != t.states[k].savedContent ==>
              || t.states[k].timer == Some(t.states[k].text) || t.states[k].queuedSaves > 0
              || (t.states[k].done != [] && t.states[k].done[|t.states[k].done| - 1].outcome == Failed)
    ensures t.states[k].queuedSaves == |t.states[k].queue| + |Flight(t.states[k])|
  {
    RunInvariants(t, k);
  }

  /** An edit that brings back the saved text while nothing is being saved leaves nothing to do; every other edit sets the
      timer for the new text. Nothing is queued at once. */
  lemma EditSchedules(t: Run, k: nat)
    requires k < |t.events| && t.events[k].Edit?
    ensures t.states[k + 1].text == t.events[k].text && t.states[k + 1].asked == t.states[k].asked
    ensures if t.events[k].text == t.states[k].savedContent && |t.states[k].queue| + |Flight(t.states[k])| == 0
            then AtRest(t.states[k + 1]) else t.states[k + 1].timer == Some(t.events[k].text)
  {
    RunInvariants(t, k);
    assert StepAt(t, k);
    RestIsIdle(t.states[k + 1]);
  }

  /** A click queues the text, unless it is saved already and nothing is being saved; either way no timer is left. */
  lemma ClickQueues(t: Run, k: nat)
    requires k < |t.events| && t.events[k] == SaveClicked
    ensures t.states[k + 1].timer.None?
    ensures t.states[k + 1].asked == t.states[k].asked +
              if t.states[k].text == t.states[k].savedContent && |t.states[k].queue| + |Flight(t.states[k])| == 0
              then [] else [t.states[k].text]
  {
    RunInvariants(t, k);
    assert StepAt(t, k);
  }

  lemma {:induction false} PostedEmbeds(done: seq<Done>) returns (at: seq<nat>)
    ensures Embeds(Posted(done), Snapshots(done), at)
    decreases |done|
  {
    if done == [] {
      at := [];
    } else {
      var init, d := done[..|done| - 1], done[|done| - 1];
      at := PostedEmbeds(init);
      RecordsExtend(init, d);
      assert init + [d] == done;
      if d.outcome == Skipped {
        EmbedsLonger(Posted(init), Snapshots(init), at, d.snapshot);
      } else {
        EmbedsBoth(Posted(init), Snapshots(init), at, d.snapshot);
        at := at + [|init|];
      }
    }
  }

  /** Snapshots are posted in the order they were queued, one at a time, and exactly the no-ops are left out. */
  lemma SavesInOrder(t: Run, k: nat)
    requires k < |t.states|
    ensures IsSubsequence(t.states[k].sent, t.states[k].asked)
    ensures t.states[k].asked == Snapshots(t.states[k].done) + Flight(t.states[k]) + t.states[k].queue
    ensures forall j :: 0 <= j < |t.states[k].done| ==>
              (t.states[k].done[j].outcome == Skipped <==>
                 t.states[k].done[j].snapshot == Known(t.states[0].version, t.states[0].savedContent, t.states[k].done[..j]).1)
  {
    RunInvariants(t, k);
    var e := t.states[k];
    var at := PostedEmbeds(e.done);
    if e.inFlight.Some? {
      at := at + [|e.done|];
    }
    assert Embeds(e.sent, e.asked, at);
  }

  lemma {:induction false} KnownContent(e: Editor, start: nat, content: string, j: nat)
    requires Consistent(e, start, content) && j <= |e.done|
    ensures var known := Known(start, content, e.done[..j]);
            known.0 < |e.server| && e.server[known.0].content == known.1
  {
    if j != 0 {
      KnownContent(e, start, content, j - 1);
      assert e.done[..j][..j - 1] == e.done[..j - 1];
    }
  }

  /** Every accepted save directly follows, in the store's history, the version whose content the editor last knew:
      no other writer's version is ever overwritten unseen. */
  lemma AcceptedFollowsKnown(t: Run, k: nat, j: nat)
    requires k < |t.states| && j < |t.states[k].done| && t.states[k].done[j].outcome.Saved?
    ensures var e, v := t.states[k], t.states[k].done[j].outcome.version;
            var known := Known(t.states[0].version, t.states[0].savedContent, e.done[..j]);
            && 0 < v < |e.server| && known.0 == v - 1 == e.server[v].parent
            && e.server[v].content == e.done[j].snapshot && e.server[v - 1].content == known.1
  {
    RunInvariants(t, k);
    KnownContent(t.states[k], t.states[0].version, t.states[0].savedContent, j);
  }

  /** At rest after a success, what is on screen is what the store holds for the editor's version. */
  lemma AtRestAllIsSaved(t: Run, k: nat)
    requires k < |t.states|
    requires t.states[k].timer.None? && t.states[k].queuedSaves == 0
    requires t.states[k].done != [] ==> t.states[k].done[|t.states[k].done| - 1].outcome != Failed
    ensures t.states[k].version < |t.states[k].server|
    ensures t.states[k].text == t.states[k].savedContent == t.states[k].server[t.states[k].version].content
    ensures t.states[k].queue == [] && t.states[k].inFlight.None?
  {
    RunInvariants(t, k);
  }

  // ---- Overtaken editors ---------------------------------------------------

  /** The version the editor knows once the answer in flight, if it is an acceptance, has reached it. */
  function AboutToKnow(e: Editor): nat {
    if e.inFlight.Some? && e.inFlight.value.stage.Accepted? then e.inFlight.value.stage.version else e.version
  }

  /** The store holds a version newer than any the editor knows or is about to know. */
  predicate Overtaken(e: Editor) {
    AboutToKnow(e) < |e.server| - 1
  }

  lemma NextOvertaken(e: Editor, ev: Event, start: nat, content: string)
    requires Consistent(e, start, content) && Enabled(e, ev) && Overtaken(e)
    ensures Overtaken(Next(e, ev)) && AboutToKnow(Next(e, ev)) <= AboutToKnow(e)
    ensures ev == Arrives ==> Next(e, ev).server == e.server && Next(e, ev).inFlight.value.stage == Rejected
  {
    if e.inFlight.Some? && e.inFlight.value.stage.Accepted? {
      assert e.server[e.inFlight.value.stage.version].parent == e.inFlight.value.stage.version - 1;
    }
  }

  lemma StepOvertaken(t: Run, l: nat)
    requires l < |t.events| && Overtaken(t.states[l])
    ensures Overtaken(t.states[l + 1]) && AboutToKnow(t.states[l + 1]) <= AboutToKnow(t.states[l])
    ensures t.events[l] == Arrives ==> RejectedAt(t, l)
  {
    RunInvariants(t, l);
    assert StepAt(t, l);
    NextOvertaken(t.states[l], t.events[l], t.states[0].version, t.states[0].savedContent);
  }

  /** The store turns down the request of step `l` and stays as it is. */
  predicate RejectedAt(t: Trace, l: nat)
    requires l + 1 < |t.states|
  {
    && t.states[l + 1].server == t.states[l].server
    && t.states[l + 1].inFlight.Some? && t.states[l + 1].inFlight.value.stage == Rejected
  }

  /** Once overtaken, by another writer or by its own accepted save whose response was lost, the editor stays overtaken,
      whatever happens, and the store accepts none of its later saves. */
  lemma {:induction false} OvertakenForGood(t: Run, k: nat, l: nat)
    requires k <= l < |t.states| && Overtaken(t.states[k])
    ensures Overtaken(t.states[l]) && AboutToKnow(t.states[l]) <= AboutToKnow(t.states[k])
    ensures l < |t.events| && t.events[l] == Arrives ==> RejectedAt(t, l)
  {
    if k < l {
      OvertakenForGood(t, k, l - 1);
      StepOvertaken(t, l - 1);
    }
    if l < |t.events| {
      StepOvertaken(t, l);
    }
  }

  // ---- Saving everything ---------------------------------------------------

  /** Nothing is left to do, and what is on screen is the newest version in the store. */
  predicate Settled(e: Editor) {
    && e.queue == [] && e.inFlight.None? && e.queuedSaves == 0
    && e.server != [] && e.version == |e.server| - 1
    && e.text == e.savedContent == e.server[|e.server| - 1].content
  }

  /** What happens by itself when nobody types or clicks, nothing is lost and nobody else writes. */
  predicate Undisturbed(ev: Event) {
    ev == TimerFires || ev == Begin || ev == Arrives || ev == Answered
  }

  /** `evs` is a possible continuation from `e`, undisturbed throughout, and ends in `last`. */
  ghost predicate Continues(e: Editor, evs: seq<Event>, last: Editor)
    decreases |evs|
  {
    if evs == [] then last == e
    else Undisturbed(evs[0]) && Enabled(e, evs[0]) && Continues(Next(e, evs[0]), evs[1..], last)
  }

  ghost predicate CanSettle(e: Editor) {
    exists evs, last :: Continues(e, evs, last) && Settled(last)
  }

  /** Unsaved text that nothing is going to save: the last attempt failed and no other is queued or timed. */
  predicate Stranded(e: Editor) {
    && e.text != e.savedContent && e.timer.None? && e.queue == []
    && (e.inFlight.Some? ==> e.inFlight.value.stage == Rejected)
  }

  /** The facts about reachable states that the continuation rests on. */
  ghost predicate Sound(e: Editor, start: nat, content: string) {
    NothingLost(e) && Consistent(e, start, content)
  }

  lemma NextSound(e: Editor, ev: Event, start: nat, content: string)
    requires Sound(e, start, content) && Enabled(e, ev)
    ensures Sound(Next(e, ev), start, content)
  {
    NextNothingLost(e, ev);
    NextConsistent(e, ev, start, content);
  }

  lemma SettlesAfter(e: Editor, ev: Event)
    requires Undisturbed(ev) && Enabled(e, ev) && CanSettle(Next(e, ev))
    ensures CanSettle(e)
  {
    var evs, last :| Continues(Next(e, ev), evs, last) && Settled(last);
    assert ([ev] + evs)[1..] == evs;
    assert Continues(e, [ev] + evs, last);
  }

  lemma SettledCanSettle(e: Editor)
    requires Settled(e)
    ensures CanSettle(e)
  {
    assert Continues(e, [], e);
  }

  /** Each undisturbed step of an editor that is neither overtaken nor stranded leads to another such editor. */
  lemma StepStaysWell(e: Editor, ev: Event, start: nat, content: string)
    requires Sound(e, start, content) && !Overtaken(e) && !Stranded(e) && Undisturbed(ev) && Enabled(e, ev)
    ensures !Overtaken(Next(e, ev)) && !Stranded(Next(e, ev))
  {}

  /** How far the request in flight is from being finished. */
  function Remaining(e: Editor): nat {
    if e.inFlight.None? then 0 else if e.inFlight.value.stage == Sent then 2 else 1
  }

  /** Idle with unsaved text: the timer saves it. */
  lemma TimerSettles(e: Editor, start: nat, content: string)
    requires Sound(e, start, content) && !Overtaken(e) && !Stranded(e)
    requires e.inFlight.None? && e.queue == [] && e.text != e.savedContent
    ensures CanSettle(e)
  {
    var queued := Next(e, TimerFires);
    var begun := Next(queued, Begin);
    var accepted := Next(begun, Arrives);
    SettledCanSettle(Next(accepted, Answered));
    SettlesAfter(accepted, Answered);
    SettlesAfter(begun, Arrives);
    SettlesAfter(queued, Begin);
    SettlesAfter(e, TimerFires);
  }

  /** The request in flight is answered, the queue is worked off, and the timer saves what was typed meanwhile. */
  lemma {:induction false} Settles(e: Editor, start: nat, content: string)
    requires Sound(e, start, content) && !Overtaken(e) && !Stranded(e)
    ensures CanSettle(e)
    decreases |e.queue|, Remaining(e)
  {
    if e.inFlight.None? && e.queue == [] {
      if e.text == e.savedContent {
        SettledCanSettle(e);
      } else {
        TimerSettles(e, start, content);
      }
    } else {
      var ev := if e.inFlight.None? then Begin else if e.inFlight.value.stage == Sent then Arrives else Answered;
      NextSound(e, ev, start, content);
      StepStaysWell(e, ev, start, content);
      Settles(Next(e, ev), start, content);
      SettlesAfter(e, ev);
    }
  }

  lemma {:induction false} NeverSettles(e: Editor, evs: seq<Event>, last: Editor, start: nat, content: string)
    requires Sound(e, start, content) && (Overtaken(e) || Stranded(e)) && Continues(e, evs, last)
    ensures !Settled(last)
    decreases |evs|
  {
    if evs != [] {
      NextSound(e, evs[0], start, content);
      if Overtaken(e) {
        NextOvertaken(e, evs[0], start, content);
      }
      NeverSettles(Next(e, evs[0]), evs[1..], last, start, content);
    }
  }

  /** No undisturbed step is left. */
  ghost predicate AtRest(e: Editor) {
    forall ev :: Undisturbed(ev) ==> !Enabled(e, ev)
  }

  lemma RestIsIdle(e: Editor)
    ensures AtRest(e) <==> e.timer.None? && e.inFlight.None? && e.queue == []
  {
    if AtRest(e) {
      assert !Enabled(e, TimerFires) && !Enabled(e, Begin) && !Enabled(e, Arrives) && !Enabled(e, Answered);
    }
  }

  /** The last snapshot on its way to the store: the end of the queue or the request in flight. */
  function LastPending(e: Editor): Option<string> {
    if e.queue != [] then Some(e.queue[|e.queue| - 1])
    else if e.inFlight.Some? then Some(e.inFlight.value.snapshot)
    else None
  }

  /** A bound on the undisturbed steps still to come: three for every queued operation, those of the request in flight, and
      what the timer, or setting it once more, will cause. */
  function Effort(e: Editor): nat {
    3 * |e.queue| + Remaining(e)
      + (if e.timer.Some? then 4 else if LastPending(e).Some? && LastPending(e).value != e.text then 5 else 0)
  }

  lemma StepCostsEffort(e: Editor, ev: Event)
    requires NothingLost(e) && Undisturbed(ev) && Enabled(e, ev)
    ensures Effort(Next(e, ev)) < Effort(e)
  {}

  /** Undisturbed, the editor comes to rest within its effort. */
  lemma {:induction false} RestIsNear(e: Editor, evs: seq<Event>, last: Editor)
    requires NothingLost(e) && Continues(e, evs, last)
    ensures |evs| + Effort(last) <= Effort(e)
    decreases |evs|
  {
    if evs != [] {
      NextNothingLost(e, evs[0]);
      StepCostsEffort(e, evs[0]);
      RestIsNear(Next(e, evs[0]), evs[1..], last);
    }
  }

  lemma {:induction false} ComesToRest(e: Editor) returns (evs: seq<Event>, last: Editor)
    requires NothingLost(e)
    ensures Continues(e, evs, last) && AtRest(last)
    decreases Effort(e)
  {
    RestIsIdle(e);
    if AtRest(e) {
      evs, last := [], e;
    } else {
      var ev :| Undisturbed(ev) && Enabled(e, ev);
      NextNothingLost(e, ev);
      StepCostsEffort(e, ev);
      var rest;
      rest, last := ComesToRest(Next(e, ev));
      evs := [ev] + rest;
      assert evs[1..] == rest;
    }
  }

  lemma {:induction false} RestIsSettled(e: Editor, evs: seq<Event>, last: Editor, start: nat, content: string)
    requires Sound(e, start, content) && !Overtaken(e) && !Stranded(e) && Continues(e, evs, last) && AtRest(last)
    ensures Settled(last)
    decreases |evs|
  {
    if evs == [] {
      RestIsIdle(e);
    } else {
      NextSound(e, evs[0], start, content);
      StepStaysWell(e, evs[0], start, content);
      RestIsSettled(Next(e, evs[0]), evs[1..], last, start, content);
    }
  }

  /** Every undisturbed continuation that has come to rest has settled. */
  ghost predicate MustSettle(e: Editor) {
    forall evs, last :: Continues(e, evs, last) && AtRest(last) ==> Settled(last)
  }

  /** From any state of any run, left undisturbed, the editor ends with its text as the newest stored version, in whatever
      order things happen and within its effort, exactly when it has not been overtaken and is not stranded after a failure;
      otherwise it never does. */
  lemma SettlesIff(t: Run, k: nat)
    requires k < |t.states|
    ensures CanSettle(t.states[k]) <==> !Overtaken(t.states[k]) && !Stranded(t.states[k])
    ensures MustSettle(t.states[k]) <==> !Overtaken(t.states[k]) && !Stranded(t.states[k])
    ensures forall evs, last :: Continues(t.states[k], evs, last) ==> |evs| <= Effort(t.states[k])
  {
    var e, start, content := t.states[k], t.states[0].version, t.states[0].savedContent;
    RunInvariants(t, k);
    forall evs, last | Continues(e, evs, last) ensures |evs| <= Effort(e) {
      RestIsNear(e, evs, last);
    }
    SoundSettlesIff(e, start, content);
  }

  lemma SoundSettlesIff(e: Editor, start: nat, content: string)
    requires Sound(e, start, content)
    ensures CanSettle(e) <==> !Overtaken(e) && !Stranded(e)
    ensures MustSettle(e) <==> !Overtaken(e) && !Stranded(e)
  {
    if !Overtaken(e) && !Stranded(e) {
      Settles(e, start, content);
      forall evs, last | Continues(e, evs, last) && AtRest(last) ensures Settled(last) {
        RestIsSettled(e, evs, last, start, content);
      }
    } else {
      forall evs, last | Continues(e, evs, last) ensures !Settled(last) {
        NeverSettles(e, evs, last, start, content);
      }
      var evs, last := ComesToRest(e);
    }
  }

  /** An editor that has not been overtaken, stranded or not, settles after one click on save. */
  lemma OneClickSettles(t: Run, k: nat)
    requires k < |t.states| && !Overtaken(t.states[k])
    ensures CanSettle(Next(t.states[k], SaveClicked)) && MustSettle(Next(t.states[k], SaveClicked))
  {
    var e, start, content := t.states[k], t.states[0].version, t.states[0].savedContent;
    RunInvariants(t, k);
    NextSound(e, SaveClicked, start, content);
    SoundSettlesIff(Next(e, SaveClicked), start, content);
  }

  // ---- Editors that fail ---------------------------------------------------

  lemma Extend(t: Run, ev: Event) returns (t': Run)
    requires Enabled(t.states[|t.states| - 1], ev)
    ensures t' == Trace(t.states + [Next(t.states[|t.states| - 1], ev)], t.events + [ev])
  {
    var u := Trace(t.states + [Next(t.states[|t.states| - 1], ev)], t.events + [ev]);
    forall k | 0 <= k < |u.events| ensures StepAt(u, k) {
      if k < |t.events| {
        assert StepAt(t, k);
      }
    }
    t' := u;
  }

  /** An edit that has been posted. */
  lemma RunToPosted() returns (t: Run)
    ensures t.states[|t.states| - 1] ==
              JUST_LOADED.(text := "a", queuedSaves := 1, inFlight := Some(Request("a", 0, Sent)), asked := ["a"], sent := ["a"])
  {
    t := Trace([JUST_LOADED], []);
    t := Extend(t, Edit("a"));
    t := Extend(t, TimerFires);
    t := Extend(t, Begin);
  }

  /** An accepted save whose answer is lost overtakes the editor that made it: nobody else wrote anything, and still none
      of its later saves can succeed. */
  lemma LostAnswerOvertakes() returns (t: Run)
    ensures var e := t.states[|t.states| - 1];
            && e.server == [Version(-1, ""), Version(0, "a")] && e.version == 0 && e.text == "a"
            && Overtaken(e) && !CanSettle(e) && !CanSettle(Next(e, SaveClicked))
  {
    t := RunToPosted();
    t := Extend(t, Arrives);
    t := Extend(t, Lost);
    SettlesIff(t, |t.states| - 1);
    var u := Extend(t, SaveClicked);
    OvertakenForGood(u, |t.states| - 1, |u.states| - 1);
    SettlesIff(u, |u.states| - 1);
  }

  /** A refused save strands its text until the next edit or click. */
  lemma RefusedSaveStrands() returns (t: Run)
    ensures var e := t.states[|t.states| - 1];
            Stranded(e) && !Overtaken(e) && !CanSettle(e) && CanSettle(Next(e, SaveClicked))
  {
    t := RunToPosted();
    t := Extend(t, Refused);
    t := Extend(t, Answered);
    SettlesIff(t, |t.states| - 1);
    OneClickSettles(t, |t.states| - 1);
  }
}
