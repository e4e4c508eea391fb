/** The resumable event stream of `internal/api/events_stream.go`: a cursor over an append-only log. */
module EventStream {
  import Decimal
  import Text
  import opened Iteration
  import opened Wrappers

  /** An event of the log; `encodable` says whether encoding it as JSON succeeds. */
  datatype Event = Event(id: int, data: string, encodable: bool)

  const BATCH := 50
  const FIRST_POLL := 250
  const FAST_POLL := 100
  const SLOWEST_POLL := 1000

  ghost predicate Ordered(log: seq<Event>) {
    forall i, j :: 0 <= i < j < |log| ==> log[i].id < log[j].id
  }

  /** How many events of an ordered log a cursor has passed. */
  function Seen(log: seq<Event>, cursor: int): (n: nat)
    ensures n <= |log|
  {
    if log == [] then 0
    else if log[|log| - 1].id <= cursor then |log|
    else Seen(log[..|log| - 1], cursor)
  }

  lemma {:induction false} SeenSplits(log: seq<Event>, cursor: int)
    requires Ordered(log)
    ensures forall i :: 0 <= i < Seen(log, cursor) ==> log[i].id <= cursor
    ensures forall i :: Seen(log, cursor) <= i < |log| ==> log[i].id > cursor
    decreases |log|
  {
    if log != [] {
      SeenSplits(log[..|log| - 1], cursor);
    }
  }

  lemma SeenIs(log: seq<Event>, cursor: int, n: nat)
    requires Ordered(log) && n <= |log|
    requires forall i :: 0 <= i < n ==> log[i].id <= cursor
    requires n < |log| ==> log[n].id > cursor
    ensures Seen(log, cursor) == n
  {
    SeenSplits(log, cursor);
  }

  /** What the store returns: the first events above the cursor in ascending order, at most `BATCH` of them. */
  function Batch(log: seq<Event>, cursor: int): seq<Event> {
    var p := Seen(log, cursor);
    log[p..if p + BATCH < |log| then p + BATCH else |log|]
  }

  function Encodable(events: seq<Event>): seq<Event> {
    if events == [] then []
    else
      var e := events[|events| - 1];
      Encodable(events[..|events| - 1]) + if e.encodable then [e] else []
  }

  lemma {:induction false} EncodableConcat(a: seq<Event>, b: seq<Event>)
    ensures Encodable(a + b) == Encodable(a) + Encodable(b)
    decreases |b|
  {
    if b == [] {
      assert a + b == a;
    } else {
      EncodableConcat(a, b[..|b| - 1]);
      assert (a + b)[..|a + b| - 1] == a + b[..|b| - 1];
    }
  }

  ghost predicate AllEncodable(events: seq<Event>) {
    forall i :: 0 <= i < |events| ==> events[i].encodable
  }

  lemma {:induction false} EncodableAll(events: seq<Event>)
    requires AllEncodable(events)
    ensures Encodable(events) == events
    decreases |events|
  {
    if events != [] {
      EncodableAll(events[..|events| - 1]);
      assert events == events[..|events| - 1] + [events[|events| - 1]];
    }
  }

  lemma {:induction false} EncodableAre(events: seq<Event>)
    ensures AllEncodable(Encodable(events))
    ensures Encodable(events) == [] <==> forall i :: 0 <= i < |events| ==> !events[i].encodable
    decreases |events|
  {
    if events != [] {
      var init, e := events[..|events| - 1], events[|events| - 1];
      EncodableAre(init);
      assert forall i :: 0 <= i < |init| ==> events[i] == init[i];
    }
  }

  /** The cursor after a batch: the greatest ID sent. */
  function Advanced(cursor: int, events: seq<Event>): int {
    if events == [] then cursor
    else
      var so, e := Advanced(cursor, events[..|events| - 1]), events[|events| - 1];
      if e.encodable && e.id > so then e.id else so
  }

  /** How many events there are up to and including the last one that can be sent. */
  function LastSent(events: seq<Event>): (r: nat)
    ensures r <= |events|
  {
    if events == [] then 0
    else if events[|events| - 1].encodable then |events|
    else LastSent(events[..|events| - 1])
  }

  lemma {:induction false} LastSentSplits(events: seq<Event>)
    ensures Encodable(events[..LastSent(events)]) == Encodable(events)
    ensures if LastSent(events) == 0 then Encodable(events) == []
            else events[LastSent(events) - 1].encodable && Encodable(events) != []
    ensures forall k :: LastSent(events) <= k < |events| ==> !events[k].encodable
    decreases |events|
  {
    if events != [] && !events[|events| - 1].encodable {
      var init := events[..|events| - 1];
      LastSentSplits(init);
      assert init[..LastSent(init)] == events[..LastSent(init)];
    } else {
      assert events[..|events|] == events;
    }
  }

  /** On a batch taken above the cursor, the cursor moves to the last event that was sent. */
  lemma {:induction false} AdvancedAt(cursor: int, events: seq<Event>)
    requires Ordered(events) && forall i :: 0 <= i < |events| ==> events[i].id > cursor
    ensures Advanced(cursor, events) == if LastSent(events) == 0 then cursor else events[LastSent(events) - 1].id
    decreases |events|
  {
    if events != [] {
      AdvancedAt(cursor, events[..|events| - 1]);
    }
  }

  // ---- Runs ----------------------------------------------------------------

  /** A stream opened at `start`: its log, its cursor, its poll interval and what it has sent. */
  datatype State = State(log: seq<Event>, start: int, cursor: int, interval: nat, out: seq<Event>)

  datatype Action = Append(e: Event) | Poll | PollFails | Heartbeat

  function BackedOff(interval: nat): nat {
    if 2 * interval > SLOWEST_POLL then SLOWEST_POLL else 2 * interval
  }

  predicate Enabled(s: State, a: Action) {
    a.Append? ==> s.log == [] || s.log[|s.log| - 1].id < a.e.id
  }

  function Next(s: State, a: Action): State {
    match a
    case Append(e) => s.(log := s.log + [e])
    case Poll =>
      var batch := Batch(s.log, s.cursor);
      if batch == [] then s.(interval := BackedOff(s.interval))
      else s.(interval := FAST_POLL, cursor := Advanced(s.cursor, batch), out := s.out + Encodable(batch))
    case PollFails => s.(interval := BackedOff(s.interval))
    case Heartbeat => s
  }

  /** The stream has sent exactly the encodable events between where it started and its cursor. */
  ghost predicate Inv(s: State) {
    && Ordered(s.log)
    && FAST_POLL <= s.interval <= SLOWEST_POLL
    && Reached(s.log, s.start, s.cursor)
    && s.out == Sent(s.log, s.start, s.cursor)
  }

  /** The cursor is at the start or at an event of the log beyond it, one that could be sent. */
  ghost predicate Reached(log: seq<Event>, start: int, cursor: int) {
    cursor == start || (start < cursor && exists i :: 0 <= i < |log| && log[i].id == cursor && log[i].encodable)
  }

  /** The encodable events after `start` up to `cursor`. */
  ghost function Sent(log: seq<Event>, start: int, cursor: int): seq<Event> {
    if Seen(log, start) <= Seen(log, cursor) then Encodable(log[Seen(log, start)..Seen(log, cursor)]) else []
  }

  lemma SentIs(log: seq<Event>, start: int, cursor: int, i: nat, j: nat)
    requires Ordered(log) && i <= j <= |log|
    requires forall k :: 0 <= k < i ==> log[k].id <= start
    requires i < |log| ==> log[i].id > start
    requires forall k :: 0 <= k < j ==> log[k].id <= cursor
    requires j < |log| ==> log[j].id > cursor
    ensures Sent(log, start, cursor) == Encodable(log[i..j])
  {
    SeenIs(log, start, i);
    SeenIs(log, cursor, j);
  }

  lemma SentNothing(log: seq<Event>, cursor: int)
    ensures Sent(log, cursor, cursor) == []
  {
    assert log[Seen(log, cursor)..Seen(log, cursor)] == [];
  }

  lemma SeenMonotone(log: seq<Event>, a: int, b: int)
    requires Ordered(log) && a <= b
    ensures Seen(log, a) <= Seen(log, b)
  {
    SeenSplits(log, a);
    SeenSplits(log, b);
  }

  lemma AppendKeepsInv(s: State, e: Event)
    requires Inv(s) && Enabled(s, Append(e))
    ensures Inv(Next(s, Append(e)))
  {
    var log' := s.log + [e];
    if s.cursor == s.start {
      SentNothing(s.log, s.start);
      SentNothing(log', s.start);
    } else {
      var i :| 0 <= i < |s.log| && s.log[i].id == s.cursor && s.log[i].encodable;
      assert log'[i] == s.log[i];
      GrownSent(s.log, log', s.start, s.cursor);
    }
  }

  lemma SeenGrown(log: seq<Event>, log': seq<Event>, cursor: int, at: nat)
    requires Ordered(log) && Ordered(log') && log <= log' && at < |log| && cursor <= log[at].id
    ensures Seen(log', cursor) == Seen(log, cursor)
  {
    SeenSplits(log, cursor);
    var p := Seen(log, cursor);
    assert forall k :: 0 <= k < |log| ==> log'[k] == log[k];
    assert p == |log| < |log'| ==> log'[at].id < log'[p].id;
    SeenIs(log', cursor, p);
  }

  /** Growing the log beyond the cursor changes nothing that was sent. */
  lemma GrownSent(log: seq<Event>, log': seq<Event>, start: int, cursor: int)
    requires Ordered(log) && Ordered(log') && log <= log' && start <= cursor
    requires exists i :: 0 <= i < |log| && log[i].id == cursor
    ensures Sent(log', start, cursor) == Sent(log, start, cursor)
  {
    var at :| 0 <= at < |log| && log[at].id == cursor;
    SeenGrown(log, log', start, at);
    SeenGrown(log, log', cursor, at);
    assert forall i, j :: 0 <= i <= j <= |log| ==> log'[i..j] == log[i..j];
  }

  lemma SentJoins(log: seq<Event>, a: int, b: int, c: int)
    requires Ordered(log) && a <= b <= c
    ensures Sent(log, a, b) + Sent(log, b, c) == Sent(log, a, c)
  {
    SeenMonotone(log, a, b);
    SeenMonotone(log, b, c);
    var i, j, k := Seen(log, a), Seen(log, b), Seen(log, c);
    EncodableConcat(log[i..j], log[j..k]);
    assert log[i..j] + log[j..k] == log[i..k];
  }

  lemma SeenAt(log: seq<Event>, n: nat)
    requires Ordered(log) && 0 < n <= |log|
    ensures Seen(log, log[n - 1].id) == n
  {
    SeenSplits(log, log[n - 1].id);
  }

  /** `events` stands in the log from `p` on. */
  ghost predicate StandsAt(log: seq<Event>, p: nat, events: seq<Event>) {
    p + |events| <= |log| && forall i :: 0 <= i < |events| ==> events[i] == log[p + i]
  }

  lemma StretchSplits(log: seq<Event>, p: nat, events: seq<Event>)
    requires StandsAt(log, p, events)
    ensures Encodable(log[p..p + LastSent(events)]) == Encodable(events)
  {
    LastSentSplits(events);
    assert log[p..p + LastSent(events)] == events[..LastSent(events)];
  }

  lemma StretchAdvances(log: seq<Event>, cursor: int, events: seq<Event>)
    requires Ordered(log) && StandsAt(log, Seen(log, cursor), events)
    ensures var p, r := Seen(log, cursor), LastSent(events);
            && Seen(log, Advanced(cursor, events)) == p + r
            && if r == 0 then Advanced(cursor, events) == cursor else Advanced(cursor, events) == events[r - 1].id > cursor
  {
    SeenSplits(log, cursor);
    AdvancedAt(cursor, events);
    if LastSent(events) != 0 {
      SeenAt(log, Seen(log, cursor) + LastSent(events));
    }
  }

  lemma BatchStands(log: seq<Event>, cursor: int)
    ensures StandsAt(log, Seen(log, cursor), Batch(log, cursor))
  {}

  /** What a batch above the cursor does: sending it moves the cursor `r` events on, past all its encodable events. */
  lemma BatchAdvances(log: seq<Event>, cursor: int, batch: seq<Event>, p: nat, r: nat)
    requires Ordered(log) && batch == Batch(log, cursor) && p == Seen(log, cursor) && r == LastSent(batch)
    ensures StandsAt(log, p, batch) && Seen(log, Advanced(cursor, batch)) == p + r
    ensures r == 0 ==> Advanced(cursor, batch) == cursor
    ensures r != 0 ==> log[p + r - 1].encodable && Advanced(cursor, batch) == log[p + r - 1].id > cursor
  {
    BatchStands(log, cursor);
    LastIsEncodable(batch, r);
    StretchAdvances(log, cursor, batch);
  }

  lemma LastIsEncodable(events: seq<Event>, r: nat)
    requires r == LastSent(events)
    ensures r != 0 ==> events[r - 1].encodable
  {
    LastSentSplits(events);
  }

  lemma BatchSends(log: seq<Event>, cursor: int, batch: seq<Event>, p: nat, r: nat)
    requires batch == Batch(log, cursor) && p == Seen(log, cursor) && r == LastSent(batch)
    ensures p + r <= |log| && Encodable(log[p..p + r]) == Encodable(batch)
    ensures r == 0 <==> Encodable(batch) == []
  {
    BatchStands(log, cursor);
    LastSentSplits(batch);
    StretchSplits(log, p, batch);
  }

  lemma PollSends(s: State, batch: seq<Event>)
    requires Inv(s) && batch == Batch(s.log, s.cursor)
    ensures s.start <= s.cursor <= Advanced(s.cursor, batch)
    ensures Reached(s.log, s.start, Advanced(s.cursor, batch))
    ensures Sent(s.log, s.cursor, Advanced(s.cursor, batch)) == Encodable(batch)
  {
    BatchAdvances(s.log, s.cursor, batch, Seen(s.log, s.cursor), LastSent(batch));
    BatchSends(s.log, s.cursor, batch, Seen(s.log, s.cursor), LastSent(batch));
  }

  lemma PollKeepsInv(s: State)
    requires Inv(s)
    ensures Inv(Next(s, Poll))
  {
    var batch := Batch(s.log, s.cursor);
    if batch != [] {
      PollSends(s, batch);
      SentJoins(s.log, s.start, s.cursor, Advanced(s.cursor, batch));
    }
  }

  lemma NextKeepsInv(s: State, a: Action)
    requires Inv(s) && Enabled(s, a)
    ensures Inv(Next(s, a))
  {
    match a
    case Append(e) => AppendKeepsInv(s, e);
    case Poll => PollKeepsInv(s);
    case _ =>
  }

  datatype Trace = Trace(states: seq<State>, actions: seq<Action>)

  ghost predicate Opened(s: State) {
    Ordered(s.log) && s.cursor == s.start && s.out == [] && s.interval == FIRST_POLL
  }

  ghost predicate StepAt(t: Trace, k: nat)
    requires k < |t.actions| && k + 1 < |t.states|
  {
    Enabled(t.states[k], t.actions[k]) && t.states[k + 1] == Next(t.states[k], t.actions[k])
  }

  ghost predicate IsRun(t: Trace) {
    && |t.states| == |t.actions| + 1 && Opened(t.states[0])
    && forall k :: 0 <= k < |t.actions| ==> StepAt(t, k)
  }

  /** Every run of a stream interleaved with appends, failing polls and heartbeats. */
  type Run = t: Trace | IsRun(t) ghost witness Trace([State([], 0, 0, FIRST_POLL, [])], [])

  lemma {:induction false} RunInv(t: Run, k: nat)
    requires k < |t.states|
    ensures Inv(t.states[k]) && t.states[k].start == t.states[0].start
  {
    if k == 0 {
      SentNothing(t.states[0].log, t.states[0].start);
    } else {
      RunInv(t, k - 1);
      assert StepAt(t, k - 1);
      NextKeepsInv(t.states[k - 1], t.actions[k - 1]);
    }
  }

  /** What a stream has sent is a prefix of the encodable events after its start: no gap, no duplicate, no reordering.
      The poll interval stays between a tenth of a second and a second. */
  lemma SendsPrefix(t: Run, k: nat)
    requires k < |t.states|
    ensures t.states[k].out <= Encodable(t.states[k].log[Seen(t.states[k].log, t.states[0].start)..])
    ensures FAST_POLL <= t.states[k].interval <= SLOWEST_POLL
  {
    RunInv(t, k);
    var s := t.states[k];
    SeenMonotone(s.log, s.start, s.cursor);
    var p, q := Seen(s.log, s.start), Seen(s.log, s.cursor);
    assert s.log[p..q] + s.log[q..] == s.log[p..];
    EncodableConcat(s.log[p..q], s.log[q..]);
  }

  lemma {:induction false} EncodableIsShorter(events: seq<Event>)
    ensures |Encodable(events)| <= |events|
    decreases |events|
  {
    if events != [] {
      EncodableIsShorter(events[..|events| - 1]);
    }
  }

  lemma EncodableSplits(events: seq<Event>, r: nat)
    requires r <= |events|
    ensures Encodable(events) == Encodable(events[..r]) + Encodable(events[r..])
  {
    assert events == events[..r] + events[r..];
    EncodableConcat(events[..r], events[r..]);
  }

  /** A stretch that ends with an encodable event: what can be sent of it is a prefix of it only if all can. */
  lemma PrefixOnlyIfAll(events: seq<Event>, n: nat)
    requires n <= |events| && Encodable(events) == events[..n]
    requires events != [] ==> events[|events| - 1].encodable
    ensures n == |events|
  {
    if n < |events| {
      LastIsSent(events[n..]);
    }
    EncodableAre(events);
    EncodableAll(events[..n]);
    EncodableSplits(events, n);
  }

  lemma LastIsSent(events: seq<Event>)
    requires events != [] && events[|events| - 1].encodable
    ensures Encodable(events) != []
  {}

  lemma PrefixIffAll(log: seq<Event>, p: nat, q: nat)
    requires p <= q <= |log| && (p < q ==> log[q - 1].encodable)
    ensures Encodable(log[p..q]) <= log[p..] <==> forall i :: p <= i < q ==> log[i].encodable
  {
    var passed, n := log[p..q], |Encodable(log[p..q])|;
    EncodableIsShorter(passed);
    if Encodable(passed) <= log[p..] {
      assert Encodable(passed) == log[p..][..n] == passed[..n];
      PrefixOnlyIfAll(passed, n);
      EncodableAre(passed);
      assert passed == Encodable(passed);
      assert forall i :: p <= i < q ==> log[i] == passed[i - p];
    }
    if forall i :: p <= i < q ==> log[i].encodable {
      EncodableAll(passed);
    }
  }

  /** It is a prefix of the log itself after the start exactly when every event up to the cursor could be encoded. */
  lemma SendsLogPrefixIff(t: Run, k: nat)
    requires k < |t.states|
    ensures t.states[k].out <= t.states[k].log[Seen(t.states[k].log, t.states[0].start)..] <==>
              forall i :: Seen(t.states[k].log, t.states[0].start) <= i < Seen(t.states[k].log, t.states[k].cursor) ==>
                t.states[k].log[i].encodable
  {
    RunInv(t, k);
    var s := t.states[k];
    SeenMonotone(s.log, s.start, s.cursor);
    var p, q := Seen(s.log, s.start), Seen(s.log, s.cursor);
    if p < q {
      CursorIsEncodable(s);
    }
    PrefixIffAll(s.log, p, q);
  }

  lemma CursorIsEncodable(s: State)
    requires Inv(s) && Seen(s.log, s.start) < Seen(s.log, s.cursor)
    ensures s.log[Seen(s.log, s.cursor) - 1].encodable
  {
    var i :| 0 <= i < |s.log| && s.log[i].id == s.cursor && s.log[i].encodable;
    SeenAt(s.log, i + 1);
  }

  /** The `n`th event that can be sent of a stretch stands behind `r` events, of which just `n` can be sent. */
  lemma {:induction false} NthEncodable(events: seq<Event>, n: nat) returns (r: nat)
    requires 0 < n <= |Encodable(events)|
    ensures 0 < r <= |events| && events[r - 1] == Encodable(events)[n - 1]
    ensures Encodable(events[..r]) == Encodable(events)[..n]
    decreases |events|
  {
    var init := events[..|events| - 1];
    if n <= |Encodable(init)| {
      r := NthEncodable(init, n);
      assert events[..r] == init[..r];
      assert Encodable(events)[..n] == Encodable(init)[..n];
    } else {
      r := |events|;
      assert events[..r] == events;
    }
  }

  /** The first `n` events sent are all that could be sent up to the ID of the last of them. */
  lemma SentUpTo(s: State, n: nat)
    requires Inv(s) && 0 < n <= |s.out|
    ensures s.out[..n] == Sent(s.log, s.start, s.out[n - 1].id) && s.start < s.out[n - 1].id
    ensures exists i :: 0 <= i < |s.log| && s.log[i].id == s.out[n - 1].id
  {
    SeenMonotone(s.log, s.start, s.cursor);
    SeenSplits(s.log, s.start);
    var p, q := Seen(s.log, s.start), Seen(s.log, s.cursor);
    var r := NthEncodable(s.log[p..q], n);
    assert s.log[p..q][..r] == s.log[p..p + r];
    assert s.log[p + r - 1] == s.log[p..q][r - 1];
    SeenAt(s.log, p + r);
  }

  /** Where a client that has received the first `n` of the events sent opens its next stream. */
  function ResumesAt(s: State, n: nat): int
    requires n <= |s.out|
  {
    if n == 0 then s.start else s.out[n - 1].id
  }

  /** A client that has received only the first `n` events of a stream, wherever the connection broke, and reopens it at the
      last ID it has, on the same log grown further, gets the rest: what it received from both streams is exactly what lies
      between the first start and the second cursor. */
  lemma ReconnectContinues(t: Run, k: nat, n: nat, u: Run, l: nat)
    requires k < |t.states| && n <= |t.states[k].out| && l < |u.states|
    requires t.states[k].log <= u.states[l].log && u.states[0].start == ResumesAt(t.states[k], n)
    ensures t.states[k].out[..n] + u.states[l].out == Sent(u.states[l].log, t.states[0].start, u.states[l].cursor)
  {
    RunInv(t, k);
    RunInv(u, l);
    var a, b := t.states[k], u.states[l];
    if n != 0 {
      SentUpTo(a, n);
      GrownSent(a.log, b.log, a.start, b.start);
      SentJoins(b.log, a.start, b.start, b.cursor);
    }
  }

  /** A client that has received everything resumes at the cursor or, with nothing received, at the start. */
  lemma LastIdIsCursor(t: Run, k: nat)
    requires k < |t.states|
    ensures ResumesAt(t.states[k], |t.states[k].out|) == t.states[k].cursor
  {
    RunInv(t, k);
    var s := t.states[k];
    SeenMonotone(s.log, s.start, s.cursor);
    var p, q := Seen(s.log, s.start), Seen(s.log, s.cursor);
    if s.cursor != s.start {
      var i :| 0 <= i < |s.log| && s.log[i].id == s.cursor && s.log[i].encodable;
      SeenAt(s.log, i + 1);
      SeenSplits(s.log, s.start);
      assert s.log[p..q][q - p - 1] == s.log[i];
    } else {
      SentNothing(s.log, s.start);
    }
  }

  // ---- How often the stream polls ------------------------------------------

  /** Step `m` is a poll that finds events. */
  predicate Finds(t: Trace, m: nat)
    requires m < |t.actions| && m < |t.states|
  {
    t.actions[m].Poll? && Batch(t.states[m].log, t.states[m].cursor) != []
  }

  /** The polls from `j` on and before `k` that fail or find nothing. */
  function VainPolls(t: Trace, j: nat, k: nat): nat
    requires j <= k <= |t.actions| <= |t.states|
  {
    if j == k then 0
    else VainPolls(t, j, k - 1)
         + if t.actions[k - 1].PollFails? || (t.actions[k - 1].Poll? && !Finds(t, k - 1)) then 1 else 0
  }

  function Pow2(n: nat): nat {
    if n == 0 then 1 else 2 * Pow2(n - 1)
  }

  /** As long as no poll finds anything, the interval doubles with every poll in vain, up to a second; appends and heartbeats
      do not matter. */
  lemma {:induction false} BacksOff(t: Run, j: nat, k: nat)
    requires j <= k < |t.states| && forall m :: j <= m < k ==> !Finds(t, m)
    ensures var doubled := t.states[j].interval * Pow2(VainPolls(t, j, k));
            t.states[k].interval == if doubled < 1000 then doubled else 1000
  {
    RunInv(t, j);
    if j < k {
      BacksOff(t, j, k - 1);
      assert StepAt(t, k - 1) && !Finds(t, k - 1);
      var v, n := t.states[j].interval, VainPolls(t, j, k - 1);
      assert v * (2 * Pow2(n)) == 2 * (v * Pow2(n));
      assert Pow2(n + 1) == 2 * Pow2(n);
    }
  }

  /** A poll that finds events sets the interval to a tenth of a second; a stream opens with a quarter. */
  lemma SpeedsUp(t: Run, m: nat)
    requires m < |t.actions| && Finds(t, m)
    ensures t.states[m + 1].interval == 100 && t.states[0].interval == 250
  {
    assert StepAt(t, m);
  }

  // ---- Polling a stretch of events -----------------------------------------

  function FirstBatch(events: seq<Event>): seq<Event> {
    if |events| > BATCH then events[..BATCH] else events
  }

  /** What a poll of these pending events leaves pending. */
  function AfterPoll(events: seq<Event>): seq<Event> {
    events[LastSent(FirstBatch(events))..]
  }

  function AfterPolls(events: seq<Event>, n: nat): seq<Event> {
    Iterate(AfterPoll, events, n)
  }

  lemma AfterPollSplits(events: seq<Event>)
    ensures Encodable(events) == Encodable(FirstBatch(events)) + Encodable(AfterPoll(events))
  {
    var batch := FirstBatch(events);
    LastSentSplits(batch);
    assert batch[..LastSent(batch)] == events[..LastSent(batch)];
    EncodableSplits(events, LastSent(batch));
  }

  /** Fifty events in a row that cannot be encoded, with one behind them that can. */
  ghost predicate GapAt(events: seq<Event>, i: nat) {
    && i + BATCH <= |events|
    && (forall k :: i <= k < i + BATCH ==> !events[k].encodable)
    && (exists k :: i + BATCH <= k < |events| && events[k].encodable)
  }

  ghost predicate Gapped(events: seq<Event>) {
    exists i :: GapAt(events, i)
  }

  lemma SuffixGap(events: seq<Event>, r: nat, i: nat)
    requires r <= |events|
    ensures GapAt(events[r..], i) <==> GapAt(events, r + i)
  {
    var rest := events[r..];
    assert forall k :: 0 <= k < |rest| ==> rest[k] == events[r + k];
    if GapAt(events, r + i) {
      var k :| r + i + BATCH <= k < |events| && events[k].encodable;
      assert rest[k - r].encodable;
    }
  }

  /** A poll never gets into a gap, let alone across it. */
  lemma PollStopsAtGap(events: seq<Event>, i: nat)
    requires GapAt(events, i)
    ensures LastSent(FirstBatch(events)) <= i
  {
    LastSentSplits(FirstBatch(events));
  }

  lemma GapStays(events: seq<Event>, n: nat)
    requires Gapped(events)
    ensures Gapped(AfterPolls(events, n))
  {
    forall rest | Gapped(rest) ensures Gapped(AfterPoll(rest)) {
      var i :| GapAt(rest, i);
      var j := GapMoves(rest, i);
    }
    Invariant(AfterPoll, rest => Gapped(rest), events, n);
  }

  lemma GapIsUnsent(events: seq<Event>)
    requires Gapped(events)
    ensures Encodable(events) != []
  {
    EncodableAre(events);
  }

  lemma GapMoves(events: seq<Event>, i: nat) returns (j: nat)
    requires GapAt(events, i)
    ensures GapAt(AfterPoll(events), j)
  {
    PollStopsAtGap(events, i);
    j := i - LastSent(FirstBatch(events));
    SuffixGap(events, LastSent(FirstBatch(events)), j);
  }

  lemma UngappedStays(events: seq<Event>)
    requires !Gapped(events)
    ensures !Gapped(AfterPoll(events))
  {
    var r := LastSent(FirstBatch(events));
    forall i: nat ensures !GapAt(AfterPoll(events), i) {
      SuffixGap(events, r, i);
    }
  }

  /** Without a gap, a poll sends something as long as there is something to send. */
  lemma UngappedSends(events: seq<Event>)
    requires !Gapped(events) && Encodable(events) != []
    ensures Encodable(FirstBatch(events)) != []
  {
    var batch := FirstBatch(events);
    EncodableAre(events);
    EncodableAre(batch);
    assert forall k :: 0 <= k < |batch| ==> batch[k] == events[k];
    assert !GapAt(events, 0);
  }

  lemma UngappedShrinks(events: seq<Event>)
    requires !Gapped(events)
    ensures Encodable(AfterPoll(events)) == [] || |Encodable(AfterPoll(events))| < |Encodable(events)|
  {
    AfterPollSplits(events);
    if Encodable(events) != [] {
      UngappedSends(events);
    }
  }

  ghost predicate Ungapped(events: seq<Event>) {
    !Gapped(events)
  }

  function Unsent(events: seq<Event>): nat {
    |Encodable(events)|
  }

  /** What one poll does to pending events without a gap. */
  ghost predicate ShrinksOnPoll(events: seq<Event>) {
    Ungapped(events) ==> Ungapped(AfterPoll(events)) && (Unsent(AfterPoll(events)) == 0 || Unsent(AfterPoll(events)) + 1 <= Unsent(events))
  }

  lemma UngappedStep(events: seq<Event>)
    ensures ShrinksOnPoll(events)
  {
    if Ungapped(events) {
      UngappedStays(events);
      UngappedShrinks(events);
    }
  }

  lemma UngappedLowers(events: seq<Event>, n: nat)
    requires Ungapped(events) && forall rest :: ShrinksOnPoll(rest)
    ensures Unsent(AfterPolls(events, n)) == 0 || Unsent(AfterPolls(events, n)) + 1 * n <= Unsent(events)
  {
    forall rest | Ungapped(rest)
      ensures Ungapped(AfterPoll(rest)) && (Unsent(AfterPoll(rest)) == 0 || Unsent(AfterPoll(rest)) + 1 <= Unsent(rest))
    {
      assert ShrinksOnPoll(rest);
    }
    Lowers(AfterPoll, Ungapped, Unsent, 1, events, n);
  }

  lemma UngappedDrains(events: seq<Event>, n: nat)
    requires !Gapped(events) && |Encodable(events)| <= n
    ensures Encodable(AfterPolls(events, n)) == []
  {
    forall rest ensures ShrinksOnPoll(rest) {
      UngappedStep(rest);
    }
    UngappedLowers(events, n);
  }

  lemma FullBatchShrinks(events: seq<Event>)
    requires AllEncodable(events)
    ensures AllEncodable(AfterPoll(events)) && (AfterPoll(events) == [] || |AfterPoll(events)| + BATCH <= |events|)
  {}

  lemma FullBatchesLeaveNothing(events: seq<Event>, n: nat)
    requires AllEncodable(events) && |events| <= BATCH * n
    ensures AfterPolls(events, n) == []
  {
    forall rest | AllEncodable(rest)
      ensures AllEncodable(AfterPoll(rest)) && (AfterPoll(rest) == [] || |AfterPoll(rest)| + BATCH <= |rest|)
    {
      FullBatchShrinks(rest);
    }
    Lowers(AfterPoll, rest => AllEncodable(rest), rest => |rest|, BATCH, events, n);
  }

  // ---- Draining ------------------------------------------------------------

  function Pending(s: State): seq<Event> {
    s.log[Seen(s.log, s.cursor)..]
  }

  lemma BatchIsFirst(s: State)
    ensures Batch(s.log, s.cursor) == FirstBatch(Pending(s))
  {}

  lemma PollLeaves(s: State)
    requires Ordered(s.log)
    ensures Pending(Next(s, Poll)) == AfterPoll(Pending(s))
  {
    var batch, p := Batch(s.log, s.cursor), Seen(s.log, s.cursor);
    BatchAdvances(s.log, s.cursor, batch, p, LastSent(batch));
    BatchIsFirst(s);
    DropTwice(s.log, p, LastSent(batch));
  }

  /** A successful poll sends what can be sent of the next events, up to fifty, and leaves pending what lies behind the
      last of those. */
  lemma PollAdvances(s: State)
    requires Ordered(s.log)
    ensures Next(s, Poll).out == s.out + Encodable(FirstBatch(Pending(s)))
    ensures Pending(Next(s, Poll)) == AfterPoll(Pending(s))
  {
    PollLeaves(s);
    BatchIsFirst(s);
    if Batch(s.log, s.cursor) == [] {
      assert s.out + [] == s.out;
    }
  }

  lemma DropTwice(log: seq<Event>, p: nat, r: nat)
    requires p + r <= |log|
    ensures log[p..][r..] == log[p + r..]
  {}

  /** What has been sent and what can still be sent. */
  function Total(s: State): seq<Event> {
    s.out + Encodable(Pending(s))
  }

  /** Polling conserves the encodable events: each is either sent or still pending. */
  lemma PollConserves(s: State)
    requires Ordered(s.log)
    ensures Total(Next(s, Poll)) == Total(s)
  {
    PollAdvances(s);
    AfterPollSplits(Pending(s));
    Regroup(s.out, Encodable(FirstBatch(Pending(s))), Encodable(AfterPoll(Pending(s))));
  }

  lemma Regroup(a: seq<Event>, b: seq<Event>, c: seq<Event>)
    ensures (a + b) + c == a + (b + c)
  {}

  function PollOnce(s: State): State {
    Next(s, Poll)
  }

  function Polls(s: State, n: nat): State {
    Iterate(PollOnce, s, n)
  }

  lemma PollsLeave(s: State, n: nat)
    requires Ordered(s.log)
    ensures Pending(Polls(s, n)) == AfterPolls(Pending(s), n)
  {
    forall t: State | Ordered(t.log)
      ensures Ordered(PollOnce(t).log) && Pending(PollOnce(t)) == AfterPoll(Pending(t))
    {
      PollLeaves(t);
    }
    Simulates(PollOnce, AfterPoll, Pending, (t: State) => Ordered(t.log), s, n);
  }

  /** However often the stream polls, what it has sent and what is left together are what there was. */
  lemma PollsConserve(s: State, n: nat)
    requires Ordered(s.log)
    ensures Total(Polls(s, n)) == Total(s)
  {
    var inv := (t: State) => Ordered(t.log) && Total(t) == Total(s);
    forall t | inv(t) ensures inv(PollOnce(t)) {
      PollConserves(t);
    }
    Invariant(PollOnce, inv, s, n);
  }

  /** Unless there is a gap, as many polls as there are encodable events pending send all of them, in order. */
  lemma PollsDrain(s: State, n: nat)
    requires Ordered(s.log) && !Gapped(Pending(s)) && |Encodable(Pending(s))| <= n
    ensures Polls(s, n).out == s.out + Encodable(Pending(s))
  {
    PollsConserve(s, n);
    PollsLeave(s, n);
    UngappedDrains(Pending(s), n);
    assert Polls(s, n).out + [] == Polls(s, n).out;
  }

  /** Polling sends everything pending that can be encoded exactly when there is no gap. */
  lemma DrainsIff(s: State)
    requires Ordered(s.log)
    ensures (exists n :: Polls(s, n).out == s.out + Encodable(Pending(s))) <==> !Gapped(Pending(s))
  {
    if Gapped(Pending(s)) {
      forall n ensures Polls(s, n).out != s.out + Encodable(Pending(s)) {
        PollsConserve(s, n);
        PollsLeave(s, n);
        GapStays(Pending(s), n);
        GapIsUnsent(Pending(Polls(s, n)));
      }
    } else {
      PollsDrain(s, |Encodable(Pending(s))|);
    }
  }

  /** When everything pending can be encoded, full batches are sent: fifty events a poll. */
  lemma FullBatchesDrain(s: State, n: nat)
    requires Ordered(s.log) && AllEncodable(Pending(s)) && |Pending(s)| <= BATCH * n
    ensures Polls(s, n).out == s.out + Pending(s)
  {
    PollsConserve(s, n);
    PollsLeave(s, n);
    FullBatchesLeaveNothing(Pending(s), n);
    EncodableAll(Pending(s));
    assert Polls(s, n).out + [] == Polls(s, n).out;
  }

  // ---- Blocked streams -----------------------------------------------------

  /** A poll that finds events leaves the cursor where it was exactly when none of them can be encoded. */
  lemma StuckIff(s: State)
    requires Inv(s) && Batch(s.log, s.cursor) != []
    ensures Next(s, Poll).cursor == s.cursor <==> forall i :: 0 <= i < |Batch(s.log, s.cursor)| ==> !Batch(s.log, s.cursor)[i].encodable
  {
    var batch := Batch(s.log, s.cursor);
    EncodableAre(batch);
    BatchAdvances(s.log, s.cursor, batch, Seen(s.log, s.cursor), LastSent(batch));
    BatchSends(s.log, s.cursor, batch, Seen(s.log, s.cursor), LastSent(batch));
  }

  /** The next batch is full and none of it can be encoded. */
  ghost predicate Blocked(s: State) {
    |Batch(s.log, s.cursor)| == BATCH && forall i :: 0 <= i < BATCH ==> !Batch(s.log, s.cursor)[i].encodable
  }

  lemma SeenBefore(log: seq<Event>, e: Event, cursor: int)
    requires e.id > cursor
    ensures Seen(log + [e], cursor) == Seen(log, cursor)
  {
    assert (log + [e])[..|log|] == log;
  }

  lemma AppendKeepsBlocked(s: State, e: Event)
    requires Inv(s) && Enabled(s, Append(e)) && Blocked(s)
    ensures Batch(s.log + [e], s.cursor) == Batch(s.log, s.cursor)
  {
    SeenSplits(s.log, s.cursor);
    SeenBefore(s.log, e, s.cursor);
  }

  lemma NextKeepsBlocked(s: State, a: Action)
    requires Inv(s) && Enabled(s, a) && Blocked(s)
    ensures Blocked(Next(s, a)) && Next(s, a).cursor == s.cursor && Next(s, a).out == s.out
  {
    match a
    case Append(e) =>
      AppendKeepsBlocked(s, e);
    case Poll =>
      EncodableAre(Batch(s.log, s.cursor));
      StuckIff(s);
    case _ =>
  }

  /** Once blocked, a stream sends nothing more, whatever is appended. */
  lemma {:induction false} BlockedForGood(t: Run, k: nat, l: nat)
    requires k <= l < |t.states| && Blocked(t.states[k])
    ensures Blocked(t.states[l]) && t.states[l].cursor == t.states[k].cursor && t.states[l].out == t.states[k].out
  {
    if k < l {
      BlockedForGood(t, k, l - 1);
      RunInv(t, l - 1);
      assert StepAt(t, l - 1);
      NextKeepsBlocked(t.states[l - 1], t.actions[l - 1]);
    }
  }

  /** `actions` can follow on `s` and lead to `last`. */
  ghost predicate Continues(s: State, actions: seq<Action>, last: State)
    decreases |actions|
  {
    if actions == [] then last == s
    else Enabled(s, actions[0]) && Continues(Next(s, actions[0]), actions[1..], last)
  }

  ghost predicate CanAdvance(s: State) {
    exists actions, last :: Continues(s, actions, last) && last.cursor != s.cursor
  }

  lemma {:induction false} BlockedContinues(s: State, actions: seq<Action>, last: State)
    requires Inv(s) && Blocked(s) && Continues(s, actions, last)
    ensures last.cursor == s.cursor
    decreases |actions|
  {
    if actions != [] {
      NextKeepsInv(s, actions[0]);
      NextKeepsBlocked(s, actions[0]);
      BlockedContinues(Next(s, actions[0]), actions[1..], last);
    }
  }

  /** An event the store could append next, beyond the cursor. */
  function Fresh(s: State): Event {
    var last := if s.log == [] then s.cursor else s.log[|s.log| - 1].id;
    Event((if last > s.cursor then last else s.cursor) + 1, "", true)
  }

  lemma FreshIsPending(s: State)
    ensures Enabled(s, Append(Fresh(s)))
    ensures Pending(Next(s, Append(Fresh(s)))) == Pending(s) + [Fresh(s)]
  {
    SeenBefore(s.log, Fresh(s), s.cursor);
  }

  lemma PollMoves(s: State)
    requires Inv(s) && Encodable(Batch(s.log, s.cursor)) != []
    ensures Continues(s, [Poll], Next(s, Poll)) && Next(s, Poll).cursor != s.cursor
  {
    EncodableAre(Batch(s.log, s.cursor));
    StuckIff(s);
    assert [Poll][1..] == [];
  }

  lemma FreshIsSent(events: seq<Event>, e: Event)
    requires |FirstBatch(events)| < BATCH && e.encodable
    ensures Encodable(FirstBatch(events + [e])) != []
  {
    assert (events + [e])[..|events|] == events;
  }

  /** A batch that is not full takes in the next event, and a poll then gets past it. */
  lemma AppendedMoves(s: State)
    requires Inv(s) && |Batch(s.log, s.cursor)| < BATCH
    ensures CanAdvance(s)
  {
    var a := Append(Fresh(s));
    var s' := Next(s, a);
    FreshIsPending(s);
    AppendKeepsInv(s, Fresh(s));
    BatchIsFirst(s);
    BatchIsFirst(s');
    FreshIsSent(Pending(s), Fresh(s));
    PollMoves(s');
    assert [a, Poll][1..] == [Poll];
    assert Continues(s, [a, Poll], Next(s', Poll));
  }

  /** A stream can still advance exactly when it is not blocked. */
  lemma AdvancesIff(t: Run, k: nat)
    requires k < |t.states|
    ensures CanAdvance(t.states[k]) <==> !Blocked(t.states[k])
  {
    var s := t.states[k];
    RunInv(t, k);
    EncodableAre(Batch(s.log, s.cursor));
    if CanAdvance(s) && Blocked(s) {
      var actions, last :| Continues(s, actions, last) && last.cursor != s.cursor;
      BlockedContinues(s, actions, last);
    }
    if Encodable(Batch(s.log, s.cursor)) != [] {
      PollMoves(s);
    } else if |Batch(s.log, s.cursor)| < BATCH {
      AppendedMoves(s);
    }
  }

  function BadEvents(n: nat): (log: seq<Event>)
    ensures |log| == n && Ordered(log) && forall i :: 0 <= i < n ==> log[i].id == i + 1 && !log[i].encodable
  {
    seq(n, i => Event(i + 1, "", false))
  }

  lemma Extend(t: Run, a: Action) returns (t': Run)
    requires Enabled(t.states[|t.states| - 1], a)
    ensures t' == Trace(t.states + [Next(t.states[|t.states| - 1], a)], t.actions + [a])
  {
    var u := Trace(t.states + [Next(t.states[|t.states| - 1], a)], t.actions + [a]);
    forall k | 0 <= k < |u.actions| ensures StepAt(u, k) {
      if k < |t.actions| {
        assert StepAt(t, k);
      }
    }
    t' := u;
  }

  /** Fifty events that cannot be encoded hide the good one behind them for ever. */
  lemma FiftyBadEventsBlock() returns (t: Run)
    ensures |t.states| == 3 && t.actions == [Append(Event(51, "good", true)), Poll]
    ensures Blocked(t.states[0]) && t.states[2].out == [] && Event(51, "good", true) in t.states[2].log
  {
    var log := BadEvents(BATCH);
    SeenIs(log, 0, 0);
    assert log[0..BATCH] == log;
    EncodableAre(log);
    t := Trace([State(log, 0, 0, FIRST_POLL, [])], []);
    t := Extend(t, Append(Event(51, "good", true)));
    t := Extend(t, Poll);
    BlockedForGood(t, 0, 2);
    assert t.states[2].log[BATCH] == Event(51, "good", true);
  }

  // ---- The handler's loop body ----------------------------------------------

  /** A text that holds a number replaces the ID; any other leaves it. */
  function Override(text: string, id: int): int {
    match Decimal.ParseInt(Text.Trim(text))
    case None => id
    case Some(n) => n
  }

  /** The ID of `Last-Event-ID`, overridden by that of `since_id`, each when present and well formed. */
  function StartId(header: string, query: string): int {
    Override(query, Override(header, 0))
  }

  /** The ID a request names: that of `since_id` if its trimmed text is a number, else that of `Last-Event-ID`, else zero. */
  lemma StartIdIs(header: string, query: string, h: string, q: string)
    requires Text.IsTrimmed(header, h) && Text.IsTrimmed(query, q)
    ensures forall n :: Decimal.MIN_INT64 <= n <= Decimal.MAX_INT64 && Decimal.IsNumeral(q, n) ==> StartId(header, query) == n
    ensures (forall n :: Decimal.MIN_INT64 <= n <= Decimal.MAX_INT64 ==> !Decimal.IsNumeral(q, n)) ==>
              && (forall n :: Decimal.MIN_INT64 <= n <= Decimal.MAX_INT64 && Decimal.IsNumeral(h, n) ==> StartId(header, query) == n)
              && ((forall n :: Decimal.MIN_INT64 <= n <= Decimal.MAX_INT64 ==> !Decimal.IsNumeral(h, n)) ==> StartId(header, query) == 0)
  {
    Text.TrimIsTrimmed(header);
    Text.TrimmedOnce(header, h, Text.Trim(header));
    Text.TrimIsTrimmed(query);
    Text.TrimmedOnce(query, q, Text.Trim(query));
    forall n ensures Decimal.ParseInt(h) == Some(n) <==> Decimal.MIN_INT64 <= n <= Decimal.MAX_INT64 && Decimal.IsNumeral(h, n) {
      Decimal.ParseIntIff(h, n);
    }
    forall n ensures Decimal.ParseInt(q) == Some(n) <==> Decimal.MIN_INT64 <= n <= Decimal.MAX_INT64 && Decimal.IsNumeral(q, n) {
      Decimal.ParseIntIff(q, n);
    }
  }

  /** The `id` line of an event, sent back as `Last-Event-ID`, reopens the stream right after that event. */
  lemma ReconnectStartsAt(e: Event, header: string)
    requires Decimal.MIN_INT64 <= e.id <= Decimal.MAX_INT64 && header == Decimal.FormatInt(e.id)
    ensures StartId(header, "") == e.id
  {
    Decimal.TrimFormat(e.id);
    Decimal.ParseFormat(e.id);
  }

  datatype Listing = Failed | Listed(events: seq<Event>)

  class Stream {
    var lastId: int
    var pollInterval: nat
    var out: seq<Event>

    /** This stream, opened at `start`, over the log as it stands. */
    function View(log: seq<Event>, start: int): State
      reads this
    {
      State(log, start, lastId, pollInterval, out)
    }

    /** Opens the stream at the ID the request names. */
    constructor (header: string, query: string)
      ensures lastId == StartId(header, query)
      ensures forall log :: Ordered(log) ==> Opened(View(log, lastId))
    {
      var id := 0;
      if header != "" {
        var parsed := Decimal.ParseInt(Text.Trim(header));
        if parsed.Some? {
          id := parsed.value;
        }
      }
      if query != "" {
        var parsed := Decimal.ParseInt(Text.Trim(query));
        if parsed.Some? {
          id := parsed.value;
        }
      }
      lastId := id;
      pollInterval := FIRST_POLL;
      out := [];
    }

    /** One tick of the poll timer, given what the store answered. When the answer is the next batch of `log`, the
        tick is a polling step of the stream and keeps its invariant. */
    method Tick(answer: Listing, ghost log: seq<Event>, ghost start: int)
      modifies this
      ensures answer.Failed? || answer.events == [] ==>
                && pollInterval == (if 2 * old(pollInterval) < 1000 then 2 * old(pollInterval) else 1000)
                && lastId == old(lastId) && out == old(out)
      ensures answer.Listed? && answer.events != [] ==>
                && pollInterval == 100
                && lastId == Advanced(old(lastId), answer.events)
                && out == old(out) + Encodable(answer.events)
      ensures answer.Failed? ==> View(log, start) == Next(old(View(log, start)), PollFails)
      ensures answer == Listed(Batch(log, old(lastId))) ==> View(log, start) == Next(old(View(log, start)), Poll)
      ensures old(Inv(View(log, start))) && (answer.Failed? || answer == Listed(Batch(log, old(lastId)))) ==> Inv(View(log, start))
    {
      ghost var before := View(log, start);
      if Inv(before) {
        PollKeepsInv(before);
        NextKeepsInv(before, PollFails);
      }
      if answer.Failed? || |answer.events| == 0 {
        pollInterval := pollInterval * 2;
        if pollInterval > SLOWEST_POLL {
          pollInterval := SLOWEST_POLL;
        }
        return;
      }
      pollInterval := FAST_POLL;
      SendAll(answer.events);
    }

    /** Sends what can be encoded of these events, one after the other, and follows the greatest ID. */
    method SendAll(events: seq<Event>)
      modifies this`lastId, this`out
      ensures lastId == Advanced(old(lastId), events) && out == old(out) + Encodable(events)
    {
      var i := 0;
      while i < |events|
        invariant 0 <= i <= |events|
        invariant lastId == Advanced(old(lastId), events[..i])
        invariant out == old(out) + Encodable(events[..i])
      {
        assert events[..i + 1][..i] == events[..i];
        var e := events[i];
        i := i + 1;
        if !e.encodable {
          continue;
        }
        out := out + [e];
        if e.id > lastId {
          lastId := e.id;
        }
      }
      assert events[..|events|] == events;
    }
  }
}
