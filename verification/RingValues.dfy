/** Which values the lookups of a cache shard return: exactly when they are the ones last set. */
module RingValues {
  import opened CountMinSketch
  import opened RingState
  import opened RingRuns
  import opened Wrappers

  // ---- The latest values ---------------------------------------------------

  function Update(latest: map<Hash, seq<Byte>>, ev: Event): map<Hash, seq<Byte>> {
    match ev
    case Get(_, _, _) => latest
    case Set(h, _, val, _, _, _, result) =>
      if result == Stored then latest[h := val] else if result == CacheFull then latest - {h} else latest
    case Delete(h, _) => latest - {h}
  }

  /** The value each hash was last set to, and not deleted since. */
  function Latest(events: seq<Event>): map<Hash, seq<Byte>> {
    if events == [] then map[] else Update(Latest(events[..|events| - 1]), events[|events| - 1])
  }

  lemma LatestStep(events: seq<Event>, k: nat)
    requires 0 < k <= |events|
    ensures Latest(events[..k]) == Update(Latest(events[..k - 1]), events[k - 1])
  {
    assert events[..k][..k - 1] == events[..k - 1];
  }

  /** The event stored a value for `h`. */
  predicate Stores(ev: Event, h: Hash) {
    ev.Set? && ev.h == h && ev.result == Stored
  }

  /** The last of the first `k` events that stored a value for `h`, or -1. */
  function LastStore(events: seq<Event>, k: nat, h: Hash): (j: int)
    requires k <= |events|
    ensures -1 <= j < k && (j >= 0 ==> Stores(events[j], h))
  {
    if k == 0 then -1 else if Stores(events[k - 1], h) then k - 1 else LastStore(events, k - 1, h)
  }

  // ---- What a step writes --------------------------------------------------

  datatype Write = Nothing | Bytes(at: nat, bytes: seq<Byte>)

  /** The bytes an event puts into the ring: a new entry, a value in place, or nothing. */
  function WrittenBy(s: Shard, ev: Event, s': Shard): Write {
    if !ev.Set? || ev.result != Stored then Nothing
    else if FitsInPlace(s, ev.h, ev.val) then Bytes(s.entries[ev.h].ValueStart(), ev.val)
    else if ev.h in s'.entries then
      Bytes(s'.entries[ev.h].offset, EncodeHeader(NewHeader(ev.h, ev.key, ev.val, ev.ttl, ev.now)) + ev.key + ev.val)
    else Nothing
  }

  predicate Covers(w: Write, p: int) {
    w.Bytes? && w.at <= p < w.at + |w.bytes|
  }

  function ByteOf(w: Write, p: int): Byte
    requires Covers(w, p)
  {
    w.bytes[p - w.at]
  }

  /** `after` is `before` with the bytes of `w` in place. */
  ghost predicate Puts(before: seq<Byte>, w: Write, after: seq<Byte>) {
    && |after| == |before|
    && (forall p :: Covers(w, p) ==> p < |before|)
    && (forall p :: 0 <= p < |before| ==> after[p] == if Covers(w, p) then ByteOf(w, p) else before[p])
  }

  lemma OverwritePuts(ring: seq<Byte>, at: nat, bytes: seq<Byte>)
    requires at + |bytes| <= |ring|
    ensures Puts(ring, Bytes(at, bytes), Overwrite(ring, at, bytes))
  {}

  lemma InsertWrites(base: Shard, ev: Event, s': Shard)
    requires ev.Set? && InsertStep(base, ev.h, ev.key, ev.val, ev.ttl, ev.now, s', ev.result)
    ensures ev.result == CacheFull ==> s'.ring == base.ring
    ensures ev.result == Stored ==>
              && ev.h in s'.entries && s'.entries[ev.h].header == NewHeader(ev.h, ev.key, ev.val, ev.ttl, ev.now)
              && Puts(base.ring, Bytes(s'.entries[ev.h].offset, EncodeHeader(s'.entries[ev.h].header) + ev.key + ev.val), s'.ring)
  {
    var mid :| InsertVia(base, mid, ev.h, ev.key, ev.val, ev.ttl, ev.now, s', ev.result);
    if ev.result == Stored {
      OverwritePuts(mid.ring, s'.entries[ev.h].offset, EncodeHeader(s'.entries[ev.h].header) + ev.key + ev.val);
    }
  }

  /** Every step changes the ring by exactly the bytes it writes. */
  lemma StepWrites(cfg: Config, s: Shard, ev: Event, s': Shard)
    requires Accounted(s) && Step(cfg, s, ev, s')
    ensures Puts(s.ring, WrittenBy(s, ev, s'), s'.ring)
  {
    if ev.Set? {
      if Inserts(cfg, s, ev) {
        InsertWrites(Base(s, ev.h), ev, s');
      } else if FitsInPlace(s, ev.h, ev.val) && ev.result == Stored {
        OverwritePuts(s.ring, s.entries[ev.h].ValueStart(), ev.val);
      }
    }
  }

  /** The ring carries `val` from `lo` on. */
  ghost predicate Carries(ring: seq<Byte>, lo: nat, val: seq<Byte>) {
    lo + |val| <= |ring| && forall p :: lo <= p < lo + |val| ==> ring[p] == val[p - lo]
  }

  /** The write puts all of `val` from `lo` on. */
  ghost predicate Brings(w: Write, lo: nat, val: seq<Byte>) {
    forall p :: lo <= p < lo + |val| ==> Covers(w, p) && ByteOf(w, p) == val[p - lo]
  }

  /** Where the write overlaps the value, it puts the same bytes. */
  ghost predicate Agrees(w: Write, lo: nat, val: seq<Byte>) {
    forall p :: lo <= p < lo + |val| && Covers(w, p) ==> ByteOf(w, p) == val[p - lo]
  }

  /** The write touches none of these bytes. */
  ghost predicate Avoids(w: Write, lo: nat, len: nat) {
    forall p :: lo <= p < lo + len ==> !Covers(w, p)
  }

  lemma CarriesIsSlice(ring: seq<Byte>, lo: nat, val: seq<Byte>)
    requires lo + |val| <= |ring|
    ensures Carries(ring, lo, val) <==> ring[lo..lo + |val|] == val
  {
    var slice := ring[lo..lo + |val|];
    if slice == val {
      assert forall p :: lo <= p < lo + |val| ==> ring[p] == slice[p - lo];
    }
    if Carries(ring, lo, val) {
      assert forall i :: 0 <= i < |val| ==> slice[i] == ring[lo + i];
    }
  }

  lemma BringsCarries(before: seq<Byte>, w: Write, after: seq<Byte>, lo: nat, val: seq<Byte>)
    requires Puts(before, w, after) && Brings(w, lo, val) && lo + |val| <= |before|
    ensures Carries(after, lo, val)
  {}

  /** A write keeps a value exactly when it agrees with it where they overlap. */
  lemma CarriesOnIff(before: seq<Byte>, w: Write, after: seq<Byte>, lo: nat, val: seq<Byte>)
    requires Puts(before, w, after) && Carries(before, lo, val)
    ensures Carries(after, lo, val) <==> Agrees(w, lo, val)
  {}

  // ---- Where an entry lies -------------------------------------------------

  predicate SamePlace(a: Entry, b: Entry) {
    a.offset == b.offset && a.header.keyLen == b.header.keyLen && a.header.valLen == b.header.valLen
  }

  lemma InsertKeepsPlace(base: Shard, ev: Event, s': Shard, h: Hash)
    requires ev.Set? && InsertStep(base, ev.h, ev.key, ev.val, ev.ttl, ev.now, s', ev.result)
    requires ev.h !in base.entries && h in s'.entries && !Stores(ev, h)
    ensures h != ev.h && h in base.entries && SamePlace(base.entries[h], s'.entries[h])
  {
    var mid :| InsertVia(base, mid, ev.h, ev.key, ev.val, ev.ttl, ev.now, s', ev.result);
    assert h in mid.entries;
    assert Cleared(base.entries[h], mid.entries[h]);
  }

  /** An entry that a step did not store was there before, in the same place, and its latest value is the same. */
  lemma StepKeepsPlace(cfg: Config, s: Shard, ev: Event, s': Shard, h: Hash)
    requires Accounted(s) && Step(cfg, s, ev, s') && h in s'.entries && !Stores(ev, h)
    ensures h in s.entries && SamePlace(s.entries[h], s'.entries[h])
    ensures !(ev.Delete? && ev.h == h) && !(ev.Set? && ev.h == h && ev.result == CacheFull)
  {
    BaseAccounted(s, ev.h);
    if Inserts(cfg, s, ev) {
      InsertKeepsPlace(Base(s, ev.h), ev, s', h);
    }
  }

  /** A stored entry has room for its value, and the step writes that value there. */
  lemma StepStores(cfg: Config, s: Shard, ev: Event, s': Shard, h: Hash)
    requires Accounted(s) && Step(cfg, s, ev, s') && Stores(ev, h)
    ensures h in s'.entries && s'.entries[h].header.valLen == |ev.val|
    ensures Brings(WrittenBy(s, ev, s'), s'.entries[h].ValueStart(), ev.val)
  {
    if Inserts(cfg, s, ev) {
      InsertWrites(Base(s, ev.h), ev, s');
    }
  }

  // ---- Runs ----------------------------------------------------------------

  function WrittenAt(t: Trace, m: nat): Write
    requires m < |t.events| && m + 1 < |t.states|
  {
    WrittenBy(t.states[m], t.events[m], t.states[m + 1])
  }

  lemma RunWrites(t: Run, m: nat)
    requires m < |t.events|
    ensures Puts(t.states[m].ring, WrittenAt(t, m), t.states[m + 1].ring) && |t.states[m].ring| == t.size
  {
    RunAccounted(t, m);
    RunStep(t, m);
    StepWrites(t.cfg, t.states[m], t.events[m], t.states[m + 1]);
  }

  /** Since its last store every live entry has been live, in one place with room for that store's value. */
  lemma {:induction false} LiveSinceStore(t: Run, k: nat, h: Hash)
    requires k < |t.states| && h in t.states[k].entries
    ensures var j := LastStore(t.events, k, h);
            && j >= 0 && t.states[k].entries[h].header.valLen == |t.events[j].val|
            && forall m :: j < m <= k ==> h in t.states[m].entries && SamePlace(t.states[m].entries[h], t.states[k].entries[h])
  {
    if k > 0 {
      RunAccounted(t, k - 1);
      RunStep(t, k - 1);
      if Stores(t.events[k - 1], h) {
        StepStores(t.cfg, t.states[k - 1], t.events[k - 1], t.states[k], h);
      } else {
        StepKeepsPlace(t.cfg, t.states[k - 1], t.events[k - 1], t.states[k], h);
        LiveSinceStore(t, k - 1, h);
      }
    }
  }

  /** The latest value of a live entry is the one its last store set. */
  lemma {:induction false} LatestIsLastStored(t: Run, k: nat, h: Hash)
    requires k < |t.states| && h in t.states[k].entries
    ensures var j := LastStore(t.events, k, h);
            j >= 0 && h in Latest(t.events[..k]) && Latest(t.events[..k])[h] == t.events[j].val
  {
    if k > 0 {
      RunAccounted(t, k - 1);
      RunStep(t, k - 1);
      LatestStep(t.events, k);
      if !Stores(t.events[k - 1], h) {
        StepKeepsPlace(t.cfg, t.states[k - 1], t.events[k - 1], t.states[k], h);
        LatestIsLastStored(t, k - 1, h);
      }
    }
  }

  /** The last step from `j` on and before `k` that wrote byte `p`, or -1. */
  function LastCover(t: Run, j: nat, k: nat, p: int): (m: int)
    requires j <= k < |t.states|
    ensures m == -1 || (j <= m < k && Covers(WrittenAt(t, m), p))
  {
    if k == j then -1
    else if Covers(WrittenAt(t, k - 1), p) then k - 1
    else LastCover(t, j, k - 1, p)
  }

  /** A byte of the ring is what was last written there. */
  lemma {:induction false} ByteIsLastWritten(t: Run, j: nat, k: nat, p: nat)
    requires j < k < |t.states| && p < t.size && Covers(WrittenAt(t, j), p)
    ensures var m := LastCover(t, j, k, p);
            m >= 0 && |t.states[k].ring| == t.size && t.states[k].ring[p] == ByteOf(WrittenAt(t, m), p)
  {
    RunWrites(t, k - 1);
    if k - 1 > j {
      ByteIsLastWritten(t, j, k - 1, p);
    }
  }

  /** Every byte of the value that `h` was last set to has been written last with that value's byte. */
  ghost predicate BytesAreRight(t: Run, k: nat, h: Hash)
    requires k < |t.states| && h in t.states[k].entries && LastStore(t.events, k, h) >= 0
  {
    var j, lo := LastStore(t.events, k, h), t.states[k].entries[h].ValueStart();
    var val := t.events[j].val;
    forall p :: lo <= p < lo + |val| ==>
      LastCover(t, j, k, p) >= 0 && ByteOf(WrittenAt(t, LastCover(t, j, k, p)), p) == val[p - lo]
  }

  lemma ByteOfValue(t: Run, k: nat, h: Hash, p: nat)
    requires k < |t.states| && h in t.states[k].entries && LastStore(t.events, k, h) >= 0
    requires InRing(t.states[k], t.states[k].entries[h])
    requires var lo := t.states[k].entries[h].ValueStart(); lo <= p < lo + t.states[k].entries[h].header.valLen
    ensures var m := LastCover(t, LastStore(t.events, k, h), k, p);
            m >= 0 && t.states[k].ring[p] == ByteOf(WrittenAt(t, m), p)
  {
    var j := LastStore(t.events, k, h);
    LiveSinceStore(t, k, h);
    RunAccounted(t, j);
    RunAccounted(t, k);
    RunStep(t, j);
    StepStores(t.cfg, t.states[j], t.events[j], t.states[j + 1], h);
    assert SamePlace(t.states[j + 1].entries[h], t.states[k].entries[h]);
    ByteIsLastWritten(t, j, k, p);
  }

  lemma RightBytesIff(t: Run, k: nat, h: Hash, val: seq<Byte>)
    requires k < |t.states| && h in t.states[k].entries && LastStore(t.events, k, h) >= 0
    requires val == t.events[LastStore(t.events, k, h)].val && t.states[k].entries[h].header.valLen == |val|
    requires InRing(t.states[k], t.states[k].entries[h])
    ensures BytesAreRight(t, k, h) <==> Carries(t.states[k].ring, t.states[k].entries[h].ValueStart(), val)
  {
    var lo := t.states[k].entries[h].ValueStart();
    forall p | lo <= p < lo + |val|
      ensures var m := LastCover(t, LastStore(t.events, k, h), k, p);
              m >= 0 && t.states[k].ring[p] == ByteOf(WrittenAt(t, m), p)
    {
      ByteOfValue(t, k, h, p);
    }
  }

  /** In every state of every run, a live entry holds the value last set for its hash exactly when the last write to each of
      that value's bytes agrees with it, whatever was written elsewhere or in between. */
  lemma ValueIsLatestIff(t: Run, k: nat, h: Hash)
    requires k < |t.states| && h in t.states[k].entries
    ensures LastStore(t.events, k, h) >= 0 && h in Latest(t.events[..k]) && InRing(t.states[k], t.states[k].entries[h])
    ensures ValueOf(t.states[k], t.states[k].entries[h]) == Latest(t.events[..k])[h] <==> BytesAreRight(t, k, h)
  {
    LiveSinceStore(t, k, h);
    LatestIsLastStored(t, k, h);
    RunAccounted(t, k);
    var val := Latest(t.events[..k])[h];
    RightBytesIff(t, k, h, val);
    CarriesIsSlice(t.states[k].ring, t.states[k].entries[h].ValueStart(), val);
  }

  /** Whatever a lookup returns is the value last set for that hash exactly when the bytes of that value are right. */
  lemma LookupIsLatestIff(t: Run, k: nat)
    requires k < |t.events| && t.events[k].Get? && t.events[k].found.Some?
    ensures var h := t.events[k].h;
            && h in t.states[k].entries && h in Latest(t.events[..k]) && LastStore(t.events, k, h) >= 0
            && (t.events[k].found.value == Latest(t.events[..k])[h] <==> BytesAreRight(t, k, h))
  {
    RunStep(t, k);
    ValueIsLatestIff(t, k, t.events[k].h);
  }

  // ---- When a lookup finds something ---------------------------------------

  /** The event stored `h` and set its lifetime: it inserted the entry, or updated it with a lifetime of its own. */
  predicate Times(t: Trace, j: nat, h: Hash)
    requires j < |t.events| && j < |t.states|
  {
    Stores(t.events[j], h) && (t.events[j].ttlSet || Inserts(t.cfg, t.states[j], t.events[j]))
  }

  /** The last of the first `k` events that set the lifetime of `h`, or -1. */
  function LastTimed(t: Trace, k: nat, h: Hash): (j: int)
    requires k <= |t.events| <= |t.states|
    ensures -1 <= j < k && (j >= 0 ==> Times(t, j, h))
  {
    if k == 0 then -1 else if Times(t, k - 1, h) then k - 1 else LastTimed(t, k - 1, h)
  }

  predicate SameTiming(a: Entry, b: Entry) {
    a.header.ttl == b.header.ttl && a.header.createdAt == b.header.createdAt
  }

  lemma InsertTiming(base: Shard, ev: Event, s': Shard, h: Hash)
    requires ev.Set? && InsertStep(base, ev.h, ev.key, ev.val, ev.ttl, ev.now, s', ev.result)
    requires ev.h !in base.entries && h in s'.entries
    ensures if Stores(ev, h) then s'.entries[h].header.ttl == ev.ttl && s'.entries[h].header.createdAt == ev.now
            else h in base.entries && SameTiming(base.entries[h], s'.entries[h])
  {
    var mid :| InsertVia(base, mid, ev.h, ev.key, ev.val, ev.ttl, ev.now, s', ev.result);
    if !Stores(ev, h) {
      assert h in mid.entries && Cleared(base.entries[h], mid.entries[h]);
    }
  }

  lemma StepTiming(cfg: Config, s: Shard, ev: Event, s': Shard, h: Hash)
    requires Accounted(s) && Step(cfg, s, ev, s') && h in s'.entries
    ensures if Stores(ev, h) && (ev.ttlSet || Inserts(cfg, s, ev))
            then s'.entries[h].header.ttl == ev.ttl && s'.entries[h].header.createdAt == ev.now
            else h in s.entries && SameTiming(s.entries[h], s'.entries[h])
  {
    BaseAccounted(s, ev.h);
    if Inserts(cfg, s, ev) {
      InsertTiming(Base(s, ev.h), ev, s', h);
    }
  }

  /** A live entry carries the lifetime and the time of the event that last set them. */
  lemma {:induction false} TimedSince(t: Run, k: nat, h: Hash)
    requires k < |t.states| && h in t.states[k].entries
    ensures var j := LastTimed(t, k, h);
            j >= 0 && t.states[k].entries[h].header.ttl == t.events[j].ttl && t.states[k].entries[h].header.createdAt == t.events[j].now
  {
    if k > 0 {
      RunAccounted(t, k - 1);
      RunStep(t, k - 1);
      StepTiming(t.cfg, t.states[k - 1], t.events[k - 1], t.states[k], h);
      if !Times(t, k - 1, h) {
        TimedSince(t, k - 1, h);
      }
    }
  }

  /** In every run a lookup of a live entry finds it exactly when the lifetime it was last given is unlimited, or more seconds
      than have passed since then on the 32-bit clock; otherwise the entry is dropped. An entry that is not live is not found. */
  lemma LookupFoundIff(t: Run, k: nat)
    requires k < |t.events| && t.events[k].Get?
    ensures t.events[k].h !in t.states[k].entries ==> t.events[k].found.None?
    ensures t.events[k].h in t.states[k].entries ==>
              && LastTimed(t, k, t.events[k].h) >= 0
              && (t.events[k].found.Some? <==>
                    var given := t.events[LastTimed(t, k, t.events[k].h)];
                    given.ttl == 0 || (t.events[k].now - given.now) % 0x1_0000_0000 < given.ttl)
    ensures t.events[k].found.Some? <==> t.events[k].h in t.states[k + 1].entries
  {
    RunAccounted(t, k);
    RunStep(t, k);
    if t.events[k].h in t.states[k].entries {
      TimedSince(t, k, t.events[k].h);
    }
  }

  /** A stored value takes the place of the one last stored, and nothing else moves or goes, exactly when its entry is live and
      it is no longer than that one. */
  lemma InPlaceIff(t: Run, k: nat)
    requires k < |t.events| && t.events[k].Set? && t.events[k].result == Stored
    ensures var s, ev, s' := t.states[k], t.events[k], t.states[k + 1];
            && (ev.h in s.entries ==> LastStore(t.events, k, ev.h) >= 0)
            && (Inserts(t.cfg, s, ev) <==> ev.h in s.entries ==> |ev.val| > |t.events[LastStore(t.events, k, ev.h)].val|)
            && (!Inserts(t.cfg, s, ev) ==>
                  && s'.entries.Keys == s.entries.Keys && s'.head == s.head && s'.used == s.used
                  && ev.h in s'.entries && s'.entries[ev.h].offset == s.entries[ev.h].offset
                  && forall g :: g in s.entries && g != ev.h ==> s'.entries[g] == s.entries[g])
  {
    RunAccounted(t, k);
    RunStep(t, k);
    if t.events[k].h in t.states[k].entries {
      LiveSinceStore(t, k, t.events[k].h);
    }
  }

  /** What a set or delete reports: the key's size is checked before the value's, and a refusal for size changes nothing. */
  lemma OutcomesIff(t: Run, k: nat)
    requires k < |t.events|
    ensures t.events[k].Set? ==>
              var ev := t.events[k];
              && (ev.result == KeyTooLarge <==> |ev.key| > t.cfg.maxKeySize)
              && (ev.result == ValTooLarge <==> |ev.key| <= t.cfg.maxKeySize && |ev.val| > t.cfg.maxValSize)
              && (ev.result == KeyTooLarge || ev.result == ValTooLarge ==> t.states[k + 1] == t.states[k])
              && (ev.result == Stored ==> ev.h in t.states[k + 1].entries)
              && (ev.result == CacheFull ==> ev.h !in t.states[k + 1].entries)
    ensures t.events[k].Delete? ==>
              && (t.events[k].removed <==> t.events[k].h in t.states[k].entries)
              && t.states[k + 1].entries.Keys == t.states[k].entries.Keys - {t.events[k].h}
  {
    RunAccounted(t, k);
    RunStep(t, k);
    var s, ev, s' := t.states[k], t.events[k], t.states[k + 1];
    if ev.Set? && Inserts(t.cfg, s, ev) {
      BaseAccounted(s, ev.h);
      InsertOutcome(Base(s, ev.h), ev, s');
    }
  }

  lemma InsertOutcome(base: Shard, ev: Event, s': Shard)
    requires ev.Set? && ev.h !in base.entries && InsertStep(base, ev.h, ev.key, ev.val, ev.ttl, ev.now, s', ev.result)
    ensures (ev.result == Stored && ev.h in s'.entries) || (ev.result == CacheFull && ev.h !in s'.entries)
  {
    var mid :| InsertVia(base, mid, ev.h, ev.key, ev.val, ev.ttl, ev.now, s', ev.result);
  }

  /** An entry that has just been found is evicted next only if every entry that is not pinned has been visited too. */
  lemma FoundIsSpared(cfg: Config, s: Shard, h: Hash, now: Uint32, val: seq<Byte>, s': Shard, after: Shard)
    requires Step(cfg, s, Get(h, now, Some(val)), s') && EvictedOne(s', after, h)
    ensures forall g :: g in s'.entries ==> s'.entries[g].header.flags.pinned || s'.entries[g].header.flags.visited
    ensures forall g :: g in after.entries && !after.entries[g].header.flags.pinned ==> !after.entries[g].header.flags.visited
  {}

  // ---- Writes since the value was stored -----------------------------------

  /** The value that `h` was last set to before `k`, and the place where it lies. */
  ghost predicate Holding(t: Run, k: nat, h: Hash, m: nat)
    requires k < |t.states| && m <= k && h in t.states[k].entries && LastStore(t.events, k, h) >= 0
  {
    Carries(t.states[m].ring, t.states[k].entries[h].ValueStart(), t.events[LastStore(t.events, k, h)].val)
  }

  ghost predicate AgreesAt(t: Run, k: nat, h: Hash, m: nat)
    requires k < |t.states| && m < k && h in t.states[k].entries && LastStore(t.events, k, h) >= 0
  {
    Agrees(WrittenAt(t, m), t.states[k].entries[h].ValueStart(), t.events[LastStore(t.events, k, h)].val)
  }

  /** Right after a store the ring carries the value. */
  lemma StoredIsCarried(t: Run, j: nat, h: Hash)
    requires j < |t.events| && Stores(t.events[j], h)
    ensures h in t.states[j + 1].entries
    ensures Carries(t.states[j + 1].ring, t.states[j + 1].entries[h].ValueStart(), t.events[j].val)
  {
    RunAccounted(t, j);
    RunAccounted(t, j + 1);
    RunStep(t, j);
    StepStores(t.cfg, t.states[j], t.events[j], t.states[j + 1], h);
    RunWrites(t, j);
    BringsCarries(t.states[j].ring, WrittenAt(t, j), t.states[j + 1].ring, t.states[j + 1].entries[h].ValueStart(), t.events[j].val);
  }

  lemma HoldingAfterStore(t: Run, k: nat, h: Hash)
    requires k < |t.states| && h in t.states[k].entries && LastStore(t.events, k, h) >= 0
    ensures Holding(t, k, h, LastStore(t.events, k, h) + 1)
  {
    var j := LastStore(t.events, k, h);
    LiveSinceStore(t, k, h);
    StoredIsCarried(t, j, h);
    assert SamePlace(t.states[j + 1].entries[h], t.states[k].entries[h]);
    assert t.states[j + 1].entries[h].ValueStart() == t.states[k].entries[h].ValueStart();
  }

  lemma HoldingStepIff(t: Run, k: nat, h: Hash, m: nat)
    requires k < |t.states| && m < k && h in t.states[k].entries && LastStore(t.events, k, h) >= 0 && Holding(t, k, h, m)
    ensures Holding(t, k, h, m + 1) <==> AgreesAt(t, k, h, m)
  {
    RunWrites(t, m);
    CarriesOnIff(t.states[m].ring, WrittenAt(t, m), t.states[m + 1].ring, t.states[k].entries[h].ValueStart(),
                 t.events[LastStore(t.events, k, h)].val);
  }

  lemma {:induction false} HoldingWhileAgreeing(t: Run, k: nat, h: Hash, m: nat)
    requires k < |t.states| && h in t.states[k].entries && LastStore(t.events, k, h) >= 0
    requires LastStore(t.events, k, h) < m <= k
    requires forall n :: LastStore(t.events, k, h) < n < m ==> AgreesAt(t, k, h, n)
    ensures Holding(t, k, h, m)
  {
    if m == LastStore(t.events, k, h) + 1 {
      HoldingAfterStore(t, k, h);
    } else {
      HoldingWhileAgreeing(t, k, h, m - 1);
      HoldingStepIff(t, k, h, m - 1);
    }
  }

  lemma HoldingIsValue(t: Run, k: nat, h: Hash, m: nat)
    requires k < |t.states| && h in t.states[k].entries && LastStore(t.events, k, h) >= 0
    requires LastStore(t.events, k, h) < m <= k
    ensures h in t.states[m].entries && InRing(t.states[m], t.states[m].entries[h])
    ensures Holding(t, k, h, m) <==> ValueOf(t.states[m], t.states[m].entries[h]) == t.events[LastStore(t.events, k, h)].val
  {
    LiveSinceStore(t, k, h);
    RunAccounted(t, m);
    assert SamePlace(t.states[m].entries[h], t.states[k].entries[h]);
    CarriesIsSlice(t.states[m].ring, t.states[m].entries[h].ValueStart(), t.events[LastStore(t.events, k, h)].val);
  }

  /** Entry `h` has held the value it was last set to in every state since. */
  ghost predicate RightSinceStore(t: Run, k: nat, h: Hash)
    requires k < |t.states| && h in t.states[k].entries && LastStore(t.events, k, h) >= 0
  {
    forall m :: LastStore(t.events, k, h) < m <= k ==>
      && h in t.states[m].entries && InRing(t.states[m], t.states[m].entries[h])
      && ValueOf(t.states[m], t.states[m].entries[h]) == t.events[LastStore(t.events, k, h)].val
  }

  /** It has held it all that time exactly when every write since then agrees with it byte for byte where they overlap. */
  lemma RightSinceStoreIff(t: Run, k: nat, h: Hash)
    requires k < |t.states| && h in t.states[k].entries
    ensures LastStore(t.events, k, h) >= 0
    ensures RightSinceStore(t, k, h) <==> forall n :: LastStore(t.events, k, h) < n < k ==> AgreesAt(t, k, h, n)
  {
    LiveSinceStore(t, k, h);
    var j := LastStore(t.events, k, h);
    forall m | j < m <= k
      ensures h in t.states[m].entries && InRing(t.states[m], t.states[m].entries[h])
      ensures Holding(t, k, h, m) <==> ValueOf(t.states[m], t.states[m].entries[h]) == t.events[j].val
    {
      HoldingIsValue(t, k, h, m);
    }
    if RightSinceStore(t, k, h) {
      forall n | j < n < k ensures AgreesAt(t, k, h, n) {
        assert Holding(t, k, h, n) && Holding(t, k, h, n + 1);
        HoldingStepIff(t, k, h, n);
      }
    }
    if forall n :: j < n < k ==> AgreesAt(t, k, h, n) {
      forall m | j < m <= k ensures Holding(t, k, h, m) {
        HoldingWhileAgreeing(t, k, h, m);
      }
    }
  }

  /** No write since the last store of `h` has touched its value. */
  ghost predicate Untouched(t: Run, k: nat, h: Hash)
    requires k < |t.states| && h in t.states[k].entries
  {
    forall n :: LastStore(t.events, k, h) < n < k ==>
      Avoids(WrittenAt(t, n), t.states[k].entries[h].ValueStart(), t.states[k].entries[h].header.valLen)
  }

  /** An untouched entry holds its latest value, whatever has landed on other entries. */
  lemma UntouchedIsLatest(t: Run, k: nat, h: Hash)
    requires k < |t.states| && h in t.states[k].entries && Untouched(t, k, h)
    ensures h in Latest(t.events[..k]) && InRing(t.states[k], t.states[k].entries[h])
    ensures ValueOf(t.states[k], t.states[k].entries[h]) == Latest(t.events[..k])[h]
  {
    LiveSinceStore(t, k, h);
    LatestIsLastStored(t, k, h);
    HoldingWhileAgreeing(t, k, h, k);
    HoldingIsValue(t, k, h, k);
  }

  /** A lookup whose entry no write has touched since it was stored returns the value last set for that hash. */
  lemma LookupReturnsLatest(t: Run, k: nat)
    requires k < |t.events| && t.events[k].Get? && t.events[k].found.Some?
    requires t.events[k].h in t.states[k].entries && Untouched(t, k, t.events[k].h)
    ensures t.events[k].h in Latest(t.events[..k])
    ensures t.events[k].found.value == Latest(t.events[..k])[t.events[k].h]
  {
    RunStep(t, k);
    UntouchedIsLatest(t, k, t.events[k].h);
  }

  // ---- Runs whose writes all land clear ------------------------------------

  /** Every live extent lies in the ring and holds the latest value for its hash. */
  ghost predicate Holds(s: Shard, latest: map<Hash, seq<Byte>>) {
    forall h :: h in s.entries ==>
      InRing(s, s.entries[h]) && h in latest && ValueOf(s, s.entries[h]) == latest[h]
  }

  ghost predicate Within(w: Write, e: Entry) {
    forall p :: Covers(w, p) ==> e.offset <= p < e.End()
  }

  /** A write stays within the entry it belongs to. */
  lemma WriteWithinEntry(cfg: Config, s: Shard, ev: Event, s': Shard)
    requires Accounted(s) && Step(cfg, s, ev, s') && WrittenBy(s, ev, s').Bytes?
    ensures ev.Set? && ev.result == Stored
    ensures if FitsInPlace(s, ev.h, ev.val) then Within(WrittenBy(s, ev, s'), s.entries[ev.h])
            else Inserts(cfg, s, ev) && ev.h in s'.entries && Within(WrittenBy(s, ev, s'), s'.entries[ev.h])
  {
    if Inserts(cfg, s, ev) {
      InsertWrites(Base(s, ev.h), ev, s');
    }
  }

  lemma ApartAvoids(w: Write, e: Entry, other: Entry)
    requires Within(w, e) && Apart(other, e)
    ensures Avoids(w, other.ValueStart(), other.header.valLen)
  {}

  lemma ClearAvoids(t: Run, n: nat, h: Hash)
    requires n < |t.events| && h in t.states[n + 1].entries && !Stores(t.events[n], h)
    requires AllApart(t.states[n]) && LandsClearAt(t, n)
    ensures Avoids(WrittenAt(t, n), t.states[n + 1].entries[h].ValueStart(), t.states[n + 1].entries[h].header.valLen)
  {
    var s, ev, s' := t.states[n], t.events[n], t.states[n + 1];
    RunAccounted(t, n);
    RunStep(t, n);
    StepKeepsPlace(t.cfg, s, ev, s', h);
    if WrittenAt(t, n).Bytes? {
      WriteWithinEntry(t.cfg, s, ev, s');
      if FitsInPlace(s, ev.h, ev.val) {
        ApartAvoids(WrittenAt(t, n), s.entries[ev.h], s.entries[h]);
      } else {
        ApartAvoids(WrittenAt(t, n), s'.entries[ev.h], s'.entries[h]);
      }
    }
  }

  lemma {:induction false} LaterIsNoStore(events: seq<Event>, k: nat, h: Hash, n: nat)
    requires k <= |events| && LastStore(events, k, h) < n < k
    ensures !Stores(events[n], h)
  {
    if n < k - 1 {
      LaterIsNoStore(events, k - 1, h, n);
    }
  }

  lemma ClearIsUntouched(t: Run, k: nat, h: Hash)
    requires k < |t.states| && h in t.states[k].entries
    requires forall j :: 0 <= j < k ==> LandsClearAt(t, j)
    ensures Untouched(t, k, h)
  {
    LiveSinceStore(t, k, h);
    forall n | LastStore(t.events, k, h) < n < k
      ensures Avoids(WrittenAt(t, n), t.states[k].entries[h].ValueStart(), t.states[k].entries[h].header.valLen)
    {
      RunApart(t, n);
      LaterIsNoStore(t.events, k, h, n);
      ClearAvoids(t, n, h);
      assert SamePlace(t.states[n + 1].entries[h], t.states[k].entries[h]);
    }
  }

  /** As long as every write has landed clear, wrapped or not, a run holds disjoint extents and all the latest values. */
  lemma RunSound(t: Run, k: nat)
    requires k < |t.states|
    requires forall j :: 0 <= j < k ==> LandsClearAt(t, j)
    ensures AllApart(t.states[k]) && Holds(t.states[k], Latest(t.events[..k]))
  {
    RunApart(t, k);
    forall h | h in t.states[k].entries
      ensures InRing(t.states[k], t.states[k].entries[h]) && h in Latest(t.events[..k])
      ensures ValueOf(t.states[k], t.states[k].entries[h]) == Latest(t.events[..k])[h]
    {
      ClearIsUntouched(t, k, h);
      UntouchedIsLatest(t, k, h);
    }
  }

  /** Until a write wraps, all of them land clear: the values agree at least that long. */
  lemma RunUnwrapped(t: Run, k: nat)
    requires k < |t.states|
    requires forall j :: 0 <= j < k ==> !Wraps(t.cfg, t.states[j], t.events[j])
    ensures forall j :: 0 <= j < k ==> LandsClearAt(t, j)
    ensures AllApart(t.states[k]) && Holds(t.states[k], Latest(t.events[..k]))
  {
    forall j | 0 <= j < k ensures LandsClearAt(t, j) {
      RunBehindHead(t, j);
      RunAccounted(t, j);
      RunStep(t, j);
      UnwrappedLandsClear(t.cfg, t.states[j], t.events[j], t.states[j + 1]);
    }
    RunSound(t, k);
  }

  // ---- A write that does not land clear ------------------------------------

  function Filled(b: Byte): seq<Byte> {
    seq(400, _ => b)
  }

  function First(): Shard { Inserted(Empty(1024), 1, [], Filled(0), 0, 0) }
  function Second(): Shard { Inserted(First(), 2, [], Filled(0), 0, 0) }
  function SecondGone(): Shard { Without(Second(), 2) }
  function Third(): Shard { Inserted(SecondGone(), 3, [], Filled(7), 0, 0) }

  function Store(h: Hash, b: Byte): Event { Set(h, [], Filled(b), false, 0, 0, Stored) }

  lemma FirstThenSecond(cfg: Config)
    requires cfg == Config(1024, 65536)
    ensures Step(cfg, Empty(1024), Store(1, 0), First()) && Step(cfg, First(), Store(2, 0), Second())
  {
    InsertHappens(cfg, Empty(1024), Empty(1024), 1, Filled(0));
    InsertHappens(cfg, First(), First(), 2, Filled(0));
  }

  lemma SecondGoes()
    ensures Reclaimed(Second(), SecondGone()) && Needed(Second(), SecondGone(), SizeFor([], Filled(7)))
  {
    LiveBytesWithout(Second().entries, 2);
    assert 2 in Second().entries && 2 !in SecondGone().entries;
  }

  lemma SecondFacts()
    ensures Second().entries.Keys == {1, 2} && SecondGone().used == 423 && |SecondGone().ring| == 1024
  {}

  lemma ThirdHappens(cfg: Config)
    requires cfg == Config(1024, 65536)
    ensures Step(cfg, Second(), Store(3, 7), Third())
  {
    SecondGoes();
    SecondFacts();
    InsertHappens(cfg, Second(), SecondGone(), 3, Filled(7));
  }

  lemma WrittenValue(ring: seq<Byte>, at: nat, header: seq<Byte>, key: seq<Byte>, val: seq<Byte>)
    requires at + |header + key + val| <= |ring|
    ensures Overwrite(ring, at, header + key + val)[at + |header| + |key|..at + |header| + |key| + |val|] == val
  {}

  lemma LookupIsWrong(cfg: Config)
    ensures Step(cfg, Third(), Get(1, 0, Some(Filled(7))), Looked(Third(), 1, 0).0)
  {
    WrittenValue(SecondGone().ring, 0, EncodeHeader(NewHeader(3, [], Filled(7), 0, 0)), [], Filled(7));
  }

  lemma LatestOf3(events: seq<Event>)
    requires |events| >= 3 && events[..3] == [Store(1, 0), Store(2, 0), Store(3, 7)]
    ensures 1 in Latest(events[..3]) && Latest(events[..3])[1] == Filled(0)
  {
    assert events[0] == events[..3][0] && events[1] == events[..3][1] && events[2] == events[..3][2];
    LatestStep(events, 1);
    LatestStep(events, 2);
    LatestStep(events, 3);
  }

  /** Lookup `k` returned something other than the value last set for its hash. */
  ghost predicate WrongLookup(t: Trace, k: nat) {
    && k < |t.events| && t.events[k].Get? && t.events[k].found.Some?
    && t.events[k].h in Latest(t.events[..k])
    && t.events[k].found.value != Latest(t.events[..k])[t.events[k].h]
  }

  lemma ThirdWrapsOntoFirst(cfg: Config)
    requires cfg == Config(1024, 65536)
    ensures Wraps(cfg, Second(), Store(3, 7)) && !LandsClear(cfg, Second(), Store(3, 7), Third())
  {
    assert !Apart(Third().entries[1], Third().entries[3]);
  }

  lemma WrapRun() returns (t: Run)
    ensures t == Trace(Config(1024, 65536), 1024, [Empty(1024), First(), Second(), Third(), Looked(Third(), 1, 0).0],
                       [Store(1, 0), Store(2, 0), Store(3, 7), Get(1, 0, Some(Filled(7)))])
  {
    var cfg := Config(1024, 65536);
    FirstThenSecond(cfg);
    ThirdHappens(cfg);
    LookupIsWrong(cfg);
    t := FourSteps(cfg, 1024, Empty(1024), First(), Second(), Third(), Looked(Third(), 1, 0).0,
                   Store(1, 0), Store(2, 0), Store(3, 7), Get(1, 0, Some(Filled(7))));
  }

  lemma WrongAtThree(t: Trace)
    requires t.events == [Store(1, 0), Store(2, 0), Store(3, 7), Get(1, 0, Some(Filled(7)))]
    ensures WrongLookup(t, 3)
  {
    assert t.events[..3] == [Store(1, 0), Store(2, 0), Store(3, 7)];
    LatestOf3(t.events);
    assert Filled(7)[0] != Filled(0)[0];
  }

  /** Value agreement can end with the first wrapping write: in a ring of 1024 bytes, two entries of 423 bytes
      are stored, the second is evicted for a third, and the third wraps onto the first. Looking up the first
      then returns the third one's value. */
  lemma WrapOverwritesLiveValue() returns (t: Run)
    ensures t.size == 1024 && |t.events| == 4 && |t.states| == 5
    ensures Wraps(t.cfg, t.states[2], t.events[2]) && !LandsClearAt(t, 2) && WrongLookup(t, 3)
  {
    t := WrapRun();
    ThirdWrapsOntoFirst(t.cfg);
    WrongAtThree(t);
  }
}
