/** What every run of the cache shard keeps: byte accounting, and live extents apart as long as writes land clear. */
module RingRuns {
  import opened CountMinSketch
  import opened RingState
  import opened Wrappers

  datatype Event =
    | Get(h: Hash, now: Uint32, found: Option<seq<Byte>>)
    | Set(h: Hash, key: seq<Byte>, val: seq<Byte>, ttlSet: bool, ttl: Uint32, now: Uint32, result: SetResult)
    | Delete(h: Hash, removed: bool)

  ghost predicate Step(cfg: Config, s: Shard, ev: Event, s': Shard) {
    match ev
    case Get(h, now, found) =>
      (h in s.entries ==> InRing(s, s.entries[h])) && (s', found) == Looked(s, h, now)
    case Set(h, key, val, ttlSet, ttl, now, result) =>
      SetStep(cfg, s, h, key, val, ttlSet, ttl, now, s', result)
    case Delete(h, removed) =>
      s' == Base(s, h) && removed == (h in s.entries && s.entries[h].header.flags.active)
  }

  datatype Trace = Trace(cfg: Config, size: nat, states: seq<Shard>, events: seq<Event>)

  function Empty(size: nat): Shard {
    Shard(map[], seq(size, _ => 0), 0, 0)
  }

  ghost predicate IsRun(t: Trace) {
    && |t.states| == |t.events| + 1
    && t.states[0] == Empty(t.size)
    && forall k :: 0 <= k < |t.events| ==> StepAt(t, k)
  }

  ghost predicate StepAt(t: Trace, k: nat)
    requires k < |t.events| && k + 1 < |t.states|
  {
    Step(t.cfg, t.states[k], t.events[k], t.states[k + 1])
  }

  /** The runs from the empty shard: any operations, any eviction order. */
  type Run = t: Trace | IsRun(t) ghost witness Trace(Config(0, 0), 0, [Empty(0)], [])

  // ---- Accounting ----------------------------------------------------------

  ghost predicate Accounted(s: Shard) {
    && s.head <= |s.ring|
    && LiveBytes(s.entries) <= s.used <= |s.ring|
    && forall h :: h in s.entries ==>
         s.entries[h].header.hash == h && s.entries[h].header.flags.active && InRing(s, s.entries[h])
  }

  /** Bytes counted as used that no live entry holds. */
  ghost function Slack(s: Shard): int {
    s.used - LiveBytes(s.entries)
  }

  /** What an in-place update to a shorter value gives up. */
  function Shrinkage(cfg: Config, s: Shard, ev: Event): nat {
    if ev.Set? && |ev.key| <= cfg.maxKeySize && |ev.val| <= cfg.maxValSize && FitsInPlace(s, ev.h, ev.val)
    then s.entries[ev.h].header.valLen - |ev.val| else 0
  }

  lemma WithoutAccounted(s: Shard, h: Hash)
    requires Accounted(s) && h in s.entries
    ensures Accounted(Without(s, h)) && Slack(Without(s, h)) == Slack(s)
  {
    LiveBytesWithout(s.entries, h);
  }

  lemma ReplacedAccounted(s: Shard, h: Hash, e: Entry)
    requires Accounted(s) && h in s.entries && e.header.hash == h && e.header.flags.active
    requires e.offset == s.entries[h].offset && e.Size() <= s.entries[h].Size()
    ensures Accounted(s.(entries := s.entries[h := e]))
    ensures Slack(s.(entries := s.entries[h := e])) == Slack(s) + s.entries[h].Size() - e.Size()
  {
    LiveBytesWithout(s.entries, h);
    LiveBytesWith(s.entries - {h}, h, e);
    assert (s.entries - {h})[h := e] == s.entries[h := e];
  }

  lemma ReclaimedAccounted(s: Shard, mid: Shard)
    requires Accounted(s) && Reclaimed(s, mid)
    ensures Accounted(mid) && Slack(mid) == Slack(s)
  {
    LiveBytesMonotone(mid.entries, s.entries);
  }

  lemma InsertedAccounted(s: Shard, h: Hash, key: seq<Byte>, val: seq<Byte>, ttl: Uint32, now: Uint32)
    requires Accounted(s) && h !in s.entries && s.used + SizeFor(key, val) <= |s.ring|
    ensures Accounted(Inserted(s, h, key, val, ttl, now))
    ensures Slack(Inserted(s, h, key, val, ttl, now)) == Slack(s)
  {
    var e := Entry(NewHeader(h, key, val, ttl, now), Target(s, SizeFor(key, val)));
    LiveBytesWith(s.entries, h, e);
  }

  lemma UpdatedAccounted(s: Shard, h: Hash, val: seq<Byte>, ttlSet: bool, ttl: Uint32, now: Uint32)
    requires Accounted(s) && FitsInPlace(s, h, val)
    ensures Accounted(UpdatedInPlace(s, h, val, ttlSet, ttl, now))
    ensures Slack(UpdatedInPlace(s, h, val, ttlSet, ttl, now)) == Slack(s) + s.entries[h].header.valLen - |val|
  {
    var s' := UpdatedInPlace(s, h, val, ttlSet, ttl, now);
    ReplacedAccounted(s, h, s'.entries[h]);
  }

  lemma BaseAccounted(s: Shard, h: Hash)
    requires Accounted(s)
    ensures Accounted(Base(s, h)) && Slack(Base(s, h)) == Slack(s) && h !in Base(s, h).entries
  {
    if h in s.entries {
      WithoutAccounted(s, h);
    }
  }

  /** Every operation keeps the accounting, and the slack grows by exactly what in-place updates shrink:
      nothing ever gives those bytes back. */
  lemma StepAccounted(cfg: Config, s: Shard, ev: Event, s': Shard)
    requires Accounted(s) && Step(cfg, s, ev, s')
    ensures Accounted(s') && |s'.ring| == |s.ring|
    ensures Slack(s') == Slack(s) + Shrinkage(cfg, s, ev)
  {
    match ev
    case Get(h, now, found) =>
      if h in s.entries {
        WithoutAccounted(s, h);
        ReplacedAccounted(s, h, Visited(s.entries[h], true));
      }
    case Set(h, key, val, ttlSet, ttl, now, result) =>
      if |key| <= cfg.maxKeySize && |val| <= cfg.maxValSize {
        if FitsInPlace(s, h, val) {
          UpdatedAccounted(s, h, val, ttlSet, ttl, now);
        } else {
          BaseAccounted(s, h);
          InsertAccounted(Base(s, h), h, key, val, ttl, now, s', result);
        }
      }
    case Delete(h, removed) =>
      BaseAccounted(s, h);
  }

  lemma InsertAccounted(base: Shard, h: Hash, key: seq<Byte>, val: seq<Byte>, ttl: Uint32, now: Uint32, s': Shard, r: SetResult)
    requires Accounted(base) && h !in base.entries && InsertStep(base, h, key, val, ttl, now, s', r)
    ensures Accounted(s') && |s'.ring| == |base.ring| && Slack(s') == Slack(base)
  {
    var mid :| InsertVia(base, mid, h, key, val, ttl, now, s', r);
    ReclaimedAccounted(base, mid);
    if r == Stored {
      InsertedAccounted(mid, h, key, val, ttl, now);
    }
  }

  function TotalShrinkage(t: Trace, k: nat): nat
    requires k < |t.states| == |t.events| + 1
  {
    if k == 0 then 0 else TotalShrinkage(t, k - 1) + Shrinkage(t.cfg, t.states[k - 1], t.events[k - 1])
  }

  lemma RunStep(t: Run, k: nat)
    requires k < |t.events|
    ensures Step(t.cfg, t.states[k], t.events[k], t.states[k + 1])
  {
    assert StepAt(t, k);
  }

  /** The accounting holds in every state of every run, wrapped or not. */
  lemma {:induction false} RunAccounted(t: Run, k: nat)
    requires k < |t.states|
    ensures Accounted(t.states[k]) && |t.states[k].ring| == t.size
    ensures Slack(t.states[k]) == TotalShrinkage(t, k)
  {
    if k == 0 {
      assert LiveBytes(map[]) == 0;
    } else {
      RunAccounted(t, k - 1);
      RunStep(t, k - 1);
      StepAccounted(t.cfg, t.states[k - 1], t.events[k - 1], t.states[k]);
    }
  }

  // ---- When an insertion is refused ----------------------------------------

  /** An insertion is refused exactly when the unreclaimable bytes leave no room: the slack plus whatever is
      pinned. It does not depend on the order in which entries are evicted. */
  lemma FullIff(base: Shard, h: Hash, key: seq<Byte>, val: seq<Byte>, ttl: Uint32, now: Uint32, s': Shard, r: SetResult)
    requires Accounted(base) && InsertStep(base, h, key, val, ttl, now, s', r)
    ensures r == Stored || r == CacheFull
    ensures r == CacheFull <==> Slack(base) + LiveBytes(PinnedOf(base.entries)) + SizeFor(key, val) > |base.ring|
  {
    var mid :| InsertVia(base, mid, h, key, val, ttl, now, s', r);
    PinnedStay(base, mid);
  }

  /** Eviction keeps the bytes of pinned entries, and only those when it has gone as far as it can. */
  lemma PinnedStay(base: Shard, mid: Shard)
    requires Reclaimed(base, mid)
    ensures LiveBytes(PinnedOf(base.entries)) <= LiveBytes(mid.entries)
    ensures NothingEvictable(mid) ==> LiveBytes(PinnedOf(base.entries)) == LiveBytes(mid.entries)
  {
    var pinned := PinnedOf(base.entries);
    forall g | g in mid.entries
      ensures mid.entries[g].Size() == base.entries[g].Size()
      ensures mid.entries[g].header.flags.pinned == base.entries[g].header.flags.pinned
    {
      assert Cleared(base.entries[g], mid.entries[g]);
    }
    LiveBytesMonotone(pinned, mid.entries);
    if NothingEvictable(mid) {
      LiveBytesMonotone(mid.entries, pinned);
    }
  }

  ghost predicate NoPins(s: Shard) {
    forall h :: h in s.entries ==> !s.entries[h].header.flags.pinned
  }

  lemma StepNoPins(cfg: Config, s: Shard, ev: Event, s': Shard)
    requires NoPins(s) && Step(cfg, s, ev, s')
    ensures NoPins(s')
  {}

  lemma {:induction false} RunNoPins(t: Run, k: nat)
    requires k < |t.states|
    ensures NoPins(t.states[k])
  {
    if k != 0 {
      RunNoPins(t, k - 1);
      RunStep(t, k - 1);
      StepNoPins(t.cfg, t.states[k - 1], t.events[k - 1], t.states[k]);
    }
  }

  /** In every run a `Set` that does not update in place fails exactly when the bytes lost to shrinking
      updates leave too little of the ring; an empty directory does not help. */
  lemma RunSetFullIff(t: Run, k: nat)
    requires k < |t.events| && t.events[k].Set?
    requires |t.events[k].key| <= t.cfg.maxKeySize && |t.events[k].val| <= t.cfg.maxValSize
    requires !FitsInPlace(t.states[k], t.events[k].h, t.events[k].val)
    ensures t.events[k].result == CacheFull <==>
              TotalShrinkage(t, k) + SizeFor(t.events[k].key, t.events[k].val) > t.size
  {
    var s, ev := t.states[k], t.events[k];
    RunAccounted(t, k);
    RunNoPins(t, k);
    RunStep(t, k);
    BaseAccounted(s, ev.h);
    assert PinnedOf(Base(s, ev.h).entries) == map[];
    FullIff(Base(s, ev.h), ev.h, ev.key, ev.val, ev.ttl, ev.now, t.states[k + 1], ev.result);
  }

  // ---- Live extents --------------------------------------------------------

  predicate Apart(a: Entry, b: Entry) {
    a.End() <= b.offset || b.End() <= a.offset
  }

  ghost predicate AllApart(s: Shard) {
    forall g, h :: g in s.entries && h in s.entries && g != h ==> Apart(s.entries[g], s.entries[h])
  }

  /** A `Set` within the limits that does not update in place. */
  predicate Inserts(cfg: Config, s: Shard, ev: Event) {
    ev.Set? && |ev.key| <= cfg.maxKeySize && |ev.val| <= cfg.maxValSize && !FitsInPlace(s, ev.h, ev.val)
  }

  /** The entry that `h` names lies clear of every other live entry. */
  ghost predicate ClearOfOthers(s: Shard, h: Hash) {
    h in s.entries && forall g :: g in s.entries && g != h ==> Apart(s.entries[g], s.entries[h])
  }

  /** If this event wrote a new entry, it wrote it clear of every entry that is still live. */
  ghost predicate LandsClear(cfg: Config, s: Shard, ev: Event, s': Shard) {
    Inserts(cfg, s, ev) && ev.result == Stored ==> ClearOfOthers(s', ev.h)
  }

  /** Dropping entries or shortening extents keeps them apart. */
  lemma ApartShrinks(s: Shard, s': Shard)
    requires AllApart(s) && s'.entries.Keys <= s.entries.Keys
    requires forall h :: h in s'.entries ==>
               s'.entries[h].offset == s.entries[h].offset && s'.entries[h].Size() <= s.entries[h].Size()
    ensures AllApart(s')
  {
    forall g, h | g in s'.entries && h in s'.entries && g != h
      ensures Apart(s'.entries[g], s'.entries[h])
    {
      assert Apart(s.entries[g], s.entries[h]);
    }
  }

  lemma ClearedExtent(e: Entry, e': Entry)
    requires Cleared(e, e')
    ensures e'.offset == e.offset && e'.Size() == e.Size() && e == Visited(e', e.header.flags.visited)
  {}

  lemma InsertedApart(s: Shard, h: Hash, key: seq<Byte>, val: seq<Byte>, ttl: Uint32, now: Uint32)
    requires AllApart(s) && h !in s.entries && SizeFor(key, val) <= |s.ring|
    requires ClearOfOthers(Inserted(s, h, key, val, ttl, now), h)
    ensures AllApart(Inserted(s, h, key, val, ttl, now))
  {
    var s' := Inserted(s, h, key, val, ttl, now);
    forall f, g | f in s'.entries && g in s'.entries && f != g
      ensures Apart(s'.entries[f], s'.entries[g])
    {
      if f == h {
        assert Apart(s'.entries[g], s'.entries[h]);
      } else if g == h {
        assert Apart(s'.entries[f], s'.entries[h]);
      } else {
        assert Apart(s.entries[f], s.entries[g]);
      }
    }
  }

  lemma UpdatedApart(s: Shard, h: Hash, val: seq<Byte>, ttlSet: bool, ttl: Uint32, now: Uint32)
    requires AllApart(s) && FitsInPlace(s, h, val) && InRing(s, s.entries[h])
    ensures AllApart(UpdatedInPlace(s, h, val, ttlSet, ttl, now))
  {
    ApartShrinks(s, UpdatedInPlace(s, h, val, ttlSet, ttl, now));
  }

  lemma BaseApart(s: Shard, h: Hash)
    requires AllApart(s)
    ensures AllApart(Base(s, h))
  {}

  lemma ThinnedApart(s: Shard, mid: Shard)
    requires AllApart(s) && Thinned(s, mid)
    ensures AllApart(mid)
  {
    forall h | h in mid.entries
      ensures mid.entries[h].offset == s.entries[h].offset && mid.entries[h].Size() == s.entries[h].Size()
    {
      ClearedExtent(s.entries[h], mid.entries[h]);
    }
    ApartShrinks(s, mid);
  }

  lemma LookedApart(s: Shard, h: Hash, now: Uint32)
    requires AllApart(s) && (h in s.entries ==> InRing(s, s.entries[h]))
    ensures AllApart(Looked(s, h, now).0)
  {
    var s' := Looked(s, h, now).0;
    assert forall g :: g in s'.entries && g != h ==> s'.entries[g] == s.entries[g];
    ApartShrinks(s, s');
  }

  lemma InsertApart(base: Shard, ev: Event, s': Shard)
    requires AllApart(base) && ev.Set? && ev.h !in base.entries
    requires InsertStep(base, ev.h, ev.key, ev.val, ev.ttl, ev.now, s', ev.result)
    requires ev.result == Stored ==> ClearOfOthers(s', ev.h)
    ensures AllApart(s')
  {
    var mid :| InsertVia(base, mid, ev.h, ev.key, ev.val, ev.ttl, ev.now, s', ev.result);
    ThinnedApart(base, mid);
    if ev.result == Stored {
      InsertedApart(mid, ev.h, ev.key, ev.val, ev.ttl, ev.now);
    }
  }

  /** Every operation whose write lands clear keeps the live extents apart. */
  lemma StepApart(cfg: Config, s: Shard, ev: Event, s': Shard)
    requires Accounted(s) && AllApart(s) && Step(cfg, s, ev, s') && LandsClear(cfg, s, ev, s')
    ensures AllApart(s')
  {
    BaseAccounted(s, ev.h);
    BaseApart(s, ev.h);
    match ev
    case Get(h, now, found) =>
      LookedApart(s, h, now);
    case Set(h, _, val, ttlSet, ttl, now, _) =>
      if Inserts(cfg, s, ev) {
        InsertApart(Base(s, h), ev, s');
      } else if FitsInPlace(s, h, val) {
        UpdatedApart(s, h, val, ttlSet, ttl, now);
      }
    case Delete(_, _) =>
  }

  /** Step `k` of the run wrote clear of live entries, or wrote no new entry. */
  ghost predicate LandsClearAt(t: Run, k: nat)
    requires k < |t.events|
  {
    LandsClear(t.cfg, t.states[k], t.events[k], t.states[k + 1])
  }

  lemma {:induction false} RunApart(t: Run, k: nat)
    requires k < |t.states|
    requires forall j :: 0 <= j < k ==> LandsClearAt(t, j)
    ensures AllApart(t.states[k])
  {
    if k != 0 {
      RunApart(t, k - 1);
      RunAccounted(t, k - 1);
      RunStep(t, k - 1);
      assert LandsClearAt(t, k - 1);
      StepApart(t.cfg, t.states[k - 1], t.events[k - 1], t.states[k]);
    }
  }

  /** The extents stay apart through a run exactly as long as every write lands clear. */
  lemma ApartIffClear(t: Run, k: nat)
    requires k < |t.states|
    ensures (forall j :: 0 <= j <= k ==> AllApart(t.states[j])) <==> (forall j :: 0 <= j < k ==> LandsClearAt(t, j))
  {
    if forall j :: 0 <= j <= k ==> AllApart(t.states[j]) {
      forall j | 0 <= j < k ensures LandsClearAt(t, j) {
        assert AllApart(t.states[j + 1]);
        RunStep(t, j);
      }
    }
    if forall j :: 0 <= j < k ==> LandsClearAt(t, j) {
      forall j | 0 <= j <= k ensures AllApart(t.states[j]) {
        RunApart(t, j);
      }
    }
  }

  // ---- When a write lands clear --------------------------------------------

  /** The place where an entry of `size` bytes would go is clear of every live entry. */
  ghost predicate Clear(s: Shard, size: nat) {
    forall h :: h in s.entries ==> s.entries[h].End() <= Target(s, size) || Target(s, size) + size <= s.entries[h].offset
  }

  lemma InsertedClearIff(s: Shard, h: Hash, key: seq<Byte>, val: seq<Byte>, ttl: Uint32, now: Uint32)
    requires h !in s.entries && SizeFor(key, val) <= |s.ring|
    ensures ClearOfOthers(Inserted(s, h, key, val, ttl, now), h) <==> Clear(s, SizeFor(key, val))
  {
    var s' := Inserted(s, h, key, val, ttl, now);
    var size := SizeFor(key, val);
    if ClearOfOthers(s', h) {
      forall g | g in s.entries
        ensures s.entries[g].End() <= Target(s, size) || Target(s, size) + size <= s.entries[g].offset
      {
        assert Apart(s'.entries[g], s'.entries[h]);
      }
    }
  }

  lemma ThinnedClear(s: Shard, mid: Shard, size: nat)
    requires Thinned(s, mid) && Clear(s, size)
    ensures Clear(mid, size)
  {
    forall g | g in mid.entries
      ensures mid.entries[g].End() <= Target(mid, size) || Target(mid, size) + size <= mid.entries[g].offset
    {
      ClearedExtent(s.entries[g], mid.entries[g]);
    }
  }

  /** What a caller can check before the call: if the target is clear of every entry but the one being replaced, the
      write lands clear, whatever is evicted. */
  lemma ClearLandsClear(cfg: Config, s: Shard, ev: Event, s': Shard)
    requires Accounted(s) && Step(cfg, s, ev, s')
    requires Inserts(cfg, s, ev) ==> Clear(Base(s, ev.h), SizeFor(ev.key, ev.val))
    ensures LandsClear(cfg, s, ev, s')
  {
    if Inserts(cfg, s, ev) && ev.result == Stored {
      var base := Base(s, ev.h);
      var mid :| InsertVia(base, mid, ev.h, ev.key, ev.val, ev.ttl, ev.now, s', ev.result);
      ThinnedClear(base, mid, SizeFor(ev.key, ev.val));
      InsertedClearIff(mid, ev.h, ev.key, ev.val, ev.ttl, ev.now);
    }
  }

  /** Nothing is evicted when there is room already. */
  lemma RoomyKeepsAll(base: Shard, mid: Shard, size: nat)
    requires Reclaimed(base, mid) && Needed(base, mid, size) && base.used + size <= |base.ring|
    ensures mid == base
  {
    if mid.entries.Keys != base.entries.Keys {
      var last :| last in base.entries && last !in mid.entries && mid.used + base.entries[last].Size() + size > |base.ring|;
      LiveBytesWith(mid.entries, last, base.entries[last]);
      forall g | g in mid.entries ensures mid.entries[g].Size() == base.entries[g].Size() {
        ClearedExtent(base.entries[g], mid.entries[g]);
      }
      LiveBytesMonotone(mid.entries[last := base.entries[last]], base.entries);
    }
  }

  /** When nothing needs to be evicted, that check is exact. */
  lemma LandsClearIff(cfg: Config, s: Shard, ev: Event, s': Shard)
    requires Accounted(s) && Step(cfg, s, ev, s') && Inserts(cfg, s, ev)
    requires Base(s, ev.h).used + SizeFor(ev.key, ev.val) <= |s.ring|
    ensures ev.result == Stored
    ensures LandsClear(cfg, s, ev, s') <==> Clear(Base(s, ev.h), SizeFor(ev.key, ev.val))
  {
    var base := Base(s, ev.h);
    var mid :| InsertVia(base, mid, ev.h, ev.key, ev.val, ev.ttl, ev.now, s', ev.result);
    BaseAccounted(s, ev.h);
    RoomyKeepsAll(base, mid, SizeFor(ev.key, ev.val));
    InsertedClearIff(base, ev.h, ev.key, ev.val, ev.ttl, ev.now);
  }

  /** The entry lies across the place where `size` bytes would go. */
  predicate Across(s: Shard, g: Hash, size: nat)
    requires g in s.entries
  {
    !(s.entries[g].End() <= Target(s, size) || Target(s, size) + size <= s.entries[g].offset)
  }

  lemma ThinnedClearIff(base: Shard, mid: Shard, size: nat)
    requires Thinned(base, mid)
    ensures Clear(mid, size) <==> forall g :: g in base.entries && Across(base, g, size) ==> g !in mid.entries
  {
    forall g | g in mid.entries ensures Across(mid, g, size) <==> Across(base, g, size) {
      ClearedExtent(base.entries[g], mid.entries[g]);
    }
    if Clear(mid, size) {
      assert forall g :: g in mid.entries ==> !Across(mid, g, size);
    }
  }

  /** An overlapping entry stops being in the way only by being evicted: a write lands clear exactly when every entry
      that lay across its target is gone. */
  lemma LandsClearIffOthersGone(cfg: Config, s: Shard, ev: Event, s': Shard)
    requires Accounted(s) && Step(cfg, s, ev, s') && Inserts(cfg, s, ev) && ev.result == Stored
    ensures LandsClear(cfg, s, ev, s') <==>
              forall g :: g in Base(s, ev.h).entries && Across(Base(s, ev.h), g, SizeFor(ev.key, ev.val)) ==> g !in s'.entries
  {
    BaseAccounted(s, ev.h);
    InsertClearIffGone(Base(s, ev.h), ev, s');
  }

  lemma InsertClearIffGone(base: Shard, ev: Event, s': Shard)
    requires ev.Set? && ev.result == Stored && ev.h !in base.entries
    requires InsertStep(base, ev.h, ev.key, ev.val, ev.ttl, ev.now, s', Stored)
    ensures ClearOfOthers(s', ev.h) <==>
              forall g :: g in base.entries && Across(base, g, SizeFor(ev.key, ev.val)) ==> g !in s'.entries
  {
    var mid :| InsertVia(base, mid, ev.h, ev.key, ev.val, ev.ttl, ev.now, s', Stored);
    InsertedClearIff(mid, ev.h, ev.key, ev.val, ev.ttl, ev.now);
    ThinnedClearIff(base, mid, SizeFor(ev.key, ev.val));
    assert s'.entries.Keys == mid.entries.Keys + {ev.h};
  }

  // ---- Before the first wrap -----------------------------------------------

  /** The write of this event ran off the end of the ring and started again at the beginning. */
  predicate Wraps(cfg: Config, s: Shard, ev: Event) {
    Inserts(cfg, s, ev) && ev.result == Stored && s.head + SizeFor(ev.key, ev.val) > |s.ring|
  }

  ghost predicate BehindHead(s: Shard) {
    forall h :: h in s.entries ==> s.entries[h].End() <= s.head
  }

  lemma InsertBehindHead(base: Shard, ev: Event, s': Shard)
    requires BehindHead(base) && ev.Set? && InsertStep(base, ev.h, ev.key, ev.val, ev.ttl, ev.now, s', ev.result)
    requires ev.result == Stored ==> base.head + SizeFor(ev.key, ev.val) <= |base.ring|
    ensures BehindHead(s')
  {
    var mid :| InsertVia(base, mid, ev.h, ev.key, ev.val, ev.ttl, ev.now, s', ev.result);
    forall g | g in mid.entries ensures mid.entries[g].End() <= mid.head {
      ClearedExtent(base.entries[g], mid.entries[g]);
    }
  }

  lemma StepBehindHead(cfg: Config, s: Shard, ev: Event, s': Shard)
    requires BehindHead(s) && Step(cfg, s, ev, s') && !Wraps(cfg, s, ev)
    ensures BehindHead(s')
  {
    if Inserts(cfg, s, ev) {
      InsertBehindHead(Base(s, ev.h), ev, s');
    }
  }

  lemma {:induction false} RunBehindHead(t: Run, k: nat)
    requires k < |t.states|
    requires forall j :: 0 <= j < k ==> !Wraps(t.cfg, t.states[j], t.events[j])
    ensures BehindHead(t.states[k])
  {
    if k != 0 {
      RunBehindHead(t, k - 1);
      RunStep(t, k - 1);
      StepBehindHead(t.cfg, t.states[k - 1], t.events[k - 1], t.states[k]);
    }
  }

  lemma UnwrappedLandsClear(cfg: Config, s: Shard, ev: Event, s': Shard)
    requires BehindHead(s) && Step(cfg, s, ev, s') && !Wraps(cfg, s, ev)
    requires ev.h in s.entries ==> s.entries[ev.h].header.flags.active
    ensures LandsClear(cfg, s, ev, s')
  {
    if Inserts(cfg, s, ev) && ev.result == Stored {
      var base := Base(s, ev.h);
      var mid :| InsertVia(base, mid, ev.h, ev.key, ev.val, ev.ttl, ev.now, s', ev.result);
      ThinnedClear(base, mid, SizeFor(ev.key, ev.val));
      InsertedClearIff(mid, ev.h, ev.key, ev.val, ev.ttl, ev.now);
    }
  }

  // ---- Building runs -------------------------------------------------------

  lemma InsertHappens(cfg: Config, s: Shard, mid: Shard, h: Hash, val: seq<Byte>)
    requires h !in s.entries && Reclaimed(s, mid) && Needed(s, mid, SizeFor([], val)) && |val| <= cfg.maxValSize
    requires 0 <= mid.used && mid.used + SizeFor([], val) <= |mid.ring|
    ensures Step(cfg, s, Set(h, [], val, false, 0, 0, Stored), Inserted(mid, h, [], val, 0, 0))
  {
    assert InsertVia(Base(s, h), mid, h, [], val, 0, 0, Inserted(mid, h, [], val, 0, 0), Stored);
  }

  /** Four steps from the empty shard are a run. */
  lemma FourSteps(cfg: Config, size: nat, a: Shard, b: Shard, c: Shard, d: Shard, e: Shard, p: Event, q: Event, r: Event, u: Event)
    returns (t: Run)
    requires a == Empty(size) && Step(cfg, a, p, b) && Step(cfg, b, q, c) && Step(cfg, c, r, d) && Step(cfg, d, u, e)
    ensures t == Trace(cfg, size, [a, b, c, d, e], [p, q, r, u])
  {
    var v := Trace(cfg, size, [a, b, c, d, e], [p, q, r, u]);
    forall k | 0 <= k < 4 ensures StepAt(v, k) {
      assert k == 0 || k == 1 || k == 2 || k == 3;
    }
    t := v;
  }

  // ---- Refused on an empty directory ---------------------------------------

  function Wide(): seq<Byte> {
    seq(1000, _ => 0)
  }

  function Full(): Shard { Inserted(Empty(1024), 1, [], Wide(), 0, 0) }
  function Shrunk(): Shard { UpdatedInPlace(Full(), 1, [], false, 0, 0) }
  function Emptied(): Shard { Without(Shrunk(), 1) }

  lemma FullThenShrunk(cfg: Config)
    requires cfg == Config(1024, 65536)
    ensures Step(cfg, Empty(1024), Set(1, [], Wide(), false, 0, 0, Stored), Full())
    ensures Step(cfg, Full(), Set(1, [], [], false, 0, 0, Stored), Shrunk())
  {
    InsertHappens(cfg, Empty(1024), Empty(1024), 1, Wide());
  }

  lemma ShrunkThenEmptied(cfg: Config)
    ensures Step(cfg, Shrunk(), Delete(1, true), Emptied())
  {}

  lemma EmptiedIsFull()
    ensures Emptied().entries == map[] && Emptied().used == 1000
    ensures InsertStep(Emptied(), 2, [], [5, 5], 0, 0, Emptied(), CacheFull)
  {
    assert InsertVia(Emptied(), Emptied(), 2, [], [5, 5], 0, 0, Emptied(), CacheFull);
  }

  /** The lost bytes are never found again: a value of 1000 bytes is shrunk to nothing in a ring of 1024 and deleted, and
      then a value of two bytes is refused although the directory is empty. */
  lemma RefusedWhenEmpty() returns (t: Run)
    ensures t.size == 1024 && |t.events| == 4 && |t.states| == 5
    ensures t.states[3].entries == map[] && TotalShrinkage(t, 3) == 1000
    ensures t.events[3] == Set(2, [], [5, 5], false, 0, 0, CacheFull)
  {
    var cfg := Config(1024, 65536);
    FullThenShrunk(cfg);
    ShrunkThenEmptied(cfg);
    EmptiedIsFull();
    t := FourSteps(cfg, 1024, Empty(1024), Full(), Shrunk(), Emptied(), Emptied(),
                   Set(1, [], Wide(), false, 0, 0, Stored), Set(1, [], [], false, 0, 0, Stored), Delete(1, true),
                   Set(2, [], [5, 5], false, 0, 0, CacheFull));
    RunAccounted(t, 3);
    assert LiveBytes(map[]) == 0;
  }
}
