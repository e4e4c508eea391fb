/** One cache shard as the object of `internal/cache/cache.go`, each method under its lock. */
module RingCache {
  import opened CountMinSketch
  import opened RingState
  import opened RingRuns
  import opened Wrappers

  /** Two writes in a row that touch are one write. */
  lemma OverwriteTwice(ring: seq<Byte>, at: nat, a: seq<Byte>, b: seq<Byte>)
    requires at + |a| + |b| <= |ring|
    ensures Overwrite(Overwrite(ring, at, a), at + |a|, b) == Overwrite(ring, at, a + b)
  {}

  /** One more eviction, made because `size` bytes did not fit yet. */
  lemma EvictionContinues(before: Shard, mid: Shard, after: Shard, victim: Hash, size: nat)
    requires Accounted(before) && Reclaimed(before, mid) && EvictedOne(mid, after, victim)
    requires mid.used + size > |mid.ring|
    ensures Accounted(after) && Reclaimed(before, after) && Needed(before, after, size)
    ensures |after.entries| < |mid.entries|
  {
    EvictedOneReclaims(before, mid, after, victim);
    ReclaimedAccounted(before, after);
    assert Cleared(before.entries[victim], mid.entries[victim]);
    assert victim in before.entries && victim !in after.entries;
  }

  class CacheShard {
    const cfg: Config
    const ring: array<Byte>
    var entries: Directory
    var head: nat
    var used: int

    ghost function State(): Shard
      reads this, ring
    {
      Shard(entries, ring[..], head, used)
    }

    ghost predicate Valid()
      reads this, ring
    {
      cfg.Valid() && Accounted(State())
    }

    constructor (cfg: Config, size: nat)
      requires cfg.Valid()
      ensures Valid() && fresh(ring) && this.cfg == cfg
      ensures State() == Empty(size)
    {
      this.cfg := cfg;
      ring := new Byte[size](_ => 0);
      entries := map[];
      head := 0;
      used := 0;
      new;
      assert ring[..] == seq(size, _ => 0);
      assert LiveBytes(map[]) == 0;
    }

    method DeleteLocked(h: Hash)
      modifies this`entries, this`used
      ensures State() == Base(old(State()), h)
    {
      if h !in entries || !entries[h].header.flags.active {
        return;
      }
      used := used - entries[h].Size();
      entries := entries - {h};
    }

    method Delete(h: Hash) returns (removed: bool)
      requires Valid()
      modifies this`entries, this`used
      ensures Valid() && Step(cfg, old(State()), RingRuns.Delete(h, removed), State())
    {
      BaseAccounted(State(), h);
      if h in entries && entries[h].header.flags.active {
        DeleteLocked(h);
        removed := true;
      } else {
        removed := false;
      }
    }

    method Get(h: Hash, now: Uint32) returns (found: Option<seq<Byte>>)
      requires Valid()
      modifies this`entries, this`used
      ensures Valid() && Step(cfg, old(State()), RingRuns.Get(h, now, found), State())
      ensures found.Some? <==>
                && h in old(entries)
                && var header := old(entries)[h].header;
                   header.ttl == 0 || (now - header.createdAt) % 0x1_0000_0000 < header.ttl
      ensures found.Some? ==> h in entries && entries[h].header.flags.visited
      ensures found.None? ==> h !in entries
    {
      ghost var before := State();
      if h !in entries || !entries[h].header.flags.active {
        return None;
      }
      var e := entries[h];
      if e.header.ttl > 0 {
        var elapsed := Elapsed(e, now);
        if elapsed >= e.header.ttl {
          entries := entries - {h};
          used := used - e.Size();
          found := None;
          WithoutAccounted(before, h);
          return;
        }
      }
      entries := entries[h := Visited(e, true)];
      found := Some(ring[e.ValueStart()..e.ValueStart() + e.header.valLen]);
      ReplacedAccounted(before, h, Visited(e, true));
    }

    /** As `Get`, with the seconds the entry has left; an entry without expiry reports zero. */
    method GetWithTTL(h: Hash, now: Uint32) returns (found: Option<seq<Byte>>, ttl: nat)
      requires Valid()
      modifies this`entries, this`used
      ensures Valid() && Step(cfg, old(State()), RingRuns.Get(h, now, found), State())
      ensures found.None? ==> ttl == 0
      ensures found.Some? ==> h in old(entries)
      ensures found.Some? && old(entries)[h].header.ttl == 0 ==> ttl == 0
      ensures found.Some? && old(entries)[h].header.ttl > 0 ==>
                ttl > 0 && ttl + (now - old(entries)[h].header.createdAt) % 0x1_0000_0000 == old(entries)[h].header.ttl
      ensures found.None? && h in old(entries) ==>
                0 < old(entries)[h].header.ttl <= (now - old(entries)[h].header.createdAt) % 0x1_0000_0000
      ensures found.Some? ==> h in entries && entries[h].header.flags.visited
      ensures found.None? ==> h !in entries
    {
      ghost var before := State();
      if h !in entries || !entries[h].header.flags.active {
        return None, 0;
      }
      var e := entries[h];
      entries := entries[h := Visited(e, true)];
      found := Some(ring[e.ValueStart()..e.ValueStart() + e.header.valLen]);
      ttl := 0;
      if e.header.ttl > 0 {
        var remaining := e.header.ttl - Elapsed(e, now);
        if remaining <= 0 {
          used := used - e.Size();
          entries := entries - {h};
          assert entries == before.entries - {h};
          WithoutAccounted(before, h);
          return None, 0;
        }
        ttl := remaining;
      }
      ReplacedAccounted(before, h, Visited(e, true));
    }

    /** The first pass over the directory, in any order: clears visited marks until it meets an entry that is
        neither pinned nor visited. */
    method FirstPass() returns (victim: Option<Hash>)
      requires forall g :: g in entries ==> entries[g].header.flags.active
      modifies this`entries
      ensures entries.Keys == old(entries.Keys)
      ensures forall g :: g in entries ==> Cleared(old(entries)[g], entries[g])
      ensures victim.Some? ==> victim.value in entries && !old(entries)[victim.value].header.flags.pinned
      ensures victim.Some? ==> !old(entries)[victim.value].header.flags.visited
      ensures victim.None? ==> forall g :: g in entries ==>
                old(entries)[g].header.flags.pinned || (old(entries)[g].header.flags.visited && !entries[g].header.flags.visited)
    {
      victim := None;
      var remaining := entries.Keys;
      while remaining != {} && victim.None?
        invariant entries.Keys == old(entries.Keys) && remaining <= entries.Keys
        invariant forall g :: g in entries ==> Cleared(old(entries)[g], entries[g])
        invariant forall g :: g in remaining ==> entries[g] == old(entries)[g]
        invariant forall g :: g in entries && g !in remaining && victim.None? ==>
                    old(entries)[g].header.flags.pinned || (old(entries)[g].header.flags.visited && !entries[g].header.flags.visited)
        invariant victim.Some? ==> victim.value in entries && !old(entries)[victim.value].header.flags.pinned
        invariant victim.Some? ==> !old(entries)[victim.value].header.flags.visited
        decreases remaining
      {
        var h :| h in remaining;
        remaining := remaining - {h};
        var e := entries[h];
        if e.header.flags.active && !e.header.flags.pinned {
          if e.header.flags.visited {
            entries := entries[h := Visited(e, false)];
          } else {
            victim := Some(h);
          }
        }
      }
    }

    /** The second pass: any entry that is not pinned. */
    method SecondPass() returns (victim: Option<Hash>)
      requires forall g :: g in entries ==> entries[g].header.flags.active
      modifies this`entries
      ensures entries.Keys == old(entries.Keys)
      ensures forall g :: g in entries ==> Cleared(old(entries)[g], entries[g])
      ensures victim.Some? ==> victim.value in entries && !entries[victim.value].header.flags.pinned
      ensures victim.None? ==> entries == old(entries) && forall g :: g in entries ==> entries[g].header.flags.pinned
    {
      victim := None;
      var remaining := entries.Keys;
      while remaining != {} && victim.None?
        invariant entries.Keys == old(entries.Keys) && remaining <= entries.Keys
        invariant forall g :: g in entries ==> Cleared(old(entries)[g], entries[g])
        invariant victim.None? ==> entries == old(entries)
        invariant forall g :: g in entries && g !in remaining && victim.None? ==> entries[g].header.flags.pinned
        invariant victim.Some? ==> victim.value in entries && !entries[victim.value].header.flags.pinned
        decreases remaining
      {
        var h :| h in remaining;
        remaining := remaining - {h};
        var e := entries[h];
        if e.header.flags.active && !e.header.flags.pinned {
          entries := entries[h := Visited(e, false)];
          victim := Some(h);
        }
      }
    }

    /** Both passes: whatever the order of iteration, a visited entry is chosen only when there is no other. */
    method ChooseVictim() returns (victim: Option<Hash>)
      requires forall g :: g in entries ==> entries[g].header.flags.active
      modifies this`entries
      ensures entries.Keys == old(entries.Keys)
      ensures forall g :: g in entries ==> Cleared(old(entries)[g], entries[g])
      ensures victim.Some? ==> victim.value in entries && !old(entries)[victim.value].header.flags.pinned
      ensures victim.Some? && old(entries)[victim.value].header.flags.visited ==>
                forall g :: g in entries ==>
                  old(entries)[g].header.flags.pinned || (old(entries)[g].header.flags.visited && !entries[g].header.flags.visited)
      ensures victim.None? ==> forall g :: g in entries ==> old(entries)[g].header.flags.pinned
    {
      ghost var before := entries;
      victim := FirstPass();
      if victim.None? {
        ghost var scanned := entries;
        victim := SecondPass();
        forall g | g in entries ensures Cleared(before[g], entries[g]) {
          assert Cleared(before[g], scanned[g]) && Cleared(scanned[g], entries[g]);
        }
      }
    }

    /** Evicts one entry, or reports that nothing can be evicted. */
    method EvictOne() returns (evicted: bool)
      requires forall g :: g in entries ==> entries[g].header.flags.active && entries[g].header.hash == g
      modifies this`entries, this`used
      ensures evicted ==> exists victim :: EvictedOne(old(State()), State(), victim)
      ensures !evicted ==> State() == old(State()) && NothingEvictable(State())
    {
      if |entries| == 0 {
        assert entries == map[];
        return false;
      }
      ghost var before := State();
      var victim := ChooseVictim();
      if victim.None? {
        assert forall g :: g in entries ==> Cleared(before.entries[g], entries[g]);
        assert entries == before.entries;
        return false;
      }
      var e := entries[victim.value];
      assert Cleared(before.entries[victim.value], e);
      entries := entries - {e.header.hash};
      used := used - e.Size();
      assert EvictedOne(before, State(), victim.value);
      return true;
    }

    /** Evicts until `size` more bytes fit or nothing can be evicted. */
    method EnsureSpace(size: nat) returns (ok: bool)
      requires Valid()
      modifies this`entries, this`used
      ensures Valid() && Reclaimed(old(State()), State())
      ensures Needed(old(State()), State(), size)
      ensures ok <==> used + size <= ring.Length
      ensures !ok ==> NothingEvictable(State())
    {
      ghost var before := State();
      while used + size > ring.Length
        invariant Valid() && Reclaimed(before, State()) && Needed(before, State(), size)
        decreases |entries|
      {
        ghost var mid := State();
        var evicted := EvictOne();
        if !evicted {
          return false;
        }
        ghost var victim :| EvictedOne(mid, State(), victim);
        EvictionContinues(before, mid, State(), victim, size);
      }
      return true;
    }

    /** `copy` into the ring. */
    method Write(at: nat, bytes: seq<Byte>)
      requires at + |bytes| <= ring.Length
      modifies ring
      ensures ring[..] == Overwrite(old(ring[..]), at, bytes)
    {
      var i := 0;
      while i < |bytes|
        invariant 0 <= i <= |bytes|
        invariant forall k :: 0 <= k < i ==> ring[at + k] == bytes[k]
        invariant forall k :: 0 <= k < ring.Length && !(at <= k < at + i) ==> ring[k] == old(ring[k])
      {
        ring[at + i] := bytes[i];
        i := i + 1;
      }
    }

    method WriteEntry(at: nat, header: seq<Byte>, key: seq<Byte>, val: seq<Byte>)
      requires at + |header| + |key| + |val| <= ring.Length
      modifies ring
      ensures ring[..] == Overwrite(old(ring[..]), at, header + key + val)
    {
      Write(at, header);
      Write(at + |header|, key);
      OverwriteTwice(old(ring[..]), at, header, key);
      Write(at + |header| + |key|, val);
      OverwriteTwice(old(ring[..]), at, header + key, val);
    }

    method Set(h: Hash, key: seq<Byte>, val: seq<Byte>, ttlSet: bool, ttl: Uint32, now: Uint32) returns (r: SetResult)
      requires Valid()
      modifies this, ring
      ensures Valid() && Step(cfg, old(State()), RingRuns.Set(h, key, val, ttlSet, ttl, now, r), State())
    {
      if |key| > cfg.maxKeySize { return KeyTooLarge; }
      if |val| > cfg.maxValSize { return ValTooLarge; }
      ghost var before := State();
      if h in entries && entries[h].header.flags.active {
        var e := entries[h];
        if |val| <= e.header.valLen {
          UpdatedAccounted(before, h, val, ttlSet, ttl, now);
          Write(e.ValueStart(), val);
          var header := e.header.(valLen := |val|);
          if ttlSet {
            header := header.(ttl := ttl, createdAt := now);
          }
          entries := entries[h := e.(header := header)];
          assert State() == UpdatedInPlace(before, h, val, ttlSet, ttl, now);
          return Stored;
        }
        DeleteLocked(h);
      }
      BaseAccounted(before, h);
      assert State() == Base(before, h);
      r := Insert(h, key, val, ttl, now);
    }

    method Insert(h: Hash, key: seq<Byte>, val: seq<Byte>, ttl: Uint32, now: Uint32) returns (r: SetResult)
      requires Valid() && h !in entries
      modifies this, ring
      ensures Valid() && InsertStep(old(State()), h, key, val, ttl, now, State(), r)
      ensures r == Stored ==> h in entries && !entries[h].header.flags.visited && !entries[h].header.flags.evicted
    {
      ghost var before := State();
      var totalSize := HEADER_SIZE + |key| + |val|;
      var ok := EnsureSpace(totalSize);
      ghost var mid := State();
      if !ok {
        assert InsertVia(before, mid, h, key, val, ttl, now, State(), CacheFull);
        return CacheFull;
      }
      var offset := head;
      if offset + totalSize > ring.Length {
        offset := 0;
      }
      var header := NewHeader(h, key, val, ttl, now);
      WriteEntry(offset, EncodeHeader(header), key, val);
      head := offset + totalSize;
      used := used + totalSize;
      entries := entries[h := Entry(header, offset)];
      assert State() == Inserted(mid, h, key, val, ttl, now);
      InsertedAccounted(mid, h, key, val, ttl, now);
      assert InsertVia(before, mid, h, key, val, ttl, now, State(), Stored);
      return Stored;
    }
  }
}
