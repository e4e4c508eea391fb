/** One shard of `internal/cache/cache.go` as a value: a directory of entries over a ring of bytes. */
module RingState {
  import opened CountMinSketch
  import opened Wrappers

  type Byte = b: int | 0 <= b < 256

  const HEADER_SIZE := 23

  datatype Flags = Flags(active: bool, visited: bool, pinned: bool, evicted: bool)

  datatype Header = Header(keyLen: nat, valLen: nat, hash: Hash, flags: Flags, createdAt: Uint32, ttl: Uint32)

  datatype Entry = Entry(header: Header, offset: nat) {
    function Size(): nat {
      HEADER_SIZE + header.keyLen + header.valLen
    }
    function ValueStart(): nat {
      offset + HEADER_SIZE + header.keyLen
    }
    function End(): nat {
      offset + Size()
    }
  }

  type Directory = map<Hash, Entry>

  datatype Shard = Shard(entries: Directory, ring: seq<Byte>, head: nat, used: int)

  // ---- Headers in the ring -------------------------------------------------

  function LittleEndian(n: nat, width: nat): (bytes: seq<Byte>)
    ensures |bytes| == width
  {
    if width == 0 then [] else [n % 256] + LittleEndian(n / 256, width - 1)
  }

  function FromLittleEndian(bytes: seq<Byte>): nat {
    if bytes == [] then 0 else bytes[0] + 256 * FromLittleEndian(bytes[1..])
  }

  function Pow256(k: nat): nat {
    if k == 0 then 1 else 256 * Pow256(k - 1)
  }

  lemma {:induction false} LittleEndianRoundTrip(n: nat, width: nat)
    requires n < Pow256(width)
    ensures FromLittleEndian(LittleEndian(n, width)) == n
  {
    if width != 0 {
      LittleEndianRoundTrip(n / 256, width - 1);
    }
  }

  function EncodeFlags(f: Flags): Byte {
    (if f.active then 1 else 0) + (if f.visited then 2 else 0) + (if f.pinned then 4 else 0) + (if f.evicted then 8 else 0)
  }

  function DecodeFlags(b: Byte): Flags {
    Flags(b % 2 == 1, (b / 2) % 2 == 1, (b / 4) % 2 == 1, (b / 8) % 2 == 1)
  }

  function EncodeHeader(h: Header): (bytes: seq<Byte>)
    ensures |bytes| == HEADER_SIZE
  {
    LittleEndian(h.keyLen, 2) + LittleEndian(h.valLen, 4) + LittleEndian(h.hash, 8) + [EncodeFlags(h.flags)]
      + LittleEndian(h.createdAt, 4) + LittleEndian(h.ttl, 4)
  }

  function DecodeHeader(b: seq<Byte>): Option<Header>
    requires |b| == HEADER_SIZE
  {
    var hash, createdAt, ttl := FromLittleEndian(b[6..14]), FromLittleEndian(b[15..19]), FromLittleEndian(b[19..23]);
    if hash < TWO_64 && createdAt < TWO_32 && ttl < TWO_32 then
      Some(Header(FromLittleEndian(b[..2]), FromLittleEndian(b[2..6]), hash, DecodeFlags(b[14]), createdAt, ttl))
    else None
  }

  lemma FlagsRoundTrip(f: Flags)
    ensures DecodeFlags(EncodeFlags(f)) == f
  {}

  lemma FieldsRoundTrip(h: Header)
    requires h.keyLen < 0x1_0000 && h.valLen < TWO_32
    ensures FromLittleEndian(LittleEndian(h.keyLen, 2)) == h.keyLen
    ensures FromLittleEndian(LittleEndian(h.valLen, 4)) == h.valLen
    ensures FromLittleEndian(LittleEndian(h.hash, 8)) == h.hash
    ensures FromLittleEndian(LittleEndian(h.createdAt, 4)) == h.createdAt
    ensures FromLittleEndian(LittleEndian(h.ttl, 4)) == h.ttl
  {
    assert Pow256(2) == 0x1_0000 && Pow256(4) == TWO_32 && Pow256(8) == TWO_64;
    LittleEndianRoundTrip(h.keyLen, 2);
    LittleEndianRoundTrip(h.valLen, 4);
    LittleEndianRoundTrip(h.hash, 8);
    LittleEndianRoundTrip(h.createdAt, 4);
    LittleEndianRoundTrip(h.ttl, 4);
  }

  /** A header whose fields fit their widths survives the ring encoding. */
  lemma HeaderRoundTrip(h: Header)
    requires h.keyLen < 0x1_0000 && h.valLen < TWO_32
    ensures DecodeHeader(EncodeHeader(h)) == Some(h)
  {
    FieldsRoundTrip(h);
    FlagsRoundTrip(h.flags);
    HeaderFields(LittleEndian(h.keyLen, 2), LittleEndian(h.valLen, 4), LittleEndian(h.hash, 8), [EncodeFlags(h.flags)],
                 LittleEndian(h.createdAt, 4), LittleEndian(h.ttl, 4));
  }

  lemma HeaderFields(a: seq<Byte>, b: seq<Byte>, c: seq<Byte>, d: seq<Byte>, e: seq<Byte>, f: seq<Byte>)
    requires |a| == 2 && |b| == 4 && |c| == 8 && |d| == 1 && |e| == 4 && |f| == 4
    ensures var all := a + b + c + d + e + f;
            all[..2] == a && all[2..6] == b && all[6..14] == c && all[14] == d[0] && all[15..19] == e && all[19..23] == f
  {}

  // ---- Bytes held by the directory -----------------------------------------

  ghost function LiveBytes(m: Directory): nat {
    if m == map[] then 0
    else var h :| h in m; m[h].Size() + LiveBytes(m - {h})
  }

  lemma {:induction false} LiveBytesWithout(m: Directory, h: Hash)
    requires h in m
    ensures LiveBytes(m) == m[h].Size() + LiveBytes(m - {h})
    decreases |m|
  {
    var g :| g in m && LiveBytes(m) == m[g].Size() + LiveBytes(m - {g});
    if g != h {
      LiveBytesWithout(m - {g}, h);
      LiveBytesWithout(m - {h}, g);
      assert m - {g} - {h} == m - {h} - {g};
    }
  }

  lemma {:induction false} LiveBytesSameSizes(m: Directory, m': Directory)
    requires m.Keys == m'.Keys && forall h :: h in m ==> m[h].Size() == m'[h].Size()
    ensures LiveBytes(m) == LiveBytes(m')
    decreases |m|
  {
    if m != map[] {
      var h :| h in m;
      LiveBytesWithout(m, h);
      LiveBytesWithout(m', h);
      LiveBytesSameSizes(m - {h}, m' - {h});
    } else {
      assert m' == map[];
    }
  }

  lemma LiveBytesWith(m: Directory, h: Hash, e: Entry)
    requires h !in m
    ensures LiveBytes(m[h := e]) == LiveBytes(m) + e.Size()
  {
    LiveBytesWithout(m[h := e], h);
    assert m[h := e] - {h} == m;
  }

  lemma {:induction false} LiveBytesMonotone(m: Directory, m': Directory)
    requires m.Keys <= m'.Keys && forall h :: h in m ==> m[h].Size() == m'[h].Size()
    ensures LiveBytes(m) <= LiveBytes(m')
    decreases |m'|
  {
    if m.Keys == m'.Keys {
      LiveBytesSameSizes(m, m');
    } else {
      var h :| h in m' && h !in m;
      LiveBytesWithout(m', h);
      LiveBytesMonotone(m, m' - {h});
    }
  }

  function PinnedOf(m: Directory): Directory {
    map h | h in m && m[h].header.flags.pinned :: m[h]
  }

  // ---- Steps ---------------------------------------------------------------

  function Overwrite(ring: seq<Byte>, at: nat, bytes: seq<Byte>): (r: seq<Byte>)
    requires at + |bytes| <= |ring|
    ensures |r| == |ring|
  {
    ring[..at] + bytes + ring[at + |bytes|..]
  }

  /** Bytes outside the written range stay. */
  lemma OverwriteKeeps(ring: seq<Byte>, at: nat, bytes: seq<Byte>, lo: nat, hi: nat)
    requires at + |bytes| <= |ring| && lo <= hi <= |ring|
    requires hi <= at || at + |bytes| <= lo
    ensures Overwrite(ring, at, bytes)[lo..hi] == ring[lo..hi]
  {}

  predicate InRing(s: Shard, e: Entry) {
    e.End() <= |s.ring|
  }

  function ValueOf(s: Shard, e: Entry): seq<Byte>
    requires InRing(s, e)
  {
    s.ring[e.ValueStart()..e.ValueStart() + e.header.valLen]
  }

  type Uint32 = n: int | 0 <= n < 0x1_0000_0000

  /** Elapsed seconds in 32-bit arithmetic, wrapping when the clock is behind. */
  function Elapsed(e: Entry, now: Uint32): Uint32 {
    if now >= e.header.createdAt then now - e.header.createdAt else now - e.header.createdAt + TWO_32
  }

  predicate Expired(e: Entry, now: Uint32) {
    e.header.ttl > 0 && Elapsed(e, now) >= e.header.ttl
  }

  function Without(s: Shard, h: Hash): Shard
    requires h in s.entries
  {
    s.(entries := s.entries - {h}, used := s.used - s.entries[h].Size())
  }

  function Visited(e: Entry, visited: bool): Entry {
    e.(header := e.header.(flags := e.header.flags.(visited := visited)))
  }

  function Looked(s: Shard, h: Hash, now: Uint32): (Shard, Option<seq<Byte>>)
    requires h in s.entries ==> InRing(s, s.entries[h])
  {
    if h !in s.entries || !s.entries[h].header.flags.active then (s, None)
    else if Expired(s.entries[h], now) then (Without(s, h), None)
    else (s.(entries := s.entries[h := Visited(s.entries[h], true)]), Some(ValueOf(s, s.entries[h])))
  }

  predicate FitsInPlace(s: Shard, h: Hash, val: seq<Byte>) {
    h in s.entries && s.entries[h].header.flags.active && |val| <= s.entries[h].header.valLen
  }

  function UpdatedInPlace(s: Shard, h: Hash, val: seq<Byte>, ttlSet: bool, ttl: Uint32, now: Uint32): Shard
    requires FitsInPlace(s, h, val) && InRing(s, s.entries[h])
  {
    var e := s.entries[h];
    var header := if ttlSet then e.header.(valLen := |val|, ttl := ttl, createdAt := now) else e.header.(valLen := |val|);
    s.(entries := s.entries[h := e.(header := header)], ring := Overwrite(s.ring, e.ValueStart(), val))
  }

  function SizeFor(key: seq<Byte>, val: seq<Byte>): nat {
    HEADER_SIZE + |key| + |val|
  }

  /** Where the next entry goes: at the head, or at the start when it would run off the end. */
  function Target(s: Shard, size: nat): nat {
    if s.head + size > |s.ring| then 0 else s.head
  }

  function NewHeader(h: Hash, key: seq<Byte>, val: seq<Byte>, ttl: Uint32, now: Uint32): Header {
    Header(|key|, |val|, h, Flags(true, false, false, false), now, ttl)
  }

  function Inserted(s: Shard, h: Hash, key: seq<Byte>, val: seq<Byte>, ttl: Uint32, now: Uint32): Shard
    requires SizeFor(key, val) <= |s.ring|
  {
    var header := NewHeader(h, key, val, ttl, now);
    var at := Target(s, SizeFor(key, val));
    Shard(s.entries[h := Entry(header, at)],
          Overwrite(s.ring, at, EncodeHeader(header) + key + val),
          at + SizeFor(key, val),
          s.used + SizeFor(key, val))
  }

  /** `e'` is `e` with its visited mark possibly cleared; a pinned entry is not touched. */
  predicate Cleared(e: Entry, e': Entry) {
    e' == e || (!e.header.flags.pinned && e' == Visited(e, false))
  }

  /** One eviction: exactly one entry goes, it is not pinned, and it is a visited one only when every entry
      that is not pinned has been visited, and then every mark is cleared. */
  ghost predicate EvictedOne(s: Shard, s': Shard, victim: Hash) {
    && victim in s.entries && !s.entries[victim].header.flags.pinned
    && (s.entries[victim].header.flags.visited ==>
          forall g :: g in s.entries ==> s.entries[g].header.flags.pinned || s.entries[g].header.flags.visited)
    && s'.entries.Keys == s.entries.Keys - {victim}
    && (forall g :: g in s'.entries ==> Cleared(s.entries[g], s'.entries[g]))
    && (s.entries[victim].header.flags.visited ==>
          forall g :: g in s'.entries && !s'.entries[g].header.flags.pinned ==> !s'.entries[g].header.flags.visited)
    && s'.used == s.used - s.entries[victim].Size()
    && s'.ring == s.ring && s'.head == s.head
  }

  /** Some entries are gone, none is new, and the ring is as it was. */
  ghost predicate Thinned(s: Shard, s': Shard) {
    && s'.entries.Keys <= s.entries.Keys
    && (forall g :: g in s'.entries ==> Cleared(s.entries[g], s'.entries[g]))
    && s'.ring == s.ring && s'.head == s.head
  }

  /** The net effect of any number of evictions: no pinned entry is gone, and what the others held is free. */
  ghost predicate Reclaimed(s: Shard, s': Shard) {
    && Thinned(s, s')
    && (forall g :: g in s.entries && g !in s'.entries ==> !s.entries[g].header.flags.pinned)
    && s.used - LiveBytes(s.entries) == s'.used - LiveBytes(s'.entries)
  }

  lemma EvictedOneReclaims(s: Shard, mid: Shard, s': Shard, victim: Hash)
    requires Reclaimed(s, mid) && EvictedOne(mid, s', victim)
    ensures Reclaimed(s, s')
    ensures |s'.entries| == |mid.entries| - 1
  {
    LiveBytesWithout(mid.entries, victim);
    LiveBytesSameSizes(mid.entries - {victim}, s'.entries);
    assert |mid.entries.Keys - {victim}| == |mid.entries.Keys| - 1;
  }

  ghost predicate NothingEvictable(s: Shard) {
    forall g :: g in s.entries ==> s.entries[g].header.flags.pinned
  }

  datatype SetResult = Stored | KeyTooLarge | ValTooLarge | CacheFull

  /** The configured limits; key lengths are stored in 16 bits and value lengths in 32. */
  datatype Config = Config(maxKeySize: nat, maxValSize: nat) {
    predicate Valid() {
      maxKeySize < 0x1_0000 && maxValSize < TWO_32
    }
  }

  /** Eviction goes no further than it must: if anything went, the last one to go was needed for `size` bytes. */
  ghost predicate Needed(s: Shard, s': Shard, size: nat) {
    && (s'.entries.Keys == s.entries.Keys ==> s' == s)
    && (s'.entries.Keys != s.entries.Keys ==>
          exists last :: last in s.entries && last !in s'.entries && s'.used + s.entries[last].Size() + size > |s.ring|)
  }

  /** Insertion by way of the state `mid` that eviction leaves. */
  ghost predicate InsertVia(base: Shard, mid: Shard, h: Hash, key: seq<Byte>, val: seq<Byte>, ttl: Uint32, now: Uint32,
                            s': Shard, r: SetResult)
  {
    && Reclaimed(base, mid) && Needed(base, mid, SizeFor(key, val))
    && if mid.used + SizeFor(key, val) <= |mid.ring|
       then r == Stored && SizeFor(key, val) <= |mid.ring| && s' == Inserted(mid, h, key, val, ttl, now)
       else r == CacheFull && s' == mid && NothingEvictable(mid)
  }

  ghost predicate InsertStep(base: Shard, h: Hash, key: seq<Byte>, val: seq<Byte>, ttl: Uint32, now: Uint32,
                             s': Shard, r: SetResult)
  {
    exists mid :: InsertVia(base, mid, h, key, val, ttl, now, s', r)
  }

  /** The state `Set` inserts into when it cannot update in place. */
  function Base(s: Shard, h: Hash): Shard {
    if h in s.entries && s.entries[h].header.flags.active then Without(s, h) else s
  }

  ghost predicate SetStep(cfg: Config, s: Shard, h: Hash, key: seq<Byte>, val: seq<Byte>, ttlSet: bool, ttl: Uint32, now: Uint32,
                          s': Shard, r: SetResult)
  {
    if |key| > cfg.maxKeySize then s' == s && r == KeyTooLarge
    else if |val| > cfg.maxValSize then s' == s && r == ValTooLarge
    else if FitsInPlace(s, h, val) then
      r == Stored && InRing(s, s.entries[h]) && s' == UpdatedInPlace(s, h, val, ttlSet, ttl, now)
    else InsertStep(Base(s, h), h, key, val, ttl, now, s', r)
  }
}
