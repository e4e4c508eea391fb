/** The 4-bit count-min sketch of `internal/cache/cache.go`. */
module CountMinSketch {

  const TWO_32 := 0x1_0000_0000
  const TWO_64 := 0x1_0000_0000_0000_0000
  const DEPTH := 4
  const SATURATED := 15

  type Hash = h: int | 0 <= h < 0x1_0000_0000_0000_0000

  // ---- Two counters in a byte ----------------------------------------------

  /** Odd counters live in the high half of their byte, even ones in the low half. */
  function Nibble(c: bv8, high: bool): bv8 {
    if high then (c >> 4) & 0x0f else c & 0x0f
  }

  function Value(c: bv8, high: bool): nat {
    Nibble(c, high) as nat
  }

  function Bumped(c: bv8, high: bool): bv8 {
    if high then
      var val := (c >> 4) & 0x0f;
      if val < 15 then (c & 0x0f) | ((val + 1) << 4) else c
    else
      var val := c & 0x0f;
      if val < 15 then (c & 0xf0) | (val + 1) else c
  }

  function Halved(c: bv8): bv8 {
    (c >> 1) & 0x77
  }

  function SatAdd(count: nat, hits: nat): nat {
    if count + hits < SATURATED then count + hits else SATURATED
  }

  lemma BumpedBits(c: bv8, high: bool)
    ensures Nibble(Bumped(c, high), !high) == Nibble(c, !high)
    ensures Nibble(c, high) < 15 ==> Nibble(Bumped(c, high), high) == Nibble(c, high) + 1
    ensures Nibble(c, high) == 15 ==> Nibble(Bumped(c, high), high) == 15
    ensures Nibble(c, high) <= 15
  {}

  lemma HalvedBits(c: bv8, high: bool)
    ensures Nibble(Halved(c), high) == Nibble(c, high) / 2
  {}

  lemma SmallValues(v: bv8)
    requires v <= 15
    ensures v as nat <= 15 && (v == 15 <==> v as nat == 15)
    ensures v < 15 ==> (v + 1) as nat == v as nat + 1
    ensures (v / 2) as nat == (v as nat) / 2
  {
    var n := v as nat;
    assert v == n as bv8;
    assert n == 0 || n == 1 || n == 2 || n == 3 || n == 4 || n == 5 || n == 6 || n == 7 || n == 8 || n == 9
        || n == 10 || n == 11 || n == 12 || n == 13 || n == 14 || n == 15;
  }

  /** A bump adds one to its own counter, up to fifteen, and leaves the neighbour alone. */
  lemma BumpedValue(c: bv8, high: bool)
    ensures Value(Bumped(c, high), high) == SatAdd(Value(c, high), 1)
    ensures Value(Bumped(c, high), !high) == Value(c, !high)
    ensures Value(c, high) <= SATURATED
  {
    BumpedBits(c, high);
    SmallValues(Nibble(c, high));
  }

  lemma HalvedValue(c: bv8, high: bool)
    ensures Value(Halved(c), high) == Value(c, high) / 2
  {
    HalvedBits(c, high);
    BumpedBits(c, high);
    SmallValues(Nibble(c, high));
  }

  // ---- The counters as numbers ---------------------------------------------

  /** The counter that `level` uses for `h`: 32-bit arithmetic, then the low bits that the mask keeps. */
  function Index(h: Hash, level: nat, width: nat): (idx: nat)
    requires width > 0
    ensures idx < width
  {
    ((h % TWO_32 + level * (h / TWO_32)) % TWO_32) % width
  }

  /** How many of the first `levels` levels of `h` fall on counter `idx`. */
  function Hits(h: Hash, idx: nat, width: nat, levels: nat): nat
    requires width > 0
  {
    if levels == 0 then 0
    else Hits(h, idx, width, levels - 1) + if Index(h, levels - 1, width) == idx then 1 else 0
  }

  function Incremented(cells: seq<nat>, h: Hash, levels: nat): seq<nat>
    requires cells != []
  {
    seq(|cells|, i requires 0 <= i < |cells| => SatAdd(cells[i], Hits(h, i, |cells|, levels)))
  }

  /** One more level bumps exactly the counter it falls on. */
  lemma IncrementedStep(cells: seq<nat>, h: Hash, level: nat)
    requires cells != []
    ensures var so := Incremented(cells, h, level);
            var idx := Index(h, level, |cells|);
            Incremented(cells, h, level + 1) == so[idx := SatAdd(so[idx], 1)]
  {}

  function Decayed(cells: seq<nat>): seq<nat> {
    seq(|cells|, i requires 0 <= i < |cells| => cells[i] / 2)
  }

  function EstimateOf(cells: seq<nat>, h: Hash, levels: nat): nat
    requires cells != []
  {
    if levels == 0 then SATURATED
    else
      var least := EstimateOf(cells, h, levels - 1);
      var val := cells[Index(h, levels - 1, |cells|)];
      if val < least then val else least
  }

  // ---- Runs ----------------------------------------------------------------

  datatype Op = Increment(h: Hash) | Reset

  function CellsAfter(ops: seq<Op>, width: nat): (cells: seq<nat>)
    requires width > 0
    ensures |cells| == width
  {
    if ops == [] then seq(width, _ => 0)
    else
      var before := CellsAfter(ops[..|ops| - 1], width);
      match ops[|ops| - 1]
      case Increment(h) => Incremented(before, h, DEPTH)
      case Reset => Decayed(before)
  }

  /** What an exact saturating, decaying counter for `h` alone would read. */
  function Count(ops: seq<Op>, h: Hash): nat {
    if ops == [] then 0
    else
      var before := Count(ops[..|ops| - 1], h);
      match ops[|ops| - 1]
      case Increment(g) => if g == h then SatAdd(before, 1) else before
      case Reset => before / 2
  }

  lemma {:induction false} OwnLevelHits(h: Hash, level: nat, width: nat, levels: nat)
    requires width > 0 && level < levels
    ensures Hits(h, Index(h, level, width), width, levels) >= 1
    decreases levels
  {
    if level < levels - 1 {
      OwnLevelHits(h, level, width, levels - 1);
    }
  }

  lemma {:induction false} CellsDominate(ops: seq<Op>, width: nat, h: Hash, level: nat)
    requires width > 0 && level < DEPTH
    ensures Count(ops, h) <= SATURATED
    ensures CellsAfter(ops, width)[Index(h, level, width)] >= Count(ops, h)
    decreases |ops|
  {
    if ops != [] {
      CellsDominate(ops[..|ops| - 1], width, h, level);
      OwnLevelHits(h, level, width, DEPTH);
    }
  }

  lemma {:induction false} EstimateIsLeast(cells: seq<nat>, h: Hash, levels: nat)
    requires cells != []
    ensures EstimateOf(cells, h, levels) <= SATURATED
    ensures forall l :: 0 <= l < levels ==> EstimateOf(cells, h, levels) <= cells[Index(h, l, |cells|)]
    ensures EstimateOf(cells, h, levels) == SATURATED
         || exists l :: 0 <= l < levels && EstimateOf(cells, h, levels) == cells[Index(h, l, |cells|)]
  {
    if levels > 0 {
      EstimateIsLeast(cells, h, levels - 1);
    }
  }

  /** In every run, whatever keys and levels collide, the estimate never falls below the exact count. */
  lemma NeverUnderestimates(ops: seq<Op>, width: nat, h: Hash)
    requires width > 0
    ensures EstimateOf(CellsAfter(ops, width), h, DEPTH) >= Count(ops, h)
  {
    EstimateIsLeast(CellsAfter(ops, width), h, DEPTH);
    forall level: nat | level < DEPTH
      ensures CellsAfter(ops, width)[Index(h, level, width)] >= Count(ops, h) && Count(ops, h) <= SATURATED
    {
      CellsDominate(ops, width, h, level);
    }
    CellsDominate(ops, width, h, 0);
  }

  /** Counter `idx` is used by `h` once and by no other key of the run. */
  ghost predicate Private(ops: seq<Op>, width: nat, h: Hash, idx: nat)
    requires width > 0
  {
    && Hits(h, idx, width, DEPTH) == 1
    && forall k :: 0 <= k < |ops| && ops[k].Increment? && ops[k].h != h ==> Hits(ops[k].h, idx, width, DEPTH) == 0
  }

  lemma {:induction false} PrivateCellIsExact(ops: seq<Op>, width: nat, h: Hash, idx: nat)
    requires width > 0 && idx < width && Private(ops, width, h, idx)
    ensures CellsAfter(ops, width)[idx] == Count(ops, h)
    decreases |ops|
  {
    if ops != [] {
      PrivateCellIsExact(ops[..|ops| - 1], width, h, idx);
      CellsDominate(ops[..|ops| - 1], width, h, 0);
    }
  }

  /** Without a collision on one level the estimate is exact. */
  lemma ExactWithoutCollision(ops: seq<Op>, width: nat, h: Hash, level: nat)
    requires width > 0 && level < DEPTH && Private(ops, width, h, Index(h, level, width))
    ensures EstimateOf(CellsAfter(ops, width), h, DEPTH) == Count(ops, h)
  {
    NeverUnderestimates(ops, width, h);
    PrivateCellIsExact(ops, width, h, Index(h, level, width));
    EstimateIsLeast(CellsAfter(ops, width), h, DEPTH);
  }

  /** Both together: never too low, and exact if some level is free of collisions. */
  lemma EstimateBounds(ops: seq<Op>, width: nat, h: Hash)
    requires width > 0
    ensures Count(ops, h) <= EstimateOf(CellsAfter(ops, width), h, DEPTH) <= SATURATED
    ensures forall l: nat :: l < DEPTH && Private(ops, width, h, Index(h, l, width)) ==>
              EstimateOf(CellsAfter(ops, width), h, DEPTH) == Count(ops, h)
  {
    NeverUnderestimates(ops, width, h);
    EstimateIsLeast(CellsAfter(ops, width), h, DEPTH);
    forall l: nat | l < DEPTH && Private(ops, width, h, Index(h, l, width))
      ensures EstimateOf(CellsAfter(ops, width), h, DEPTH) == Count(ops, h)
    {
      ExactWithoutCollision(ops, width, h, l);
    }
  }

  // ---- Width ---------------------------------------------------------------

  /** The width after `k` left shifts of a 32-bit one. */
  function Shifted(k: nat): (w: nat)
    ensures w < TWO_32
  {
    if k == 0 then 1
    else
      var doubled := 2 * Shifted(k - 1);
      if doubled < TWO_32 then doubled else doubled - TWO_32
  }

  /** A 32-bit power of two, or zero once the bit has been shifted out. */
  predicate IsWidth(w: nat) {
    || w == 0
    || w == 1 || w == 2 || w == 4 || w == 8 || w == 16 || w == 32 || w == 64 || w == 128
    || w == 256 || w == 512 || w == 0x400 || w == 0x800 || w == 0x1000 || w == 0x2000 || w == 0x4000 || w == 0x8000
    || w == 0x1_0000 || w == 0x2_0000 || w == 0x4_0000 || w == 0x8_0000 || w == 0x10_0000 || w == 0x20_0000 || w == 0x40_0000 || w == 0x80_0000
    || w == 0x100_0000 || w == 0x200_0000 || w == 0x400_0000 || w == 0x800_0000 || w == 0x1000_0000 || w == 0x2000_0000 || w == 0x4000_0000 || w == 0x8000_0000
  }

  lemma {:induction false} ShiftedIsWidth(k: nat)
    ensures IsWidth(Shifted(k))
  {
    if k != 0 {
      ShiftedIsWidth(k - 1);
    }
  }

  lemma ShiftedTop()
    ensures Shifted(31) == 0x8000_0000
  {
    assert Shifted(2) == 0x4;
    assert Shifted(4) == 0x10;
    assert Shifted(6) == 0x40;
    assert Shifted(8) == 0x100;
    assert Shifted(10) == 0x400;
    assert Shifted(12) == 0x1000;
    assert Shifted(14) == 0x4000;
    assert Shifted(16) == 0x1_0000;
    assert Shifted(18) == 0x4_0000;
    assert Shifted(20) == 0x10_0000;
    assert Shifted(22) == 0x40_0000;
    assert Shifted(24) == 0x100_0000;
    assert Shifted(26) == 0x400_0000;
    assert Shifted(28) == 0x1000_0000;
    assert Shifted(30) == 0x4000_0000;
  }

  /** The width loop ends exactly for 32-bit targets up to 2^31; beyond, the shifts reach zero and stay there. */
  lemma WidthLoopStops(target: nat)
    ensures (exists k :: Shifted(k) >= target) <==> target <= 0x8000_0000
  {
    ShiftedTop();
    forall k: nat ensures Shifted(k) <= 0x8000_0000 {
      ShiftedIsWidth(k);
    }
  }

  // ---- The counters of one key ---------------------------------------------

  /** Quotient and remainder are unique. */
  lemma ModUnique(w: nat, q: int, r: nat, q': int, r': nat)
    requires r < w && r' < w && w * q + r == w * q' + r'
    ensures r == r'
  {
    var d := q' - q;
    assert w * q' == w * q + w * d && w * (0 - d) == 0 - w * d;
    if d >= 1 {
      Grows(w, d);
    } else if d <= -1 {
      Grows(w, 0 - d);
    }
  }

  lemma Grows(w: nat, d: nat)
    requires d >= 1
    ensures w * d >= w
  {}

  lemma AddMultiple(x: nat, w: nat, k: nat)
    requires w > 0
    ensures (x + w * k) % w == x % w
  {
    var y := x + w * k;
    assert w * (x / w + k) == w * (x / w) + w * k;
    ModUnique(w, y / w, y % w, x / w + k, x % w);
  }

  /** A remainder by a multiple of `w` does not change the remainder by `w`. */
  lemma ModMod(x: nat, m: nat, w: nat, k: nat)
    requires w > 0 && k > 0 && m == w * k
    ensures (x % m) % w == x % w
  {
    var q := x / m;
    assert x == x % m + m * q;
    assert m * q == w * (k * q);
    AddMultiple(x % m, w, k * q);
  }

  lemma WidthDivides(w: nat) returns (k: nat)
    requires IsWidth(w) && w > 0
    ensures k > 0 && TWO_32 == w * k
  {
    k := TWO_32 / w;
  }

  lemma Wraps32(low: nat, high: nat, level: nat, width: nat, k: nat)
    requires width > 0 && k > 0 && TWO_32 == width * k
    ensures ((low + level * high) % TWO_32) % width == (low + TWO_32 * high + level * high) % width
  {
    var x := low + level * high;
    ModMod(x, TWO_32, width, k);
    assert TWO_32 * high == width * (k * high);
    AddMultiple(x, width, k * high);
  }

  /** The counters of a key are an arithmetic progression from its hash, in steps of the upper half of the hash: the
      32-bit arithmetic makes no difference. */
  lemma IndexIs(h: Hash, level: nat, width: nat)
    requires IsWidth(width) && width > 0
    ensures Index(h, level, width) == (h + level * (h / 0x1_0000_0000)) % width
  {
    var k := WidthDivides(width);
    Wraps32(h % TWO_32, h / TWO_32, level, width, k);
  }

  lemma OddStep(h: Hash, level: nat, width: nat)
    requires IsWidth(width) && width >= 4 && 0 < level < 4 && (h / TWO_32) % 2 == 1
    ensures Index(h, level, width) != Index(h, 0, width)
  {
    IndexIs(h, level, width);
    IndexIs(h, 0, width);
    SameModFour(h + level * (h / TWO_32), width);
    SameModFour(h, width);
    NotMultipleOfFour(h, level, h / TWO_32);
  }

  lemma SameModFour(x: nat, width: nat)
    requires IsWidth(width) && width >= 4
    ensures (x % width) % 4 == x % 4
  {
    var k := width / 4;
    assert width == 4 * k;
    ModMod(x, width, 4, k);
  }

  lemma NotMultipleOfFour(x: nat, level: nat, odd: nat)
    requires 0 < level < 4 && odd % 2 == 1
    ensures (x + level * odd) % 4 != x % 4
  {
    assert level == 1 || level == 2 || level == 3;
    assert level == 1 ==> level * odd == odd;
    assert level == 2 ==> level * odd == odd + odd;
    assert level == 3 ==> level * odd == odd + odd + odd;
  }

  /** A key with an odd upper half, alone in the sketch, is counted exactly: no other level falls on its first counter. */
  lemma AloneIsExact(ops: seq<Op>, width: nat, h: Hash)
    requires IsWidth(width) && width >= 4 && (h / 0x1_0000_0000) % 2 == 1
    requires forall k :: 0 <= k < |ops| && ops[k].Increment? ==> ops[k].h == h
    ensures EstimateOf(CellsAfter(ops, width), h, DEPTH) == Count(ops, h)
  {
    OddStep(h, 1, width);
    OddStep(h, 2, width);
    OddStep(h, 3, width);
    var idx := Index(h, 0, width);
    assert Hits(h, idx, width, 0) == 0;
    assert Hits(h, idx, width, 1) == 1;
    assert Hits(h, idx, width, 2) == 1;
    assert Hits(h, idx, width, 3) == 1;
    assert Hits(h, idx, width, DEPTH) == 1;
    ExactWithoutCollision(ops, width, h, 0);
  }

  // ---- The sketch ----------------------------------------------------------

  class Sketch {
    const width: nat
    const counters: array<bv8>
    /** Everything done to the sketch so far. */
    ghost var history: seq<Op>

    ghost predicate Shaped() {
      width >= 4 && width % 2 == 0 && counters.Length == width / 2
    }

    ghost predicate Valid()
      reads this, counters
    {
      Shaped() && IsWidth(width) && Cells() == CellsAfter(history, width)
    }

    ghost function Cells(): (cells: seq<nat>)
      requires Shaped()
      reads counters
      ensures |cells| == width
    {
      seq(width, i requires 0 <= i < width reads counters => Value(counters[i / 2], i % 2 == 1))
    }

    /** `newCountMinSketch`: the least power of two at or above four times the capacity in 32 bits, for every capacity
        for which the width loop ends. All counters are zero; when the product is zero there are none. */
    constructor (capacity: nat)
      requires 4 * capacity % TWO_32 <= 0x8000_0000
      ensures fresh(counters) && history == [] && IsWidth(width)
      ensures var target := 4 * capacity % TWO_32;
              if target == 0 then width == 1 && counters.Length == 0 else Valid() && target <= width < 2 * target
    {
      var target := 4 * capacity % TWO_32;
      var w := 1;
      while w < target
        invariant w >= 1 && IsWidth(w) && (w == 1 || w < 2 * target)
        invariant w > 1 ==> w % 2 == 0
        invariant w > 2 ==> w % 4 == 0
        decreases target - w
      {
        w := w * 2;
      }
      width := w;
      counters := new bv8[w / 2](_ => 0);
      history := [];
      new;
      assert target != 0 ==> forall i :: 0 <= i < width ==> Cells()[i] == 0;
    }

    method Increment(h: Hash)
      requires Valid()
      modifies this`history, counters
      ensures Valid() && history == old(history) + [Op.Increment(h)]
    {
      ghost var before := Cells();
      assert Cells() == Incremented(before, h, 0) by { SmallCells(); }
      var level := 0;
      while level < DEPTH
        invariant 0 <= level <= DEPTH
        invariant history == old(history) && Cells() == Incremented(before, h, level)
      {
        var idx := Index(h, level, width);
        label Before:
        counters[idx / 2] := Bumped(counters[idx / 2], idx % 2 == 1);
        CellBumped@Before(idx);
        IncrementedStep(before, h, level);
        level := level + 1;
      }
      history := history + [Op.Increment(h)];
      assert history[..|history| - 1] == old(history);
    }

    /** Every counter fits in four bits. */
    lemma SmallCells()
      requires Shaped()
      ensures forall i :: 0 <= i < width ==> Cells()[i] <= SATURATED
    {
      forall i | 0 <= i < width ensures Cells()[i] <= SATURATED {
        BumpedValue(counters[i / 2], i % 2 == 1);
      }
    }

    twostate lemma CellBumped(idx: nat)
      requires Shaped() && idx < width
      requires forall b :: 0 <= b < counters.Length && b != idx / 2 ==> counters[b] == old(counters[b])
      requires counters[idx / 2] == Bumped(old(counters[idx / 2]), idx % 2 == 1)
      ensures Cells() == old(Cells())[idx := SatAdd(old(Cells())[idx], 1)]
    {
      forall i | 0 <= i < width
        ensures Cells()[i] == if i == idx then SatAdd(old(Cells())[i], 1) else old(Cells())[i]
      {
        BumpedValue(old(counters[idx / 2]), idx % 2 == 1);
      }
    }

    /** The least counter of `h` over the levels; at least the exact count of `h`, and equal to it when some level
        of `h` collides with nothing. */
    method Estimate(h: Hash) returns (least: nat)
      requires Valid()
      ensures least == EstimateOf(Cells(), h, DEPTH)
      ensures Count(history, h) <= least <= SATURATED
      ensures forall l: nat :: l < DEPTH && Private(history, width, h, Index(h, l, width)) ==> least == Count(history, h)
      ensures (h / 0x1_0000_0000) % 2 == 1 && (forall k :: 0 <= k < |history| && history[k].Increment? ==> history[k].h == h) ==>
                least == Count(history, h)
    {
      EstimateBounds(history, width, h);
      if (h / 0x1_0000_0000) % 2 == 1 && forall k :: 0 <= k < |history| && history[k].Increment? ==> history[k].h == h {
        AloneIsExact(history, width, h);
      }
      least := LeastCounter(h);
    }

    /** The loop of `estimate`. */
    method LeastCounter(h: Hash) returns (least: nat)
      requires Shaped()
      ensures least == EstimateOf(Cells(), h, DEPTH)
    {
      least := SATURATED;
      var level := 0;
      while level < DEPTH
        invariant 0 <= level <= DEPTH
        invariant least == EstimateOf(Cells(), h, level)
      {
        var idx := Index(h, level, width);
        var val := Nibble(counters[idx / 2], idx % 2 == 1) as nat;
        assert val == Cells()[idx];
        if val < least {
          least := val;
        }
        level := level + 1;
      }
    }

    method Reset()
      requires Valid()
      modifies this`history, counters
      ensures Valid() && history == old(history) + [Op.Reset]
    {
      var i := 0;
      while i < counters.Length
        invariant 0 <= i <= counters.Length
        invariant forall b :: 0 <= b < i ==> counters[b] == Halved(old(counters[b]))
        invariant forall b :: i <= b < counters.Length ==> counters[b] == old(counters[b])
        invariant history == old(history)
      {
        counters[i] := Halved(counters[i]);
        i := i + 1;
      }
      forall j | 0 <= j < width ensures Cells()[j] == old(Cells())[j] / 2 {
        HalvedValue(old(counters[j / 2]), j % 2 == 1);
      }
      history := history + [Op.Reset];
      assert history[..|history| - 1] == old(history);
    }
  }
}
