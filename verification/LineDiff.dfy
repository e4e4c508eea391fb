/** The line diff of `internal/api/file_history.go`, and what a list of hunks means as a patch. */
module LineDiff {
  import opened CommonSubsequence
  import opened Text
  import opened Wrappers

  datatype LineHunk = LineHunk(
    fromStart: nat, fromCount: nat,
    toStart: nat, toCount: nat,
    removed: seq<string>, added: seq<string>)

  const MAX_DIFF_CELLS := 2_000_000

  // ---- Patches -------------------------------------------------------------

  /** How far a patch has been replayed: lines of the old text consumed, and the new text so far. */
  datatype Cursor = Refused | At(pos: nat, out: seq<string>)

  datatype Patched = Rejected | Patched(lines: seq<string>)

  /** The hunk can be applied next: counts match, it lies ahead of the cursor, its removed lines are the
      ones found there, and its 1-based position in the new text is where the new text has got to. */
  predicate Fits(from: seq<string>, c: Cursor, h: LineHunk)
    requires c.At?
  {
    && h.fromCount == |h.removed| && h.toCount == |h.added|
    && c.pos + 1 <= h.fromStart
    && h.fromStart - 1 + h.fromCount <= |from|
    && from[h.fromStart - 1..h.fromStart - 1 + h.fromCount] == h.removed
    && h.toStart - 1 == |c.out| + (h.fromStart - 1 - c.pos)
  }

  /** Copies the lines before the hunk, skips the removed ones and writes the added ones. */
  function Advance(from: seq<string>, c: Cursor, h: LineHunk): Cursor {
    if c.At? && Fits(from, c, h) then
      At(h.fromStart - 1 + h.fromCount, c.out + from[c.pos..h.fromStart - 1] + h.added)
    else
      Refused
  }

  function Replay(from: seq<string>, hunks: seq<LineHunk>): (c: Cursor)
    ensures c.At? ==> c.pos <= |from|
  {
    if hunks == [] then At(0, []) else Advance(from, Replay(from, hunks[..|hunks| - 1]), hunks[|hunks| - 1])
  }

  function Apply(from: seq<string>, hunks: seq<LineHunk>): Patched {
    var c := Replay(from, hunks);
    if c.At? then Patched(c.out + from[c.pos..]) else Rejected
  }

  function Reversed(h: LineHunk): LineHunk {
    LineHunk(h.toStart, h.toCount, h.fromStart, h.fromCount, h.added, h.removed)
  }

  function ReversedAll(hunks: seq<LineHunk>): seq<LineHunk> {
    seq(|hunks|, k requires 0 <= k < |hunks| => Reversed(hunks[k]))
  }

  function RemovedTotal(hunks: seq<LineHunk>): nat {
    if hunks == [] then 0 else RemovedTotal(hunks[..|hunks| - 1]) + hunks[|hunks| - 1].fromCount
  }

  function AddedTotal(hunks: seq<LineHunk>): nat {
    if hunks == [] then 0 else AddedTotal(hunks[..|hunks| - 1]) + hunks[|hunks| - 1].toCount
  }

  /** Every hunk changes something, and between two hunks at least one line is kept on both sides. */
  ghost predicate Separated(hunks: seq<LineHunk>) {
    && (forall k :: 0 <= k < |hunks| ==> hunks[k].removed != [] || hunks[k].added != [])
    && (forall k :: 0 < k < |hunks| ==>
          && hunks[k - 1].fromStart + hunks[k - 1].fromCount < hunks[k].fromStart
          && hunks[k - 1].toStart + hunks[k - 1].toCount < hunks[k].toStart)
  }

  /** `hunks` turns `from` into `to`, turns `to` back into `from` when reversed, and is laid out in order. */
  ghost predicate IsDiff(from: seq<string>, to: seq<string>, hunks: seq<LineHunk>) {
    && Apply(from, hunks) == Patched(to)
    && Apply(to, ReversedAll(hunks)) == Patched(from)
    && Separated(hunks)
  }

  lemma AdvanceReversed(from: seq<string>, to: seq<string>, c: Cursor, h: LineHunk, done: Cursor)
    requires c.At? && done.At? && done == Advance(from, c, h) && done.out <= to
    ensures c.pos <= |from| && done.pos <= |from|
    ensures Advance(to, At(|c.out|, from[..c.pos]), Reversed(h)) == At(|done.out|, from[..done.pos])
  {
    var kept, start := from[c.pos..h.fromStart - 1], h.toStart - 1;
    assert to[|c.out|..start] == kept by {
      assert to[|c.out|..start] == done.out[|c.out|..start];
    }
    assert to[start..start + h.toCount] == h.added by {
      assert to[start..start + h.toCount] == done.out[start..start + h.toCount];
    }
    assert from[..done.pos] == from[..c.pos] + kept + h.removed;
  }

  lemma {:induction false} ReplayReversed(from: seq<string>, to: seq<string>, hunks: seq<LineHunk>)
    requires Replay(from, hunks).At? && Replay(from, hunks).out <= to
    ensures Replay(to, ReversedAll(hunks)) == At(|Replay(from, hunks).out|, from[..Replay(from, hunks).pos])
    decreases |hunks|
  {
    if hunks != [] {
      var init, h := hunks[..|hunks| - 1], hunks[|hunks| - 1];
      var c, done := Replay(from, init), Replay(from, hunks);
      assert c.out <= done.out;
      ReplayReversed(from, to, init);
      var back := ReversedAll(hunks);
      assert back[..|back| - 1] == ReversedAll(init);
      AdvanceReversed(from, to, c, h, done);
    }
  }

  /** Reversing every hunk of any applicable patch undoes it. */
  lemma ReversedPatchUndoes(from: seq<string>, to: seq<string>, hunks: seq<LineHunk>)
    requires Apply(from, hunks) == Patched(to)
    ensures Apply(to, ReversedAll(hunks)) == Patched(from)
  {
    var c := Replay(from, hunks);
    assert to[..|c.out|] == c.out;
    ReplayReversed(from, to, hunks);
    assert to[|c.out|..] == from[c.pos..];
    assert from[..c.pos] + from[c.pos..] == from;
  }

  // ---- Shortest patches ----------------------------------------------------

  function Range(lo: nat, hi: nat): seq<nat>
    requires lo <= hi
  {
    seq(hi - lo, k => lo + k)
  }

  /** Positions `xs` of `a` and `ys` of `b` hold the same lines, in order. */
  ghost predicate Paired(a: seq<string>, b: seq<string>, xs: seq<nat>, ys: seq<nat>) {
    && |xs| == |ys| && Increasing(xs) && Increasing(ys)
    && forall k :: 0 <= k < |xs| ==> xs[k] < |a| && ys[k] < |b| && a[xs[k]] == b[ys[k]]
  }

  /** Copying a run of lines extends a pairing by that run. */
  lemma PairedExtends(a: seq<string>, b: seq<string>, kept: seq<string>, tail: seq<string>, skip: seq<string>,
                      xs: seq<nat>, ys: seq<nat>) returns (us: seq<nat>, vs: seq<nat>)
    requires Paired(a, b, xs, ys)
    ensures Paired(a + kept + skip, b + kept + tail, us, vs)
    ensures |us| == |xs| + |kept|
  {
    us, vs := xs + Range(|a|, |a| + |kept|), ys + Range(|b|, |b| + |kept|);
    var a', b' := a + kept + skip, b + kept + tail;
    forall k | 0 <= k < |us|
      ensures us[k] < |a'| && vs[k] < |b'| && a'[us[k]] == b'[vs[k]]
    {
      if k < |xs| {
        assert us[k] == xs[k] && vs[k] == ys[k];
      } else {
        assert a'[us[k]] == kept[k - |xs|] == b'[vs[k]];
      }
    }
  }

  lemma AdvanceKeeps(from: seq<string>, c: Cursor, h: LineHunk, xs: seq<nat>, ys: seq<nat>)
    returns (us: seq<nat>, vs: seq<nat>)
    requires c.At? && Fits(from, c, h) && Paired(from[..c.pos], c.out, xs, ys)
    ensures var done := Advance(from, c, h);
            && Paired(from[..done.pos], done.out, us, vs)
            && |us| == |xs| + h.fromStart - 1 - c.pos
  {
    var kept := from[c.pos..h.fromStart - 1];
    us, vs := PairedExtends(from[..c.pos], c.out, kept, h.added, h.removed, xs, ys);
    assert from[..c.pos] + kept + h.removed == from[..h.fromStart - 1 + h.fromCount];
  }

  /** The lines a patch keeps are a common subsequence of the old text and the new text so far. */
  lemma {:induction false} KeptLines(from: seq<string>, hunks: seq<LineHunk>)
    returns (xs: seq<nat>, ys: seq<nat>)
    requires Replay(from, hunks).At?
    ensures Paired(from[..Replay(from, hunks).pos], Replay(from, hunks).out, xs, ys)
    ensures |xs| == Replay(from, hunks).pos - RemovedTotal(hunks)
    ensures |ys| == |Replay(from, hunks).out| - AddedTotal(hunks)
    decreases |hunks|
  {
    if hunks == [] {
      xs, ys := [], [];
    } else {
      var init, h := hunks[..|hunks| - 1], hunks[|hunks| - 1];
      xs, ys := KeptLines(from, init);
      xs, ys := AdvanceKeeps(from, Replay(from, init), h, xs, ys);
    }
  }

  lemma PairedBounded(a: seq<string>, b: seq<string>, xs: seq<nat>, ys: seq<nat>)
    requires Paired(a, b, xs, ys)
    ensures |xs| <= Lcs(a, b, 0, 0)
  {
    LcsBounds(a, b, 0, 0, xs, ys);
  }

  /** What any patch from `from` to `to` leaves untouched. */
  lemma UntouchedLines(from: seq<string>, to: seq<string>, hunks: seq<LineHunk>)
    returns (xs: seq<nat>, ys: seq<nat>)
    requires Apply(from, hunks) == Patched(to)
    ensures Paired(from, to, xs, ys)
    ensures |xs| == |from| - RemovedTotal(hunks) == |to| - AddedTotal(hunks)
  {
    var c := Replay(from, hunks);
    xs, ys := KeptLines(from, hunks);
    xs, ys := PairedExtends(from[..c.pos], c.out, from[c.pos..], [], [], xs, ys);
    assert from[..c.pos] + from[c.pos..] + [] == from;
    assert c.out + from[c.pos..] + [] == to;
  }

  /** No patch from `from` to `to` removes or adds fewer lines than the longest common subsequence forces. */
  lemma PatchLowerBound(from: seq<string>, to: seq<string>, hunks: seq<LineHunk>)
    requires Apply(from, hunks) == Patched(to)
    ensures RemovedTotal(hunks) >= |from| - Lcs(from, to, 0, 0)
    ensures AddedTotal(hunks) >= |to| - Lcs(from, to, 0, 0)
  {
    var xs, ys := UntouchedLines(from, to, hunks);
    PairedBounded(from, to, xs, ys);
  }

  /** `hunks` removes and adds as few lines as any patch from `from` to `to` can. */
  ghost predicate IsShortest(from: seq<string>, to: seq<string>, hunks: seq<LineHunk>) {
    forall other :: Apply(from, other) == Patched(to) ==>
      RemovedTotal(hunks) <= RemovedTotal(other) && AddedTotal(hunks) <= AddedTotal(other)
  }

  lemma LcsPatchIsShortest(from: seq<string>, to: seq<string>, hunks: seq<LineHunk>)
    requires RemovedTotal(hunks) == |from| - Lcs(from, to, 0, 0)
    requires AddedTotal(hunks) == |to| - Lcs(from, to, 0, 0)
    ensures IsShortest(from, to, hunks)
  {
    forall other | Apply(from, other) == Patched(to)
      ensures RemovedTotal(hunks) <= RemovedTotal(other) && AddedTotal(hunks) <= AddedTotal(other)
    {
      PatchLowerBound(from, to, other);
    }
  }

  // ---- Which lines are kept ------------------------------------------------

  /** Positions of equal lines, in order, from `(i, j)` on. */
  ghost predicate PairedFrom(a: seq<string>, b: seq<string>, i: nat, j: nat, xs: seq<nat>, ys: seq<nat>) {
    && |xs| == |ys| && Increasing(xs) && Increasing(ys)
    && forall k :: 0 <= k < |xs| ==> i <= xs[k] < |a| && j <= ys[k] < |b| && a[xs[k]] == b[ys[k]]
  }

  /** The lines the walk keeps from `(i, j)` on: a match at once, and otherwise a line of the old text goes first whenever
      that costs nothing. */
  ghost function Kept(from: seq<string>, to: seq<string>, i: nat, j: nat): (seq<nat>, seq<nat>)
    requires i <= |from| && j <= |to|
    decreases |from| - i + |to| - j
  {
    if i == |from| || j == |to| then ([], [])
    else if from[i] == to[j] then
      var rest := Kept(from, to, i + 1, j + 1);
      ([i] + rest.0, [j] + rest.1)
    else if Lcs(from, to, i + 1, j) >= Lcs(from, to, i, j + 1) then Kept(from, to, i + 1, j)
    else Kept(from, to, i, j + 1)
  }

  lemma PairedCons(a: seq<string>, b: seq<string>, i: nat, j: nat, xs: seq<nat>, ys: seq<nat>)
    requires i < |a| && j < |b| && a[i] == b[j] && PairedFrom(a, b, i + 1, j + 1, xs, ys)
    ensures PairedFrom(a, b, i, j, [i] + xs, [j] + ys)
  {}

  lemma {:induction false} KeptIsLongest(from: seq<string>, to: seq<string>, i: nat, j: nat)
    requires i <= |from| && j <= |to|
    ensures PairedFrom(from, to, i, j, Kept(from, to, i, j).0, Kept(from, to, i, j).1)
    ensures |Kept(from, to, i, j).0| == Lcs(from, to, i, j)
    decreases |from| - i + |to| - j
  {
    if i < |from| && j < |to| {
      if from[i] == to[j] {
        KeptIsLongest(from, to, i + 1, j + 1);
        PairedCons(from, to, i, j, Kept(from, to, i + 1, j + 1).0, Kept(from, to, i + 1, j + 1).1);
      } else if Lcs(from, to, i + 1, j) >= Lcs(from, to, i, j + 1) {
        KeptIsLongest(from, to, i + 1, j);
      } else {
        KeptIsLongest(from, to, i, j + 1);
      }
    }
  }

  /** The first sequence comes before the second in the order of the dictionary, or is the same. */
  ghost predicate LexLeq(a: seq<nat>, b: seq<nat>) {
    a == b || exists t :: 0 <= t < |a| && t < |b| && a[..t] == b[..t] && a[t] < b[t]
  }

  lemma LexCons(x: nat, a: seq<nat>, b: seq<nat>)
    requires LexLeq(a, b)
    ensures LexLeq([x] + a, [x] + b)
  {
    if a != b {
      var t :| 0 <= t < |a| && t < |b| && a[..t] == b[..t] && a[t] < b[t];
      assert ([x] + a)[..t + 1] == [x] + a[..t] && ([x] + b)[..t + 1] == [x] + b[..t];
      assert ([x] + a)[t + 1] < ([x] + b)[t + 1];
    }
  }

  lemma {:induction false} FirstDifference(a: seq<nat>, b: seq<nat>) returns (t: nat)
    requires |a| == |b| && a != b
    ensures t < |a| && a[..t] == b[..t] && a[t] != b[t]
    decreases |a|
  {
    assert a == [a[0]] + a[1..] && b == [b[0]] + b[1..];
    if a[0] != b[0] {
      t := 0;
    } else {
      t := FirstDifference(a[1..], b[1..]);
      t := t + 1;
      assert a[..t] == [a[0]] + a[1..][..t - 1] && b[..t] == [b[0]] + b[1..][..t - 1];
    }
  }

  /** Two pairings cut and put together where the second lies beyond the first. */
  lemma Splice(a: seq<string>, b: seq<string>, i: nat, j: nat, xs: seq<nat>, ys: seq<nat>, n: nat, us: seq<nat>, vs: seq<nat>, m: nat)
    requires PairedFrom(a, b, i, j, xs, ys) && PairedFrom(a, b, i, j, us, vs) && n <= |xs| && m <= |us|
    requires n > 0 && m < |us| ==> xs[n - 1] < us[m] && ys[n - 1] < vs[m]
    ensures PairedFrom(a, b, i, j, xs[..n] + us[m..], ys[..n] + vs[m..])
  {
    SpliceIncreasing(xs, n, us, m);
    SpliceIncreasing(ys, n, vs, m);
  }

  lemma SpliceIncreasing(xs: seq<nat>, n: nat, us: seq<nat>, m: nat)
    requires Increasing(xs) && Increasing(us) && n <= |xs| && m <= |us| && (n > 0 && m < |us| ==> xs[n - 1] < us[m])
    ensures Increasing(xs[..n] + us[m..])
  {
    var all := xs[..n] + us[m..];
    forall k, l | 0 <= k < l < |all| ensures all[k] < all[l] {
      if k < n <= l {
        assert all[k] == xs[k] <= xs[n - 1] && us[m] <= us[l - n + m] == all[l];
      }
    }
  }

  /** Dropping a line that costs nothing: what the walk then keeps is as early as any pairing that used the line. */
  lemma Exchange(from: seq<string>, to: seq<string>, i: nat, j: nat, xs: seq<nat>, ys: seq<nat>, us: seq<nat>, vs: seq<nat>, t: nat)
    requires i < |from| && j <= |to| && PairedFrom(from, to, i, j, xs, ys) && PairedFrom(from, to, i + 1, j, us, vs)
    requires |xs| == |us| == Lcs(from, to, i, j) && t < |ys| && ys[..t] == vs[..t] && ys[t] < vs[t]
    ensures us[t] <= xs[t]
    ensures t > 0 ==> us[t - 1] < xs[t] && vs[t - 1] < ys[t]
  {
    if xs[t] < us[t] {
      Splice(from, to, i, j, xs, ys, t + 1, us, vs, t);
      LcsBounds(from, to, i, j, xs[..t + 1] + us[t..], ys[..t + 1] + vs[t..]);
    }
    if t > 0 {
      assert vs[t - 1] == vs[..t][t - 1] == ys[..t][t - 1] == ys[t - 1];
    }
  }

  lemma ExchangedStart(from: seq<string>, to: seq<string>, i: nat, j: nat, xs: seq<nat>, ys: seq<nat>, us: seq<nat>, vs: seq<nat>, t: nat)
    requires i < |from| && j <= |to| && PairedFrom(from, to, i, j, xs, ys) && PairedFrom(from, to, i + 1, j, us, vs)
    requires |xs| == |us| && t < |ys| && ys[..t] == vs[..t] && us[t] <= xs[t]
    requires t > 0 ==> us[t - 1] < xs[t] && vs[t - 1] < ys[t]
    ensures PairedFrom(from, to, i + 1, j, us[..t] + xs[t..], ys) && |us[..t] + xs[t..]| == |xs|
  {
    SpliceIncreasing(us, t, xs, t);
    var all := us[..t] + xs[t..];
    forall k | 0 <= k < |all| ensures i + 1 <= all[k] < |from| && from[all[k]] == to[ys[k]] {
      if k < t {
        assert ys[k] == ys[..t][k] == vs[..t][k] == vs[k];
      } else {
        assert xs[t] <= xs[k];
      }
    }
  }

  /** The walk keeps lines as early in the new text as any longest common subsequence does. */
  lemma {:induction false} KeptIsEarliest(from: seq<string>, to: seq<string>, i: nat, j: nat, xs: seq<nat>, ys: seq<nat>)
    requires i <= |from| && j <= |to| && PairedFrom(from, to, i, j, xs, ys) && |xs| == Lcs(from, to, i, j)
    ensures LexLeq(Kept(from, to, i, j).1, ys)
    decreases |from| - i + |to| - j
  {
    KeptIsLongest(from, to, i, j);
    if i < |from| && j < |to| {
      if from[i] == to[j] {
        EarliestAtMatch(from, to, i, j, xs, ys);
      } else if Lcs(from, to, i + 1, j) >= Lcs(from, to, i, j + 1) {
        if xs == [] || xs[0] > i {
          KeptIsEarliest(from, to, i + 1, j, xs, ys);
        } else {
          EarliestAtRemoval(from, to, i, j, xs, ys);
        }
      } else {
        if ys != [] && ys[0] == j {
          LcsBounds(from, to, i + 1, j, xs, ys);
        }
        KeptIsEarliest(from, to, i, j + 1, xs, ys);
      }
    }
  }

  lemma {:induction false} EarliestAtMatch(from: seq<string>, to: seq<string>, i: nat, j: nat, xs: seq<nat>, ys: seq<nat>)
    requires i < |from| && j < |to| && from[i] == to[j] && PairedFrom(from, to, i, j, xs, ys) && |xs| == Lcs(from, to, i, j)
    ensures LexLeq(Kept(from, to, i, j).1, ys)
    decreases |from| - i + |to| - j, 0
  {
    var kept := Kept(from, to, i, j).1;
    if ys[0] == j {
      KeptIsEarliest(from, to, i + 1, j + 1, xs[1..], ys[1..]);
      LexCons(j, Kept(from, to, i + 1, j + 1).1, ys[1..]);
      assert ys == [j] + ys[1..];
    } else {
      assert kept[..0] == ys[..0] && kept[0] < ys[0];
    }
  }

  lemma {:induction false} EarliestAtRemoval(from: seq<string>, to: seq<string>, i: nat, j: nat, xs: seq<nat>, ys: seq<nat>)
    requires i < |from| && j < |to| && from[i] != to[j] && Lcs(from, to, i + 1, j) >= Lcs(from, to, i, j + 1)
    requires PairedFrom(from, to, i, j, xs, ys) && |xs| == Lcs(from, to, i, j)
    ensures LexLeq(Kept(from, to, i, j).1, ys)
    decreases |from| - i + |to| - j, 0
  {
    var (us, vs) := Kept(from, to, i + 1, j);
    KeptIsLongest(from, to, i + 1, j);
    if vs != ys {
      var t := FirstDifference(vs, ys);
      if ys[t] < vs[t] {
        Exchange(from, to, i, j, xs, ys, us, vs, t);
        ExchangedStart(from, to, i, j, xs, ys, us, vs, t);
        KeptIsEarliest(from, to, i + 1, j, us[..t] + xs[t..], ys);
      }
    }
  }

  /** Some hunk adds line `y` of the new text. */
  ghost predicate AddedBy(hunks: seq<LineHunk>, y: nat) {
    exists k :: 0 <= k < |hunks| && hunks[k].toStart <= y + 1 < hunks[k].toStart + hunks[k].toCount
  }

  /** `ys` are the lines before `j` that no hunk adds, and no hunk reaches beyond. */
  ghost predicate Marks(hunks: seq<LineHunk>, ys: seq<nat>, j: nat) {
    && (forall k :: 0 <= k < |hunks| ==> hunks[k].toStart + hunks[k].toCount <= j + 1)
    && (forall y :: y in ys ==> y < j)
    && (forall y :: 0 <= y < j ==> (y in ys <==> !AddedBy(hunks, y)))
  }

  lemma MarksMatch(hunks: seq<LineHunk>, ys: seq<nat>, j: nat)
    requires Marks(hunks, ys, j)
    ensures Marks(hunks, ys + [j], j + 1)
  {}

  lemma MarksEmit(hunks: seq<LineHunk>, ys: seq<nat>, j0: nat, j: nat, h: LineHunk)
    requires Marks(hunks, ys, j0) && j0 <= j && h.toStart == j0 + 1 && h.toCount == j - j0
    ensures Marks(hunks + [h], ys, j)
  {
    var all := hunks + [h];
    forall y | 0 <= y < j ensures y in ys <==> !AddedBy(all, y) {
      if y >= j0 {
        assert all[|hunks|] == h;
        assert AddedBy(all, y);
      } else {
        if AddedBy(hunks, y) {
          var k :| 0 <= k < |hunks| && hunks[k].toStart <= y + 1 < hunks[k].toStart + hunks[k].toCount;
          assert all[k] == hunks[k];
        }
        if AddedBy(all, y) {
          var k :| 0 <= k < |all| && all[k].toStart <= y + 1 < all[k].toStart + all[k].toCount;
          assert all[k] == hunks[k];
        }
      }
    }
  }

  /** The walk so far has kept `ys`, and goes on as the walk from the start would. */
  ghost predicate Keeping(from: seq<string>, to: seq<string>, hunks: seq<LineHunk>, ys: seq<nat>, i: nat, j: nat) {
    && i <= |from| && j <= |to|
    && Marks(hunks, ys, j)
    && Kept(from, to, 0, 0).1 == ys + Kept(from, to, i, j).1
  }

  lemma KeepingStarts(from: seq<string>, to: seq<string>)
    ensures Keeping(from, to, [], [], 0, 0)
  {
    assert [] + Kept(from, to, 0, 0).1 == Kept(from, to, 0, 0).1;
  }

  lemma KeepingMatches(from: seq<string>, to: seq<string>, hunks: seq<LineHunk>, ys: seq<nat>, i: nat, j: nat)
    requires Keeping(from, to, hunks, ys, i, j) && Matches(from, to, i, j)
    ensures Keeping(from, to, hunks, ys + [j], i + 1, j + 1)
  {
    MarksMatch(hunks, ys, j);
    var rest := Kept(from, to, i + 1, j + 1).1;
    assert ys + ([j] + rest) == (ys + [j]) + rest;
  }

  lemma KeepingEmits(from: seq<string>, to: seq<string>, hunks: seq<LineHunk>, ys: seq<nat>, i0: nat, j0: nat, i: nat, j: nat, h: LineHunk)
    requires Keeping(from, to, hunks, ys, i0, j0) && i <= |from| && j0 <= j <= |to|
    requires h.toStart == j0 + 1 && h.toCount == j - j0 && Kept(from, to, i, j) == Kept(from, to, i0, j0)
    ensures Keeping(from, to, hunks + [h], ys, i, j)
  {
    MarksEmit(hunks, ys, j0, j, h);
  }

  lemma KeepingEnds(from: seq<string>, to: seq<string>, hunks: seq<LineHunk>, ys: seq<nat>)
    requires Keeping(from, to, hunks, ys, |from|, |to|)
    ensures Marks(hunks, Kept(from, to, 0, 0).1, |to|)
  {
    assert ys + [] == ys;
  }

  /** The lines that no hunk adds stand as early in the new text as in any longest common subsequence: where another one
      first differs, it comes later. */
  ghost predicate IsEarliest(from: seq<string>, to: seq<string>, hunks: seq<LineHunk>) {
    exists xs, ys ::
      && Marks(hunks, ys, |to|) && PairedFrom(from, to, 0, 0, xs, ys)
      && forall us, vs :: PairedFrom(from, to, 0, 0, us, vs) ==> |vs| <= |ys| && (|vs| == |ys| ==> LexLeq(ys, vs))
  }

  lemma KeptLinesAreEarliest(from: seq<string>, to: seq<string>, hunks: seq<LineHunk>)
    requires Marks(hunks, Kept(from, to, 0, 0).1, |to|)
    ensures IsEarliest(from, to, hunks)
  {
    var (xs, ys) := Kept(from, to, 0, 0);
    KeptIsLongest(from, to, 0, 0);
    forall us, vs | PairedFrom(from, to, 0, 0, us, vs)
      ensures |vs| <= |ys| && (|vs| == |ys| ==> LexLeq(ys, vs))
    {
      LcsBounds(from, to, 0, 0, us, vs);
      if |vs| == |ys| {
        KeptIsEarliest(from, to, 0, 0, us, vs);
      }
    }
  }

  // ---- The diff ------------------------------------------------------------

  /** Rows `i` and below hold the suffix lengths; the last column is zero throughout. */
  ghost predicate IsFilledFrom(lcs: array2<nat>, from: seq<string>, to: seq<string>, i: nat)
    reads lcs
  {
    && lcs.Length0 == |from| + 1 && lcs.Length1 == |to| + 1
    && (forall x, y {:trigger lcs[x, y]} :: i <= x <= |from| && 0 <= y <= |to| ==> lcs[x, y] == Lcs(from, to, x, y))
    && (forall x :: 0 <= x <= |from| ==> lcs[x, |to|] == 0)
  }

  ghost predicate IsTable(lcs: array2<nat>, from: seq<string>, to: seq<string>)
    reads lcs
  {
    IsFilledFrom(lcs, from, to, 0)
  }

  lemma TableAt(lcs: array2<nat>, from: seq<string>, to: seq<string>, i: nat, j: nat)
    requires IsTable(lcs, from, to) && i <= |from| && j <= |to|
    ensures lcs[i, j] == Lcs(from, to, i, j)
  {}

  method FillRow(lcs: array2<nat>, from: seq<string>, to: seq<string>, i: nat)
    requires i < |from| && IsFilledFrom(lcs, from, to, i + 1)
    modifies lcs
    ensures IsFilledFrom(lcs, from, to, i)
  {
    var j := |to|;
    while j > 0
      invariant 0 <= j <= |to|
      invariant IsFilledFrom(lcs, from, to, i + 1)
      invariant forall y :: j <= y <= |to| ==> lcs[i, y] == Lcs(from, to, i, y)
    {
      j := j - 1;
      assert lcs[i, j + 1] == Lcs(from, to, i, j + 1);
      if from[i] == to[j] {
        lcs[i, j] := lcs[i + 1, j + 1] + 1;
      } else if lcs[i + 1, j] >= lcs[i, j + 1] {
        lcs[i, j] := lcs[i + 1, j];
      } else {
        lcs[i, j] := lcs[i, j + 1];
      }
    }
  }

  /** Fills the table of suffix lengths bottom up. */
  method FillTable(from: seq<string>, to: seq<string>) returns (lcs: array2<nat>)
    ensures fresh(lcs) && IsTable(lcs, from, to)
  {
    lcs := new nat[|from| + 1, |to| + 1]((_, _) => 0);
    var i := |from|;
    while i > 0
      invariant 0 <= i <= |from| && IsFilledFrom(lcs, from, to, i)
    {
      i := i - 1;
      FillRow(lcs, from, to, i);
    }
  }

  /** `hunks` carries `from[..p]` into `to[..q]`, and its last hunk ends there. */
  ghost predicate Replayed(from: seq<string>, to: seq<string>, hunks: seq<LineHunk>, p: nat, q: nat) {
    && q <= |to|
    && Replay(from, hunks) == At(p, to[..q])
    && Separated(hunks)
    && (hunks != [] ==>
          && hunks[|hunks| - 1].fromStart + hunks[|hunks| - 1].fromCount == p + 1
          && hunks[|hunks| - 1].toStart + hunks[|hunks| - 1].toCount == q + 1)
  }

  /** The lines from `(p, q)` to `(i, j)` are equal on both sides. */
  ghost predicate Level(from: seq<string>, to: seq<string>, p: nat, q: nat, i: nat, j: nat) {
    p <= i <= |from| && q <= j <= |to| && i - p == j - q && from[p..i] == to[q..j]
  }

  lemma LevelMatches(from: seq<string>, to: seq<string>, p: nat, q: nat, i: nat, j: nat)
    requires Level(from, to, p, q, i, j) && Matches(from, to, i, j)
    ensures Level(from, to, p, q, i + 1, j + 1)
  {
    assert from[p..i + 1] == from[p..i] + [from[i]];
    assert to[q..j + 1] == to[q..j] + [to[j]];
  }

  lemma LevelHere(from: seq<string>, to: seq<string>, i: nat, j: nat)
    requires i <= |from| && j <= |to|
    ensures Level(from, to, i, j, i, j)
  {}

  lemma TotalsExtend(hunks: seq<LineHunk>, h: LineHunk)
    ensures RemovedTotal(hunks + [h]) == RemovedTotal(hunks) + h.fromCount
    ensures AddedTotal(hunks + [h]) == AddedTotal(hunks) + h.toCount
  {
    assert (hunks + [h])[..|hunks|] == hunks;
  }

  lemma SeparatedExtends(hunks: seq<LineHunk>, h: LineHunk)
    requires Separated(hunks) && (h.removed != [] || h.added != [])
    requires hunks != [] ==>
               && hunks[|hunks| - 1].fromStart + hunks[|hunks| - 1].fromCount < h.fromStart
               && hunks[|hunks| - 1].toStart + hunks[|hunks| - 1].toCount < h.toStart
    ensures Separated(hunks + [h])
  {
    var all := hunks + [h];
    forall k | 0 < k < |all|
      ensures all[k - 1].fromStart + all[k - 1].fromCount < all[k].fromStart
      ensures all[k - 1].toStart + all[k - 1].toCount < all[k].toStart
    {
      assert all[k - 1] == hunks[k - 1];
      assert k < |hunks| ==> all[k] == hunks[k];
    }
  }

  lemma AdvanceEmits(from: seq<string>, to: seq<string>, p: nat, q: nat,
                     i0: nat, j0: nat, i: nat, j: nat, h: LineHunk)
    requires Level(from, to, p, q, i0, j0) && i0 <= i <= |from| && j0 <= j <= |to|
    requires h == LineHunk(i0 + 1, i - i0, j0 + 1, j - j0, from[i0..i], to[j0..j])
    ensures Advance(from, At(p, to[..q]), h) == At(i, to[..j])
  {
    assert to[..j] == to[..q] + to[q..j0] + to[j0..j];
  }

  lemma ReplayExtends(from: seq<string>, hunks: seq<LineHunk>, h: LineHunk)
    ensures Replay(from, hunks + [h]) == Advance(from, Replay(from, hunks), h)
  {
    assert (hunks + [h])[..|hunks|] == hunks;
  }

  lemma ReplayedEmits(from: seq<string>, to: seq<string>, hunks: seq<LineHunk>, p: nat, q: nat,
                      i0: nat, j0: nat, i: nat, j: nat, h: LineHunk)
    requires Replayed(from, to, hunks, p, q) && Level(from, to, p, q, i0, j0)
    requires i0 <= i <= |from| && j0 <= j <= |to| && (i0 < i || j0 < j)
    requires hunks == [] || p < i0
    requires h == LineHunk(i0 + 1, i - i0, j0 + 1, j - j0, from[i0..i], to[j0..j])
    ensures Replayed(from, to, hunks + [h], i, j)
  {
    SeparatedExtends(hunks, h);
    AdvanceEmits(from, to, p, q, i0, j0, i, j, h);
    ReplayExtends(from, hunks, h);
  }

  lemma ReplayedEnds(from: seq<string>, to: seq<string>, hunks: seq<LineHunk>, p: nat, q: nat)
    requires Replayed(from, to, hunks, p, q) && Level(from, to, p, q, |from|, |to|)
    ensures IsDiff(from, to, hunks)
  {
    assert to[..q] + from[p..] == to;
    ReversedPatchUndoes(from, to, hunks);
  }

  predicate Matches(from: seq<string>, to: seq<string>, i: nat, j: nat) {
    i < |from| && j < |to| && from[i] == to[j]
  }

  /** The inner loop of the walk: consumes lines until the two sides agree again or both end. It gives up
      no common line, whichever side it advances. */
  method CollectHunk(lcs: array2<nat>, from: seq<string>, to: seq<string>, i0: nat, j0: nat)
    returns (i: nat, j: nat, removed: seq<string>, added: seq<string>)
    requires IsTable(lcs, from, to) && i0 <= |from| && j0 <= |to|
    requires (i0 < |from| || j0 < |to|) && !Matches(from, to, i0, j0)
    ensures i0 <= i <= |from| && j0 <= j <= |to| && (i0 < i || j0 < j)
    ensures removed == from[i0..i] && added == to[j0..j]
    ensures (i == |from| && j == |to|) || Matches(from, to, i, j)
    ensures Lcs(from, to, i, j) == Lcs(from, to, i0, j0)
    ensures Kept(from, to, i, j) == Kept(from, to, i0, j0)
  {
    var n, m := |from|, |to|;
    i, j, removed, added := i0, j0, [], [];
    while (i < n || j < m) && !(i < n && j < m && from[i] == to[j])
      invariant i0 <= i <= n && j0 <= j <= m
      invariant removed == from[i0..i] && added == to[j0..j]
      invariant i0 < i || j0 < j || !Matches(from, to, i, j)
      invariant Lcs(from, to, i, j) == Lcs(from, to, i0, j0)
      invariant Kept(from, to, i, j) == Kept(from, to, i0, j0)
      decreases n - i + m - j
    {
      if i < n && (j == m || lcs[i + 1, j] >= lcs[i, j + 1]) {
        if j < m {
          TableAt(lcs, from, to, i + 1, j);
          TableAt(lcs, from, to, i, j + 1);
        }
        assert Lcs(from, to, i, j) == Lcs(from, to, i + 1, j) && Kept(from, to, i, j) == Kept(from, to, i + 1, j);
        removed := removed + [from[i]];
        i := i + 1;
      } else if j < m {
        if i < n {
          TableAt(lcs, from, to, i + 1, j);
          TableAt(lcs, from, to, i, j + 1);
        }
        assert Lcs(from, to, i, j) == Lcs(from, to, i, j + 1) && Kept(from, to, i, j) == Kept(from, to, i, j + 1);
        added := added + [to[j]];
        j := j + 1;
      }
    }
  }

  /** The lines matched so far plus the best still to come are the best possible overall. */
  ghost predicate Balanced(from: seq<string>, to: seq<string>, hunks: seq<LineHunk>, i: nat, j: nat) {
    && i <= |from| && j <= |to|
    && i - RemovedTotal(hunks) + Lcs(from, to, i, j) == Lcs(from, to, 0, 0)
    && j - AddedTotal(hunks) == i - RemovedTotal(hunks)
  }

  /** Right behind a hunk the walk finds a match, or both texts are at their end. */
  predicate Resumes(from: seq<string>, to: seq<string>, hunks: seq<LineHunk>, p: nat, i: nat, j: nat) {
    hunks != [] && i == p ==> (i == |from| && j == |to|) || Matches(from, to, i, j)
  }

  lemma BalancedMatches(from: seq<string>, to: seq<string>, hunks: seq<LineHunk>, i: nat, j: nat)
    requires Balanced(from, to, hunks, i, j) && Matches(from, to, i, j)
    ensures Balanced(from, to, hunks, i + 1, j + 1)
  {}

  lemma BalancedEmits(from: seq<string>, to: seq<string>, hunks: seq<LineHunk>, i0: nat, j0: nat, i: nat, j: nat, h: LineHunk)
    requires Balanced(from, to, hunks, i0, j0) && i0 <= i <= |from| && j0 <= j <= |to|
    requires Lcs(from, to, i, j) == Lcs(from, to, i0, j0) && h.fromCount == i - i0 && h.toCount == j - j0
    ensures Balanced(from, to, hunks + [h], i, j)
  {
    TotalsExtend(hunks, h);
  }

  /** One turn of the outer loop of the walk at a mismatch: collects the next hunk and keeps the invariants. */
  method NextHunk(lcs: array2<nat>, from: seq<string>, to: seq<string>, i0: nat, j0: nat,
                  ghost hunks: seq<LineHunk>, ghost p: nat, ghost q: nat, ghost ys: seq<nat>)
    returns (i: nat, j: nat, h: LineHunk)
    requires i0 <= |from| && j0 <= |to| && IsTable(lcs, from, to)
    requires (i0 < |from| || j0 < |to|) && !Matches(from, to, i0, j0)
    requires Replayed(from, to, hunks, p, q) && Level(from, to, p, q, i0, j0)
    requires Balanced(from, to, hunks, i0, j0) && Resumes(from, to, hunks, p, i0, j0)
    requires Keeping(from, to, hunks, ys, i0, j0)
    ensures i0 <= i <= |from| && j0 <= j <= |to| && i0 + j0 < i + j
    ensures Replayed(from, to, hunks + [h], i, j) && Level(from, to, i, j, i, j)
    ensures Balanced(from, to, hunks + [h], i, j) && Resumes(from, to, hunks + [h], i, i, j)
    ensures Keeping(from, to, hunks + [h], ys, i, j)
  {
    var removed, added;
    i, j, removed, added := CollectHunk(lcs, from, to, i0, j0);
    h := LineHunk(i0 + 1, |removed|, j0 + 1, |added|, removed, added);
    ReplayedEmits(from, to, hunks, p, q, i0, j0, i, j, h);
    BalancedEmits(from, to, hunks, i0, j0, i, j, h);
    LevelHere(from, to, i, j);
    KeepingEmits(from, to, hunks, ys, i0, j0, i, j, h);
  }

  /** The walk over a filled table. */
  method WalkTable(lcs: array2<nat>, from: seq<string>, to: seq<string>) returns (hunks: seq<LineHunk>)
    requires IsTable(lcs, from, to)
    ensures IsDiff(from, to, hunks)
    ensures RemovedTotal(hunks) == |from| - Lcs(from, to, 0, 0)
    ensures AddedTotal(hunks) == |to| - Lcs(from, to, 0, 0)
    ensures Marks(hunks, Kept(from, to, 0, 0).1, |to|)
  {
    var n, m := |from|, |to|;
    hunks := [];
    var i, j := 0, 0;
    ghost var p, q := 0, 0;
    ghost var ys: seq<nat> := [];
    KeepingStarts(from, to);
    while i < n || j < m
      invariant 0 <= i <= n && 0 <= j <= m
      invariant Replayed(from, to, hunks, p, q)
      invariant Level(from, to, p, q, i, j)
      invariant Balanced(from, to, hunks, i, j)
      invariant Resumes(from, to, hunks, p, i, j)
      invariant Keeping(from, to, hunks, ys, i, j)
      decreases n - i + m - j
    {
      if i < n && j < m && from[i] == to[j] {
        LevelMatches(from, to, p, q, i, j);
        BalancedMatches(from, to, hunks, i, j);
        KeepingMatches(from, to, hunks, ys, i, j);
        ys := ys + [j];
        i := i + 1;
        j := j + 1;
      } else {
        var h;
        i, j, h := NextHunk(lcs, from, to, i, j, hunks, p, q, ys);
        hunks := hunks + [h];
        p, q := i, j;
      }
    }
    ReplayedEnds(from, to, hunks, p, q);
    KeepingEnds(from, to, hunks, ys);
  }

  /** The table branch: a correct patch that removes and adds as few lines as any patch can. */
  method TableDiff(from: seq<string>, to: seq<string>) returns (hunks: seq<LineHunk>)
    ensures IsDiff(from, to, hunks) && IsShortest(from, to, hunks) && IsEarliest(from, to, hunks)
    ensures exists len: nat :: IsLongestCommonLength(from, to, len)
              && RemovedTotal(hunks) == |from| - len && AddedTotal(hunks) == |to| - len
  {
    var lcs := FillTable(from, to);
    hunks := WalkTable(lcs, from, to);
    LcsIsLongest(from, to);
    LcsPatchIsShortest(from, to, hunks);
    KeptLinesAreEarliest(from, to, hunks);
  }

  /** What the two stripping loops leave: a common prefix and suffix that cannot be extended without overlap. */
  ghost predicate Stripped(from: seq<string>, to: seq<string>, prefix: nat, fromEnd: nat, toEnd: nat) {
    && prefix <= fromEnd <= |from| && prefix <= toEnd <= |to|
    && |from| - fromEnd == |to| - toEnd
    && from[..prefix] == to[..prefix]
    && from[fromEnd..] == to[toEnd..]
    && (prefix < |from| && prefix < |to| ==> from[prefix] != to[prefix])
    && (prefix < fromEnd && prefix < toEnd ==> from[fromEnd - 1] != to[toEnd - 1])
  }

  /** `StripCommon` is the shared head of `buildHunksFromCoarse` and `coarseLineDelta`. */
  method StripCommon(from: seq<string>, to: seq<string>) returns (prefix: nat, fromEnd: nat, toEnd: nat)
    ensures Stripped(from, to, prefix, fromEnd, toEnd)
  {
    prefix := 0;
    while prefix < |from| && prefix < |to| && from[prefix] == to[prefix]
      invariant prefix <= |from| && prefix <= |to|
      invariant from[..prefix] == to[..prefix]
    {
      prefix := prefix + 1;
    }
    fromEnd, toEnd := |from|, |to|;
    while fromEnd > prefix && toEnd > prefix && from[fromEnd - 1] == to[toEnd - 1]
      invariant prefix <= fromEnd <= |from| && prefix <= toEnd <= |to|
      invariant |from| - fromEnd == |to| - toEnd
      invariant from[fromEnd..] == to[toEnd..]
    {
      assert from[fromEnd - 1..] == [from[fromEnd - 1]] + from[fromEnd..];
      assert to[toEnd - 1..] == [to[toEnd - 1]] + to[toEnd..];
      fromEnd := fromEnd - 1;
      toEnd := toEnd - 1;
    }
  }

  lemma StrippedLevel(from: seq<string>, to: seq<string>, prefix: nat, fromEnd: nat, toEnd: nat)
    requires Stripped(from, to, prefix, fromEnd, toEnd)
    ensures Level(from, to, 0, 0, prefix, prefix) && Level(from, to, fromEnd, toEnd, |from|, |to|)
  {
    assert from[0..prefix] == to[0..prefix];
    assert from[fromEnd..|from|] == from[fromEnd..] == to[toEnd..] == to[toEnd..|to|];
  }

  lemma NothingReplayed(from: seq<string>, to: seq<string>)
    ensures Replayed(from, to, [], 0, 0)
  {}

  lemma StrippedIsDiff(from: seq<string>, to: seq<string>, prefix: nat, fromEnd: nat, toEnd: nat, h: LineHunk)
    requires Stripped(from, to, prefix, fromEnd, toEnd) && (prefix < fromEnd || prefix < toEnd)
    requires h == LineHunk(prefix + 1, fromEnd - prefix, prefix + 1, toEnd - prefix, from[prefix..fromEnd], to[prefix..toEnd])
    ensures IsDiff(from, to, [h]) && RemovedTotal([h]) == fromEnd - prefix && AddedTotal([h]) == toEnd - prefix
  {
    StrippedLevel(from, to, prefix, fromEnd, toEnd);
    NothingReplayed(from, to);
    ReplayedEmits(from, to, [], 0, 0, prefix, prefix, fromEnd, toEnd, h);
    TotalsExtend([], h);
    assert [] + [h] == [h];
    ReplayedEnds(from, to, [h], fromEnd, toEnd);
  }

  lemma StrippedDiffers(from: seq<string>, to: seq<string>, prefix: nat, fromEnd: nat, toEnd: nat)
    requires Stripped(from, to, prefix, fromEnd, toEnd) && (prefix < fromEnd || prefix < toEnd)
    ensures from != to
  {}

  lemma StrippedToNothing(from: seq<string>, to: seq<string>, prefix: nat)
    requires Stripped(from, to, prefix, prefix, prefix)
    ensures IsDiff(from, to, []) && from == to
  {
    assert from == from[..prefix] + from[prefix..] == to;
    NothingReplayed(from, to);
    ReplayedEnds(from, to, [], 0, 0);
  }

  /** The patch that replaces the stripped middle, or no hunk when there is none. */
  lemma StrippedPatch(from: seq<string>, to: seq<string>, prefix: nat, fromEnd: nat, toEnd: nat) returns (hunks: seq<LineHunk>)
    requires Stripped(from, to, prefix, fromEnd, toEnd)
    ensures IsDiff(from, to, hunks) && |hunks| <= 1
    ensures RemovedTotal(hunks) == fromEnd - prefix && AddedTotal(hunks) == toEnd - prefix
  {
    if prefix == fromEnd && prefix == toEnd {
      hunks := [];
      StrippedToNothing(from, to, prefix);
    } else {
      var h := LineHunk(prefix + 1, fromEnd - prefix, prefix + 1, toEnd - prefix, from[prefix..fromEnd], to[prefix..toEnd]);
      hunks := [h];
      StrippedIsDiff(from, to, prefix, fromEnd, toEnd, h);
    }
  }

  /** A one-hunk patch keeps a common prefix and a common suffix. */
  lemma SingleHunkShape(from: seq<string>, to: seq<string>, g: LineHunk)
    requires Apply(from, [g]) == Patched(to)
    ensures 1 <= g.fromStart && g.fromStart - 1 + g.fromCount <= |from|
    ensures |to| == |from| - g.fromCount + g.toCount
    ensures forall k :: 0 <= k < g.fromStart - 1 ==> from[k] == to[k]
    ensures forall k :: g.fromStart - 1 + g.fromCount <= k < |from| ==> from[k] == to[k + |to| - |from|]
  {
    assert [g][..0] == [];
    var c := Replay(from, [g]);
    assert Replay(from, []) == At(0, []);
    assert c == Advance(from, At(0, []), [g][0]);
  }

  /** No single-hunk patch is smaller than the stripped middle. */
  lemma StrippedIsSmallest(from: seq<string>, to: seq<string>, prefix: nat, fromEnd: nat, toEnd: nat, g: LineHunk)
    requires Stripped(from, to, prefix, fromEnd, toEnd)
    requires Apply(from, [g]) == Patched(to)
    ensures fromEnd - prefix <= g.fromCount && toEnd - prefix <= g.toCount
  {
    SingleHunkShape(from, to, g);
    assert prefix < fromEnd && prefix < toEnd ==> fromEnd <= g.fromStart - 1 + g.fromCount;
  }

  lemma StrippedIsSmallestAll(from: seq<string>, to: seq<string>, prefix: nat, fromEnd: nat, toEnd: nat)
    requires Stripped(from, to, prefix, fromEnd, toEnd)
    ensures forall g :: Apply(from, [g]) == Patched(to) ==> fromEnd - prefix <= g.fromCount && toEnd - prefix <= g.toCount
  {
    forall g | Apply(from, [g]) == Patched(to)
      ensures fromEnd - prefix <= g.fromCount && toEnd - prefix <= g.toCount
    {
      StrippedIsSmallest(from, to, prefix, fromEnd, toEnd, g);
    }
  }

  ghost predicate ShareLine(a: seq<string>, b: seq<string>) {
    exists x, y :: 0 <= x < |a| && 0 <= y < |b| && a[x] == b[y]
  }

  lemma {:induction false} LcsOfPrefix(from: seq<string>, to: seq<string>, i: nat)
    requires i <= |from| && i <= |to| && from[..i] == to[..i]
    ensures Lcs(from, to, 0, 0) == i + Lcs(from, to, i, i)
  {
    if i != 0 {
      assert from[..i - 1] == from[..i][..i - 1] == to[..i][..i - 1] == to[..i - 1];
      LcsOfPrefix(from, to, i - 1);
      assert from[i - 1] == from[..i][i - 1] == to[..i][i - 1] == to[i - 1];
    }
  }

  lemma {:induction false} LcsFits(from: seq<string>, to: seq<string>, i: nat, j: nat)
    requires i <= |from| && j <= |to|
    ensures Lcs(from, to, i, j) <= |from| - i && Lcs(from, to, i, j) <= |to| - j
    decreases |from| - i + |to| - j
  {
    if i < |from| && j < |to| {
      LcsFits(from, to, i + 1, j + 1);
      LcsFits(from, to, i + 1, j);
      LcsFits(from, to, i, j + 1);
    }
  }

  /** Middles without a line in common contribute nothing. */
  lemma {:induction false} LcsOfMiddles(from: seq<string>, to: seq<string>, i: nat, j: nat, fromEnd: nat, toEnd: nat)
    requires i <= fromEnd <= |from| && j <= toEnd <= |to| && |from| - fromEnd == |to| - toEnd
    requires forall x, y :: i <= x < fromEnd && j <= y < toEnd ==> from[x] != to[y]
    ensures Lcs(from, to, i, j) <= |from| - fromEnd
    decreases fromEnd - i + toEnd - j
  {
    LcsFits(from, to, i, j);
    if i < fromEnd && j < toEnd {
      LcsOfMiddles(from, to, i + 1, j, fromEnd, toEnd);
      LcsOfMiddles(from, to, i, j + 1, fromEnd, toEnd);
    }
  }

  lemma StrippedIsShortest(from: seq<string>, to: seq<string>, prefix: nat, fromEnd: nat, toEnd: nat, hunks: seq<LineHunk>)
    requires Stripped(from, to, prefix, fromEnd, toEnd)
    requires !ShareLine(from[prefix..fromEnd], to[prefix..toEnd])
    requires RemovedTotal(hunks) == fromEnd - prefix && AddedTotal(hunks) == toEnd - prefix
    ensures IsShortest(from, to, hunks)
  {
    forall x, y | prefix <= x < fromEnd && prefix <= y < toEnd ensures from[x] != to[y] {
      assert from[x] == from[prefix..fromEnd][x - prefix] && to[y] == to[prefix..toEnd][y - prefix];
    }
    LcsOfPrefix(from, to, prefix);
    LcsOfMiddles(from, to, prefix, prefix, fromEnd, toEnd);
    forall other | Apply(from, other) == Patched(to)
      ensures RemovedTotal(hunks) <= RemovedTotal(other) && AddedTotal(hunks) <= AddedTotal(other)
    {
      PatchLowerBound(from, to, other);
    }
  }

  /** A line `x` of the old middle that is line `y` of the new one can be kept by two hunks around it. */
  lemma KeepSharedLine(from: seq<string>, to: seq<string>, prefix: nat, fromEnd: nat, toEnd: nat, x: nat, y: nat)
    returns (other: seq<LineHunk>)
    requires Stripped(from, to, prefix, fromEnd, toEnd)
    requires prefix <= x < fromEnd && prefix <= y < toEnd && from[x] == to[y]
    ensures Apply(from, other) == Patched(to) && RemovedTotal(other) == fromEnd - prefix - 1
  {
    var before := LineHunk(prefix + 1, x - prefix, prefix + 1, y - prefix, from[prefix..x], to[prefix..y]);
    var after := LineHunk(x + 2, fromEnd - x - 1, y + 2, toEnd - y - 1, from[x + 1..fromEnd], to[y + 1..toEnd]);
    other := [before, after];
    StrippedLevel(from, to, prefix, fromEnd, toEnd);
    LevelHere(from, to, x, y);
    LevelMatches(from, to, x, y, x, y);
    ReplayTwo(from, to, prefix, x, y, fromEnd, toEnd, before, after);
    assert other == ([] + [before]) + [after];
    TotalsExtend([], before);
    TotalsExtend([] + [before], after);
    assert to[..toEnd] + from[fromEnd..] == to;
  }

  lemma ReplayTwo(from: seq<string>, to: seq<string>, prefix: nat, x: nat, y: nat, fromEnd: nat, toEnd: nat,
                  before: LineHunk, after: LineHunk)
    requires x < fromEnd <= |from| && y < toEnd <= |to| && prefix <= x && prefix <= y
    requires Level(from, to, 0, 0, prefix, prefix) && Level(from, to, x, y, x + 1, y + 1)
    requires before == LineHunk(prefix + 1, x - prefix, prefix + 1, y - prefix, from[prefix..x], to[prefix..y])
    requires after == LineHunk(x + 2, fromEnd - x - 1, y + 2, toEnd - y - 1, from[x + 1..fromEnd], to[y + 1..toEnd])
    ensures Replay(from, ([] + [before]) + [after]) == At(fromEnd, to[..toEnd])
  {
    NothingReplayed(from, to);
    AdvanceEmits(from, to, 0, 0, prefix, prefix, x, y, before);
    AdvanceEmits(from, to, x, y, x + 1, y + 1, fromEnd, toEnd, after);
    ReplayExtends(from, [], before);
    ReplayExtends(from, [] + [before], after);
  }

  /** The stripped middle is a shortest patch exactly when its two sides have no line in common. */
  lemma StrippedShortestIff(from: seq<string>, to: seq<string>, prefix: nat, fromEnd: nat, toEnd: nat, hunks: seq<LineHunk>)
    requires Stripped(from, to, prefix, fromEnd, toEnd)
    requires RemovedTotal(hunks) == fromEnd - prefix && AddedTotal(hunks) == toEnd - prefix
    ensures IsShortest(from, to, hunks) <==> !ShareLine(from[prefix..fromEnd], to[prefix..toEnd])
  {
    var a, b := from[prefix..fromEnd], to[prefix..toEnd];
    if ShareLine(a, b) {
      var x, y :| 0 <= x < |a| && 0 <= y < |b| && a[x] == b[y];
      var other := KeepSharedLine(from, to, prefix, fromEnd, toEnd, prefix + x, prefix + y);
    } else {
      StrippedIsShortest(from, to, prefix, fromEnd, toEnd, hunks);
    }
  }

  /** The fallback for large inputs: one hunk between the common prefix and the common suffix. It is a
      correct patch, no patch of a single hunk is smaller, and it is a shortest patch exactly when no line
      is both removed and added. */
  method CoarseDiff(from: seq<string>, to: seq<string>) returns (hunks: seq<LineHunk>)
    ensures IsDiff(from, to, hunks)
    ensures |hunks| <= 1 && (hunks == [] <==> from == to)
    ensures forall g :: hunks != [] && Apply(from, [g]) == Patched(to) ==>
              hunks[0].fromCount <= g.fromCount && hunks[0].toCount <= g.toCount
    ensures IsShortest(from, to, hunks) <==> hunks == [] || !ShareLine(hunks[0].removed, hunks[0].added)
  {
    var prefix, fromEnd, toEnd := StripCommon(from, to);
    if fromEnd == prefix && toEnd == prefix {
      StrippedToNothing(from, to, prefix);
      return [];
    }
    var h := LineHunk(prefix + 1, fromEnd - prefix, prefix + 1, toEnd - prefix, from[prefix..fromEnd], to[prefix..toEnd]);
    StrippedIsDiff(from, to, prefix, fromEnd, toEnd, h);
    StrippedDiffers(from, to, prefix, fromEnd, toEnd);
    StrippedIsSmallestAll(from, to, prefix, fromEnd, toEnd);
    StrippedShortestIff(from, to, prefix, fromEnd, toEnd, [h]);
    hunks := [h];
  }

  /** `coarseLineDelta`: the line counts of a smallest single-hunk patch, here shown as `hunks`. */
  method CoarseCounts(from: seq<string>, to: seq<string>) returns (added: nat, removed: nat, ghost hunks: seq<LineHunk>)
    ensures IsDiff(from, to, hunks) && |hunks| <= 1
    ensures AddedTotal(hunks) == added && RemovedTotal(hunks) == removed
    ensures forall g :: Apply(from, [g]) == Patched(to) ==> removed <= g.fromCount && added <= g.toCount
  {
    var prefix, fromEnd, toEnd := StripCommon(from, to);
    added, removed := toEnd - prefix, fromEnd - prefix;
    StrippedIsSmallestAll(from, to, prefix, fromEnd, toEnd);
    hunks := StrippedPatch(from, to, prefix, fromEnd, toEnd);
  }

  // ---- Texts ---------------------------------------------------------------

  predicate FitsTable(from: seq<string>, to: seq<string>) {
    (|from| + 1) * (|to| + 1) <= 2_000_000
  }

  /** What `lineDelta` promises about the lines of the two texts: the hunks carry the old lines into the new
      ones and back, in both branches; below the cell limit no patch whatsoever removes or adds fewer lines, and
      above it that holds exactly when the one hunk has no line on both sides. */
  ghost predicate IsLineDelta(from: seq<string>, to: seq<string>, hunks: seq<LineHunk>) {
    && IsDiff(from, to, hunks)
    && (FitsTable(from, to) ==>
          && IsShortest(from, to, hunks) && IsEarliest(from, to, hunks)
          && exists len: nat :: IsLongestCommonLength(from, to, len)
               && RemovedTotal(hunks) == |from| - len && AddedTotal(hunks) == |to| - len)
    && (!FitsTable(from, to) ==>
          && |hunks| <= 1
          && (IsShortest(from, to, hunks) <==> hunks == [] || !ShareLine(hunks[0].removed, hunks[0].added)))
  }

  method DiffLines(from: seq<string>, to: seq<string>) returns (hunks: seq<LineHunk>)
    ensures IsLineDelta(from, to, hunks)
  {
    if (|from| + 1) * (|to| + 1) > MAX_DIFF_CELLS {
      hunks := CoarseDiff(from, to);
    } else {
      hunks := TableDiff(from, to);
    }
  }

  /** Splits a text, applies a patch and joins the lines again. */
  function PatchText(text: string, hunks: seq<LineHunk>): Option<string> {
    var patched := Apply(SplitLines(text), hunks);
    if patched.Patched? && patched.lines != [] then Some(JoinLines(patched.lines)) else None
  }

  method LineDelta(from: string, to: string) returns (hunks: seq<LineHunk>)
    ensures IsLineDelta(SplitLines(from), SplitLines(to), hunks)
    ensures PatchText(from, hunks) == Some(to)
    ensures PatchText(to, ReversedAll(hunks)) == Some(from)
  {
    hunks := DiffLines(SplitLines(from), SplitLines(to));
    JoinSplit(from);
    JoinSplit(to);
  }
}
