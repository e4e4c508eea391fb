/** Longest common subsequences, stated over all common subsequences of two sequences. */
module CommonSubsequence {

  ghost predicate Increasing(at: seq<nat>) {
    forall k, l :: 0 <= k < l < |at| ==> at[k] < at[l]
  }

  /** `at` picks, in order, the positions of `a` at which `s` is read off. */
  ghost predicate Embeds<T>(s: seq<T>, a: seq<T>, at: seq<nat>) {
    && |at| == |s|
    && Increasing(at)
    && forall k :: 0 <= k < |s| ==> at[k] < |a| && a[at[k]] == s[k]
  }

  ghost predicate IsSubsequence<T>(s: seq<T>, a: seq<T>) {
    exists at :: Embeds(s, a, at)
  }

  ghost predicate IsCommonSubsequence<T>(s: seq<T>, a: seq<T>, b: seq<T>) {
    IsSubsequence(s, a) && IsSubsequence(s, b)
  }

  /** `len` is the length of a longest common subsequence of `a` and `b`. */
  ghost predicate IsLongestCommonLength<T(!new)>(a: seq<T>, b: seq<T>, len: nat) {
    && (exists s :: IsCommonSubsequence(s, a, b) && |s| == len)
    && (forall s :: IsCommonSubsequence(s, a, b) ==> |s| <= len)
  }

  lemma EmbedsLonger<T>(s: seq<T>, a: seq<T>, at: seq<nat>, x: T)
    requires Embeds(s, a, at)
    ensures Embeds(s, a + [x], at)
  {}

  lemma EmbedsBoth<T>(s: seq<T>, a: seq<T>, at: seq<nat>, x: T)
    requires Embeds(s, a, at)
    ensures Embeds(s + [x], a + [x], at + [|a|])
  {}

  /** The recurrence over suffixes `a[i..]` and `b[j..]`. */
  ghost function Lcs<T>(a: seq<T>, b: seq<T>, i: nat, j: nat): nat
    requires i <= |a| && j <= |b|
    decreases |a| - i + |b| - j
  {
    if i == |a| || j == |b| then 0
    else if a[i] == b[j] then Lcs(a, b, i + 1, j + 1) + 1
    else if Lcs(a, b, i + 1, j) >= Lcs(a, b, i, j + 1) then Lcs(a, b, i + 1, j)
    else Lcs(a, b, i, j + 1)
  }

  /** No way of pairing up equal elements beats the recurrence. */
  lemma {:induction false} LcsBounds<T>(a: seq<T>, b: seq<T>, i: nat, j: nat, xs: seq<nat>, ys: seq<nat>)
    requires i <= |a| && j <= |b|
    requires |xs| == |ys| && Increasing(xs) && Increasing(ys)
    requires forall k :: 0 <= k < |xs| ==> i <= xs[k] < |a| && j <= ys[k] < |b| && a[xs[k]] == b[ys[k]]
    ensures |xs| <= Lcs(a, b, i, j)
    decreases |a| - i + |b| - j
  {
    if xs != [] {
      assert i <= xs[0] && j <= ys[0];
      if a[i] == b[j] {
        LcsBounds(a, b, i + 1, j + 1, xs[1..], ys[1..]);
      } else if i < xs[0] {
        LcsBounds(a, b, i + 1, j, xs, ys);
      } else {
        assert a[xs[0]] == b[ys[0]];
        LcsBounds(a, b, i, j + 1, xs, ys);
      }
    }
  }

  /** Some pairing reaches it. */
  lemma {:induction false} LcsReached<T>(a: seq<T>, b: seq<T>, i: nat, j: nat)
    returns (xs: seq<nat>, ys: seq<nat>)
    requires i <= |a| && j <= |b|
    ensures |xs| == |ys| == Lcs(a, b, i, j) && Increasing(xs) && Increasing(ys)
    ensures forall k :: 0 <= k < |xs| ==> i <= xs[k] < |a| && j <= ys[k] < |b| && a[xs[k]] == b[ys[k]]
    decreases |a| - i + |b| - j
  {
    if i == |a| || j == |b| {
      xs, ys := [], [];
    } else if a[i] == b[j] {
      xs, ys := LcsReached(a, b, i + 1, j + 1);
      xs, ys := [i] + xs, [j] + ys;
    } else if Lcs(a, b, i + 1, j) >= Lcs(a, b, i, j + 1) {
      xs, ys := LcsReached(a, b, i + 1, j);
    } else {
      xs, ys := LcsReached(a, b, i, j + 1);
    }
  }

  /** The recurrence at the origin is the length of a longest common subsequence. */
  lemma LcsIsLongest<T(!new)>(a: seq<T>, b: seq<T>)
    ensures IsLongestCommonLength(a, b, Lcs(a, b, 0, 0))
  {
    var xs, ys := LcsReached(a, b, 0, 0);
    var s := seq(|xs|, k requires 0 <= k < |xs| => a[xs[k]]);
    assert Embeds(s, a, xs) && Embeds(s, b, ys);
    assert IsCommonSubsequence(s, a, b) && |s| == Lcs(a, b, 0, 0);
    forall t | IsCommonSubsequence(t, a, b)
      ensures |t| <= Lcs(a, b, 0, 0)
    {
      var us :| Embeds(t, a, us);
      var vs :| Embeds(t, b, vs);
      LcsBounds(a, b, 0, 0, us, vs);
    }
  }
}
