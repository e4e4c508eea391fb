/** `uniqueEnv` of `internal/cli/guardian_wake.go`: the last entry for every environment key. */
module UniqueEnv {
  import opened CommonSubsequence

  /** The part of an entry before its first `=`, or all of it. */
  function Key(entry: string): string {
    if entry == "" || entry[0] == '=' then "" else [entry[0]] + Key(entry[1..])
  }

  predicate HasKey(values: seq<string>, key: string) {
    exists k :: 0 <= k < |values| && Key(values[k]) == key
  }

  /** Drops every entry whose key occurs again later. */
  function LastOnly(values: seq<string>): seq<string> {
    if values == [] then []
    else if HasKey(values[1..], Key(values[0])) then LastOnly(values[1..])
    else [values[0]] + LastOnly(values[1..])
  }

  ghost predicate DistinctKeys(values: seq<string>) {
    forall i, j :: 0 <= i < j < |values| ==> Key(values[i]) != Key(values[j])
  }

  /** `at` is the last position of its key. */
  ghost predicate IsLast(values: seq<string>, at: nat) {
    at < |values| && forall k :: at < k < |values| ==> Key(values[k]) != Key(values[at])
  }

  /** The result reads off, in order, exactly the positions at which a key occurs for the last time. */
  lemma {:induction false} LastOnlyPositions(values: seq<string>) returns (at: seq<nat>)
    ensures Embeds(LastOnly(values), values, at)
    ensures forall k :: 0 <= k < |values| ==> (k in at <==> IsLast(values, k))
    decreases |values|
  {
    if values == [] {
      at := [];
    } else {
      var rest := LastOnlyPositions(values[1..]);
      at := seq(|rest|, k requires 0 <= k < |rest| => rest[k] + 1);
      Shifted(LastOnly(values[1..]), values, rest, at);
      ShiftedMembers(values, rest, at);
      HeadIsLast(values);
      if !HasKey(values[1..], Key(values[0])) {
        Prepended(LastOnly(values[1..]), values, at);
        at := [0] + at;
      }
    }
  }

  lemma HeadIsLast(values: seq<string>)
    requires values != []
    ensures IsLast(values, 0) <==> !HasKey(values[1..], Key(values[0]))
  {
    assert forall k :: 0 < k < |values| ==> values[k] == values[1..][k - 1];
    if HasKey(values[1..], Key(values[0])) {
      var k :| 0 <= k < |values[1..]| && Key(values[1..][k]) == Key(values[0]);
      assert values[k + 1] == values[1..][k];
    }
  }

  lemma Prepended(s: seq<string>, values: seq<string>, at: seq<nat>)
    requires values != [] && Embeds(s, values, at) && 0 !in at
    ensures Embeds([values[0]] + s, values, [0] + at)
  {
    assert forall k :: 0 <= k < |at| ==> at[k] in at;
  }

  lemma Shifted(s: seq<string>, values: seq<string>, rest: seq<nat>, at: seq<nat>)
    requires values != [] && Embeds(s, values[1..], rest)
    requires |at| == |rest| && forall k :: 0 <= k < |at| ==> at[k] == rest[k] + 1
    ensures Embeds(s, values, at)
  {}

  lemma ShiftedMembers(values: seq<string>, rest: seq<nat>, at: seq<nat>)
    requires values != [] && |at| == |rest| && forall k :: 0 <= k < |at| ==> at[k] == rest[k] + 1
    requires forall k :: 0 <= k < |values| - 1 ==> (k in rest <==> IsLast(values[1..], k))
    ensures forall k :: 0 < k < |values| ==> (k in at <==> IsLast(values, k))
    ensures 0 !in at
  {
    forall k | 0 < k < |values|
      ensures k in at <==> IsLast(values, k)
    {
      assert k in at <==> k - 1 in rest by {
        if k in at { var i :| 0 <= i < |at| && at[i] == k; assert rest[i] == k - 1; }
        if k - 1 in rest { var i :| 0 <= i < |rest| && rest[i] == k - 1; assert at[i] == k; }
      }
      assert forall l :: 0 < l < |values| ==> values[l] == values[1..][l - 1];
      if IsLast(values, k) {
        assert forall l :: k - 1 < l < |values[1..]| ==> values[1..][l] == values[l + 1];
      }
    }
  }

  /** Pairwise distinct keys, the same keys as before, and for each key its last entry. */
  lemma {:induction false} LastOnlyKeys(values: seq<string>)
    ensures DistinctKeys(LastOnly(values))
    ensures forall key :: HasKey(LastOnly(values), key) <==> HasKey(values, key)
    decreases |values|
  {
    if values != [] {
      LastOnlyKeys(values[1..]);
      forall key
        ensures HasKey(values, key) <==> Key(values[0]) == key || HasKey(values[1..], key)
      {
        HasKeyCons(values[0], values[1..], key);
        assert [values[0]] + values[1..] == values;
      }
      forall key
        ensures HasKey([values[0]] + LastOnly(values[1..]), key) <==> Key(values[0]) == key || HasKey(LastOnly(values[1..]), key)
      {
        HasKeyCons(values[0], LastOnly(values[1..]), key);
      }
      assert !HasKey(values[1..], Key(values[0])) ==> !HasKey(LastOnly(values[1..]), Key(values[0]));
    }
  }

  lemma HasKeyCons(v: string, values: seq<string>, key: string)
    ensures HasKey([v] + values, key) <==> Key(v) == key || HasKey(values, key)
  {
    if HasKey(values, key) {
      var k :| 0 <= k < |values| && Key(values[k]) == key;
      assert ([v] + values)[k + 1] == values[k];
    }
    if Key(v) == key {
      assert ([v] + values)[0] == v;
    }
  }

  lemma {:induction false} DistinctIsFixed(values: seq<string>)
    requires DistinctKeys(values)
    ensures LastOnly(values) == values
    decreases |values|
  {
    if values != [] {
      DistinctIsFixed(values[1..]);
    }
  }

  lemma Idempotent(values: seq<string>)
    ensures LastOnly(LastOnly(values)) == LastOnly(values)
  {
    LastOnlyKeys(values);
    DistinctIsFixed(LastOnly(values));
  }

  // ---- The two loops -------------------------------------------------------

  function Reversed(s: seq<string>): seq<string> {
    seq(|s|, k requires 0 <= k < |s| => s[|s| - 1 - k])
  }

  /** The in-place reversal at the end. */
  method ReverseInPlace(out: array<string>, n: nat)
    requires n <= out.Length
    modifies out
    ensures out[..n] == Reversed(old(out[..n]))
  {
    var i, j := 0, n - 1;
    while i < j
      invariant 0 <= i <= n && j == n - 1 - i && i <= j + 1
      invariant forall k :: 0 <= k < i ==> out[k] == old(out[n - 1 - k]) && out[n - 1 - k] == old(out[k])
      invariant forall k :: i <= k <= j ==> out[k] == old(out[k])
    {
      out[i], out[j] := out[j], out[i];
      i, j := i + 1, j - 1;
    }
  }

  method FindKey(entry: string) returns (key: string)
    ensures key == Key(entry)
    ensures key <= entry && '=' !in key && (|key| < |entry| ==> entry[|key|] == '=')
  {
    var n := 0;
    while n < |entry| && entry[n] != '='
      invariant 0 <= n <= |entry|
      invariant Key(entry) == entry[..n] + Key(entry[n..])
      invariant '=' !in entry[..n]
    {
      assert entry[n..][1..] == entry[n + 1..];
      assert entry[..n + 1] == entry[..n] + [entry[n]];
      n := n + 1;
    }
    key := entry[..n];
  }

  lemma LastOnlyStep(values: seq<string>, i: nat)
    requires i < |values|
    ensures LastOnly(values[i..]) ==
              if HasKey(values[i + 1..], Key(values[i])) then LastOnly(values[i + 1..]) else [values[i]] + LastOnly(values[i + 1..])
    ensures forall key :: HasKey(values[i..], key) <==> Key(values[i]) == key || HasKey(values[i + 1..], key)
  {
    assert values[i..][1..] == values[i + 1..];
    assert values[i..] == [values[i]] + values[i + 1..];
    forall key ensures HasKey(values[i..], key) <==> Key(values[i]) == key || HasKey(values[i + 1..], key) {
      HasKeyCons(values[i], values[i + 1..], key);
    }
  }

  lemma ReversedAppend(s: seq<string>, x: string)
    ensures Reversed(s + [x]) == [x] + Reversed(s)
  {}

  /** `uniqueEnv`: scans backwards keeping the first entry it meets for each key, then reverses what it kept. */
  method Unique(values: seq<string>) returns (result: seq<string>)
    ensures result == LastOnly(values)
  {
    var out := new string[|values|](_ => "");
    var n := 0;
    var seen: set<string> := {};
    var i := |values|;
    while i > 0
      invariant 0 <= i <= |values| && 0 <= n <= |values| - i
      invariant Reversed(out[..n]) == LastOnly(values[i..])
      invariant forall key :: key in seen <==> HasKey(values[i..], key)
    {
      i := i - 1;
      LastOnlyStep(values, i);
      var key := FindKey(values[i]);
      if key !in seen {
        seen := seen + {key};
        ReversedAppend(out[..n], values[i]);
        out[n] := values[i];
        n := n + 1;
        assert out[..n] == out[..n - 1] + [values[i]];
      }
    }
    ReverseInPlace(out, n);
    result := out[..n];
    assert values[0..] == values;
  }
}
