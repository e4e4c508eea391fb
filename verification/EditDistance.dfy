/** Levenshtein distance and command suggestion of `internal/cli/cli.go`. In scripts and distances a
    `char` stands for one byte. */
module EditDistance {
  import Text

  // ---- Edit scripts --------------------------------------------------------

  datatype Edit = Insert(at: nat, c: char) | Delete(at: nat) | Substitute(at: nat, c: char)

  predicate Applicable(e: Edit, s: string) {
    match e
    case Insert(at, _) => at <= |s|
    case Delete(at) => at < |s|
    case Substitute(at, _) => at < |s|
  }

  function Perform(e: Edit, s: string): string
    requires Applicable(e, s)
  {
    match e
    case Insert(at, c) => s[..at] + [c] + s[at..]
    case Delete(at) => s[..at] + s[at + 1..]
    case Substitute(at, c) => s[..at] + [c] + s[at + 1..]
  }

  /** Performing the edits one after the other turns `a` into `b`. */
  predicate Transforms(script: seq<Edit>, a: string, b: string) {
    if script == [] then a == b
    else Applicable(script[0], a) && Transforms(script[1..], Perform(script[0], a), b)
  }

  lemma TransformsCons(e: Edit, p: seq<Edit>, a: string, b: string)
    requires Applicable(e, a) && Transforms(p, Perform(e, a), b)
    ensures Transforms([e] + p, a, b)
  {
    assert ([e] + p)[1..] == p;
  }

  lemma {:induction false} TransformsConcat(p: seq<Edit>, q: seq<Edit>, a: string, b: string, c: string)
    requires Transforms(p, a, b) && Transforms(q, b, c)
    ensures Transforms(p + q, a, c)
    decreases |p|
  {
    if p == [] {
      assert p + q == q;
    } else {
      TransformsConcat(p[1..], q, Perform(p[0], a), b, c);
      ConcatTail(p, q);
    }
  }

  lemma ConcatTail(p: seq<Edit>, q: seq<Edit>)
    requires p != []
    ensures p + q != [] && (p + q)[0] == p[0] && (p + q)[1..] == p[1..] + q
  {}

  lemma TransformsThen(p: seq<Edit>, e: Edit, a: string, mid: string, b: string)
    requires Transforms(p, a, mid) && Applicable(e, mid) && Perform(e, mid) == b
    ensures Transforms(p + [e], a, b)
  {
    assert Transforms([], b, b);
    TransformsCons(e, [], mid, b);
    assert [e] + [] == [e];
    TransformsConcat(p, [e], a, mid, b);
  }

  lemma PerformBefore(e: Edit, a: string, x: char)
    requires Applicable(e, a)
    ensures Applicable(e, a + [x]) && Perform(e, a + [x]) == Perform(e, a) + [x]
  {}

  /** A script also works in front of one more character. */
  lemma {:induction false} TransformsBefore(p: seq<Edit>, a: string, b: string, x: char)
    requires Transforms(p, a, b)
    ensures Transforms(p, a + [x], b + [x])
    decreases |p|
  {
    if p != [] {
      TransformsBefore(p[1..], Perform(p[0], a), b, x);
      PerformBefore(p[0], a, x);
    }
  }

  function Undo(e: Edit, s: string): Edit
    requires Applicable(e, s)
  {
    match e
    case Insert(at, _) => Delete(at)
    case Delete(at) => Insert(at, s[at])
    case Substitute(at, _) => Substitute(at, s[at])
  }

  lemma UndoUndoes(e: Edit, s: string)
    requires Applicable(e, s)
    ensures Applicable(Undo(e, s), Perform(e, s)) && Perform(Undo(e, s), Perform(e, s)) == s
  {}

  lemma {:induction false} TransformsBack(p: seq<Edit>, a: string, b: string) returns (q: seq<Edit>)
    requires Transforms(p, a, b)
    ensures Transforms(q, b, a) && |q| == |p|
    decreases |p|
  {
    if p == [] {
      q := [];
    } else {
      var a' := Perform(p[0], a);
      q := TransformsBack(p[1..], a', b);
      UndoUndoes(p[0], a);
      assert Transforms([], a, a);
      assert Transforms([Undo(p[0], a)], a', a);
      TransformsConcat(q, [Undo(p[0], a)], b, a', a);
      q := q + [Undo(p[0], a)];
    }
  }

  // ---- The recurrence ------------------------------------------------------

  function Min(x: nat, y: nat): nat {
    if x < y then x else y
  }

  function Cost(x: char, y: char): nat {
    if x == y then 0 else 1
  }

  function Init(s: string): string
    requires s != ""
  {
    s[..|s| - 1]
  }

  function Last(s: string): char
    requires s != ""
  {
    s[|s| - 1]
  }

  /** The textbook recurrence over the prefixes `a[..i]` and `b[..j]`. */
  function Dist(a: string, b: string, i: nat, j: nat): nat
    requires i <= |a| && j <= |b|
    decreases i + j
  {
    if i == 0 then j
    else if j == 0 then i
    else Min(Dist(a, b, i, j - 1) + 1, Min(Dist(a, b, i - 1, j) + 1, Dist(a, b, i - 1, j - 1) + Cost(a[i - 1], b[j - 1])))
  }

  function Lev(a: string, b: string): nat {
    Dist(a, b, |a|, |b|)
  }

  /** The recurrence looks at nothing beyond the two prefixes. */
  lemma {:induction false} DistPrefix(a: string, b: string, a': string, b': string, i: nat, j: nat)
    requires i <= |a| && j <= |b| && i <= |a'| && j <= |b'|
    requires forall k :: 0 <= k < i ==> a[k] == a'[k]
    requires forall k :: 0 <= k < j ==> b[k] == b'[k]
    ensures Dist(a, b, i, j) == Dist(a', b', i, j)
    decreases i + j
  {
    if i != 0 && j != 0 {
      DistPrefix(a, b, a', b', i, j - 1);
      DistPrefix(a, b, a', b', i - 1, j);
      DistPrefix(a, b, a', b', i - 1, j - 1);
    }
  }

  lemma LevStep(a: string, b: string)
    requires a != "" && b != ""
    ensures Lev(a, b) == Min(Lev(a, Init(b)) + 1, Min(Lev(Init(a), b) + 1, Lev(Init(a), Init(b)) + Cost(Last(a), Last(b))))
  {
    DistPrefix(a, b, a, Init(b), |a|, |b| - 1);
    DistPrefix(a, b, Init(a), b, |a| - 1, |b|);
    DistPrefix(a, b, Init(a), Init(b), |a| - 1, |b| - 1);
  }

  /** A script as long as the recurrence says exists. */
  lemma {:induction false} LevReached(a: string, b: string) returns (p: seq<Edit>)
    ensures Transforms(p, a, b) && |p| == Lev(a, b)
    decreases |a| + |b|
  {
    if a == "" {
      if b == "" {
        p := [];
      } else {
        p := LevReached(a, Init(b));
        p := AppendInsert(p, a, b);
      }
    } else if b == "" {
      p := LevReached(Init(a), b);
      p := PrependDelete(p, a, b);
    } else {
      LevStep(a, b);
      if Lev(a, b) == Lev(a, Init(b)) + 1 {
        p := LevReached(a, Init(b));
        p := AppendInsert(p, a, b);
      } else if Lev(a, b) == Lev(Init(a), b) + 1 {
        p := LevReached(Init(a), b);
        p := PrependDelete(p, a, b);
      } else {
        p := LevReached(Init(a), Init(b));
        p := AppendReplace(p, Init(a), Init(b), Last(a), Last(b));
        InitLast(a);
        InitLast(b);
      }
    }
  }

  lemma AppendInsert(p: seq<Edit>, a: string, b: string) returns (q: seq<Edit>)
    requires b != "" && Transforms(p, a, Init(b))
    ensures Transforms(q, a, b) && |q| == |p| + 1
  {
    var e := Insert(|b| - 1, Last(b));
    assert Perform(e, Init(b)) == b;
    TransformsThen(p, e, a, Init(b), b);
    q := p + [e];
  }

  lemma PrependDelete(p: seq<Edit>, a: string, b: string) returns (q: seq<Edit>)
    requires a != "" && Transforms(p, Init(a), b)
    ensures Transforms(q, a, b) && |q| == |p| + 1
  {
    var e := Delete(|a| - 1);
    assert Perform(e, a) == Init(a);
    q := [e] + p;
    TransformsCons(e, p, a, b);
  }

  lemma SubstituteLast(y: string, c: char, d: char)
    ensures Applicable(Substitute(|y|, d), y + [c]) && Perform(Substitute(|y|, d), y + [c]) == y + [d]
  {}

  /** A script on strings that each have one more character: the last one is kept or substituted. */
  lemma AppendReplace(p: seq<Edit>, x: string, y: string, c: char, d: char) returns (q: seq<Edit>)
    requires Transforms(p, x, y)
    ensures Transforms(q, x + [c], y + [d]) && |q| == |p| + Cost(c, d)
  {
    TransformsBefore(p, x, y, c);
    q := p;
    if c != d {
      SubstituteLast(y, c, d);
      TransformsThen(p, Substitute(|y|, d), x + [c], y + [c], y + [d]);
      q := p + [Substitute(|y|, d)];
    }
  }

  lemma InitLast(s: string)
    requires s != ""
    ensures Init(s) + [Last(s)] == s
  {}

  lemma LevDropLast(a: string, b: string)
    requires b != ""
    ensures Lev(a, b) <= Lev(a, Init(b)) + 1
  {
    if a != "" {
      LevStep(a, b);
    }
  }

  /** `u` is at most one step further than `v` from every string. */
  ghost predicate Near(u: string, v: string) {
    forall b :: Lev(u, b) <= Lev(v, b) + 1
  }

  /** Being near survives a common ending. */
  lemma {:induction false} NearExtends(u: string, v: string, y: string, b: string)
    requires Near(u, v)
    ensures Lev(u + y, b) <= Lev(v + y, b) + 1
    decreases |y| + |b|
  {
    if y == "" {
      assert u + y == u && v + y == v;
    } else if b == "" {
      assert Lev(u, b) <= Lev(v, b) + 1;
    } else {
      assert Init(u + y) == u + Init(y) && Init(v + y) == v + Init(y);
      LevStep(u + y, b);
      LevStep(v + y, b);
      NearExtends(u, v, y, Init(b));
      NearExtends(u, v, Init(y), b);
      NearExtends(u, v, Init(y), Init(b));
    }
  }

  lemma {:induction false} NearDelete(x: string, c: char, b: string)
    ensures Lev(x + [c], b) <= Lev(x, b) + 1
  {
    assert Init(x + [c]) == x;
    if b != "" {
      LevStep(x + [c], b);
    }
  }

  lemma {:induction false} NearInsert(x: string, c: char, b: string)
    ensures Lev(x, b) <= Lev(x + [c], b) + 1
    decreases |b|
  {
    assert Init(x + [c]) == x;
    if b != "" {
      NearInsert(x, c, Init(b));
      LevStep(x + [c], b);
      LevDropLast(x, b);
    }
  }

  lemma {:induction false} NearSubstitute(x: string, c: char, d: char, b: string)
    ensures Lev(x + [c], b) <= Lev(x + [d], b) + 1
    decreases |b|
  {
    assert Init(x + [c]) == x && Init(x + [d]) == x;
    if b != "" {
      NearSubstitute(x, c, d, Init(b));
      LevStep(x + [c], b);
      LevStep(x + [d], b);
    }
  }

  /** One edit brings a string closer to any other by at most one. */
  lemma EditDropsByOne(e: Edit, a: string, b: string)
    requires Applicable(e, a)
    ensures Lev(a, b) <= Lev(Perform(e, a), b) + 1
  {
    match e
    case Insert(at, c) =>
      forall t ensures Lev(a[..at], t) <= Lev(a[..at] + [c], t) + 1 { NearInsert(a[..at], c, t); }
      NearExtends(a[..at], a[..at] + [c], a[at..], b);
      assert a[..at] + a[at..] == a;
    case Delete(at) =>
      forall t ensures Lev(a[..at] + [a[at]], t) <= Lev(a[..at], t) + 1 { NearDelete(a[..at], a[at], t); }
      NearExtends(a[..at] + [a[at]], a[..at], a[at + 1..], b);
      assert a[..at] + [a[at]] + a[at + 1..] == a;
    case Substitute(at, c) =>
      forall t ensures Lev(a[..at] + [a[at]], t) <= Lev(a[..at] + [c], t) + 1 { NearSubstitute(a[..at], a[at], c, t); }
      NearExtends(a[..at] + [a[at]], a[..at] + [c], a[at + 1..], b);
      assert a[..at] + [a[at]] + a[at + 1..] == a;
  }

  /** One edit changes the distance to any string by at most one, up or down. */
  lemma EditMovesByOne(e: Edit, a: string, b: string)
    requires Applicable(e, a)
    ensures Lev(Perform(e, a), b) - 1 <= Lev(a, b) <= Lev(Perform(e, a), b) + 1
  {
    EditDropsByOne(e, a, b);
    UndoUndoes(e, a);
    EditDropsByOne(Undo(e, a), Perform(e, a), b);
  }

  lemma {:induction false} LevSelf(a: string)
    ensures Lev(a, a) == 0
    decreases |a|
  {
    if a != "" {
      LevSelf(Init(a));
      LevStep(a, a);
    }
  }

  /** No script is shorter than the recurrence says. */
  lemma {:induction false} LevBounds(p: seq<Edit>, a: string, b: string)
    requires Transforms(p, a, b)
    ensures Lev(a, b) <= |p|
    decreases |p|
  {
    if p == [] {
      LevSelf(a);
    } else {
      LevBounds(p[1..], Perform(p[0], a), b);
      EditMovesByOne(p[0], a, b);
    }
  }

  /** `d` is the length of a shortest edit script from `a` to `b`. */
  ghost predicate IsDistance(a: string, b: string, d: nat) {
    && (exists p :: Transforms(p, a, b) && |p| == d)
    && (forall p :: Transforms(p, a, b) ==> d <= |p|)
  }

  lemma LevIsDistance(a: string, b: string)
    ensures IsDistance(a, b, Lev(a, b))
  {
    var p := LevReached(a, b);
    forall q | Transforms(q, a, b) ensures Lev(a, b) <= |q| {
      LevBounds(q, a, b);
    }
  }

  // ---- A metric ------------------------------------------------------------

  lemma ZeroIffEqual(a: string, b: string)
    ensures Lev(a, b) == 0 <==> a == b
  {
    LevSelf(a);
    var p := LevReached(a, b);
  }

  lemma Symmetric(a: string, b: string)
    ensures Lev(a, b) == Lev(b, a)
  {
    var p := LevReached(a, b);
    var p' := TransformsBack(p, a, b);
    LevBounds(p', b, a);
    var q := LevReached(b, a);
    var q' := TransformsBack(q, b, a);
    LevBounds(q', a, b);
  }

  lemma Triangle(a: string, b: string, c: string)
    ensures Lev(a, c) <= Lev(a, b) + Lev(b, c)
  {
    var p := LevReached(a, b);
    var q := LevReached(b, c);
    TransformsConcat(p, q, a, b, c);
    LevBounds(p + q, a, c);
  }

  /** The distance is at least the difference in length and at most the longer length. */
  lemma {:induction false} LengthBounds(a: string, b: string, i: nat, j: nat)
    requires i <= |a| && j <= |b|
    ensures i - j <= Dist(a, b, i, j) && j - i <= Dist(a, b, i, j)
    ensures Dist(a, b, i, j) <= i || Dist(a, b, i, j) <= j
    decreases i + j
  {
    if i != 0 && j != 0 {
      LengthBounds(a, b, i, j - 1);
      LengthBounds(a, b, i - 1, j);
      LengthBounds(a, b, i - 1, j - 1);
    }
  }

  // ---- The rolling rows ----------------------------------------------------

  /** `row[j]` is the distance between `a[..i]` and `b[..j]`, for the first `filled` entries. */
  ghost predicate IsRow(row: array<nat>, a: string, b: string, i: nat, filled: nat)
    reads row
    requires i <= |a|
  {
    && row.Length == |b| + 1 && filled <= |b| + 1
    && forall j {:trigger row[j]} :: 0 <= j < filled ==> row[j] == Dist(a, b, i, j)
  }

  method NextRow(previous: array<nat>, a: string, b: string, i: nat) returns (current: array<nat>)
    requires 0 < i <= |a| && IsRow(previous, a, b, i - 1, |b| + 1)
    ensures fresh(current) && IsRow(current, a, b, i, |b| + 1)
  {
    current := new nat[|b| + 1](_ => 0);
    current[0] := i;
    var j := 1;
    while j <= |b|
      invariant 1 <= j <= |b| + 1
      invariant IsRow(current, a, b, i, j)
    {
      var cost := if a[i - 1] == b[j - 1] then 0 else 1;
      current[j] := Min(current[j - 1] + 1, Min(previous[j] + 1, previous[j - 1] + cost));
      j := j + 1;
    }
  }

  /** The early returns and the loop of `editDistance`. */
  method LastRow(a: string, b: string) returns (d: nat)
    ensures d == Lev(a, b)
  {
    if a == b {
      LevSelf(a);
      return 0;
    }
    if |a| == 0 { return |b|; }
    if |b| == 0 { return |a|; }
    var previous := new nat[|b| + 1](j => j);
    var i := 1;
    while i <= |a|
      invariant 1 <= i <= |a| + 1
      invariant IsRow(previous, a, b, i - 1, |b| + 1)
    {
      previous := NextRow(previous, a, b, i);
      i := i + 1;
    }
    return previous[|b|];
  }

  /** `editDistance` computes the length of a shortest edit script. */
  method ComputeDistance(a: string, b: string) returns (d: nat)
    ensures d == Lev(a, b) && IsDistance(a, b, d)
  {
    d := LastRow(a, b);
    LevIsDistance(a, b);
  }

  // ---- Suggestions ---------------------------------------------------------

  datatype Candidate = Candidate(word: string, suggested: string)

  const TOP_LEVEL_COMMANDS: seq<string> := [
    "agent", "agents", "aliases", "api-help", "c", "commit", "doctor", "events", "export",
    "git", "guardian", "handoff", "harness", "hosts", "init", "list", "llm", "msg", "messages",
    "note", "notes", "ntfy", "open", "outcomes", "p", "plan", "pulse", "service",
    "sp", "st", "status", "store", "summary", "supervise", "sync", "t", "tree", "uninstall",
    "usage", "version", "worktree", "wt"
  ]

  /** The routed words in the sorted order in which they are appended. */
  const ROUTED_COMMANDS: seq<Candidate> := [
    Candidate("ls", "list"),
    Candidate("search", "msg <project-id> search"),
    Candidate("seed", "msg <project-id> seed --yes"),
    Candidate("show", "msg <project-id> show")
  ]

  function Options(): seq<Candidate> {
    seq(|TOP_LEVEL_COMMANDS|, k requires 0 <= k < |TOP_LEVEL_COMMANDS| =>
      Candidate(TOP_LEVEL_COMMANDS[k], TOP_LEVEL_COMMANDS[k])) + ROUTED_COMMANDS
  }

  lemma TopLevelAreShort(k: nat)
    requires k < |TOP_LEVEL_COMMANDS|
    ensures |TOP_LEVEL_COMMANDS[k]| <= LONGEST_WORD
  {}

  lemma OptionsAreShort()
    ensures Options() != []
    ensures forall k :: 0 <= k < |Options()| ==> |Options()[k].word| <= LONGEST_WORD
  {
    forall k | 0 <= k < |Options()|
      ensures |Options()[k].word| <= LONGEST_WORD
    {
      if k < |TOP_LEVEL_COMMANDS| {
        TopLevelAreShort(k);
      }
    }
  }

  const LONGEST_WORD := 9
  const UNREACHED: nat := 0x4000_0000

  /** `k` is the first position of the least number. */
  ghost predicate IsFirstLeast(numbers: seq<nat>, k: int) {
    && 0 <= k < |numbers|
    && (forall l :: 0 <= l < k ==> numbers[k] < numbers[l])
    && (forall l :: k <= l < |numbers| ==> numbers[k] <= numbers[l])
  }

  ghost function Distances(word: string, options: seq<Candidate>): seq<nat> {
    seq(|options|, k requires 0 <= k < |options| => Lev(word, options[k].word))
  }

  /** `k` is the first candidate at the least distance from `word`. */
  ghost predicate IsFirstNearest(word: string, options: seq<Candidate>, k: int) {
    IsFirstLeast(Distances(word, options), k)
  }

  lemma LeastExtends(numbers: seq<nat>, n: nat, k: int)
    requires n < |numbers| && (n > 0 ==> IsFirstLeast(numbers[..n], k))
    ensures IsFirstLeast(numbers[..n + 1], if n == 0 || numbers[n] < numbers[k] then n else k)
  {
    var more := numbers[..n + 1];
    assert forall l :: 0 <= l < n ==> more[l] == numbers[..n][l];
  }

  /** The loop over the candidates: the first nearest one, unless every distance reaches the initial bound. */
  method Nearest(word: string, options: seq<Candidate>) returns (best: string, bestDistance: nat, ghost nearest: int)
    requires options != []
    ensures IsFirstNearest(word, options, nearest)
    ensures if Lev(word, options[nearest].word) < UNREACHED
            then bestDistance == Lev(word, options[nearest].word) && best == options[nearest].suggested
            else bestDistance == UNREACHED && best == ""
  {
    ghost var distances := Distances(word, options);
    best, bestDistance, nearest := "", UNREACHED, 0;
    var k := 0;
    while k < |options|
      invariant 0 <= k <= |options| && 0 <= nearest < |options|
      invariant k > 0 ==> IsFirstLeast(distances[..k], nearest)
      invariant if k > 0 && distances[nearest] < UNREACHED
                then bestDistance == distances[nearest] && best == options[nearest].suggested
                else bestDistance == UNREACHED && best == ""
    {
      var distance := LastRow(word, options[k].word);
      assert distance == distances[k];
      LeastExtends(distances, k, nearest);
      nearest := if k == 0 || distances[k] < distances[nearest] then k else nearest;
      if distance < bestDistance {
        bestDistance := distance;
        best := options[k].suggested;
      }
      k := k + 1;
    }
    assert distances[..|options|] == distances;
  }

  /** `strings.ToLower`, read as bytes: `lower` gives the bytes of the lower-case form of a code point. */
  function Lowered(s: string, lower: char -> string): string {
    if s == "" then "" else lower(s[0]) + Lowered(s[1..], lower)
  }

  /** Lower-casing goes code point by code point. */
  lemma {:induction false} LoweredConcat(a: string, b: string, lower: char -> string)
    ensures Lowered(a + b, lower) == Lowered(a, lower) + Lowered(b, lower)
    ensures forall c :: Lowered([c], lower) == lower(c)
    decreases |a|
  {
    if a == "" {
      assert a + b == b;
    } else {
      LoweredConcat(a[1..], b, lower);
      assert (a + b)[1..] == a[1..] + b;
    }
    forall c ensures Lowered([c], lower) == lower(c) {
      assert [c][1..] == "";
    }
  }

  /** `suggestCommand`: the first nearest candidate to the input, without the white space around it and lower-cased, or
      nothing exactly when that is empty or that candidate is further than a third of it. The initial bound of 2^30 never
      hides a candidate that is close enough, however long the input. */
  method SuggestCommand(input: string, lower: char -> string) returns (best: string, ghost core: string)
    requires forall c :: lower(c) != ""
    ensures Text.IsTrimmed(input, core)
    ensures core == "" ==> best == ""
    ensures core != "" ==> exists k ::
              var word := Lowered(core, lower);
              && IsFirstNearest(word, Options(), k)
              && best == if Lev(word, Options()[k].word) > (|word| + 2) / 3 then "" else Options()[k].suggested
  {
    core := Text.Trim(input);
    Text.TrimIsTrimmed(input);
    var word := Lowered(Text.Trim(input), lower);
    if word == "" { return "", core; }
    var options := Options();
    OptionsAreShort();
    var bestDistance;
    ghost var k;
    best, bestDistance, k := Nearest(word, options);
    LengthBounds(word, options[k].word, |word|, |options[k].word|);
    if bestDistance > (|word| + 2) / 3 {
      best := "";
    }
    assert IsFirstNearest(word, Options(), k);
  }
}
