/** The managed hosts-file block of `internal/cli/hosts.go`. */
module HostsBlock {
  import opened Text

  const BEGIN := "# >>> timekeeper begin"
  const END := "# <<< timekeeper end"
  const LOOPBACK := "127.0.0.1"
  const NAMES: seq<string> := ["timekeeper.local", "api.timekeeper.local", "guardian.local", "vite.timekeeper.local"]

  // ---- Finding text --------------------------------------------------------

  predicate OccursAt(body: string, pat: string, i: int) {
    0 <= i && i + |pat| <= |body| && body[i..i + |pat|] == pat
  }

  ghost predicate Contains(body: string, pat: string) {
    exists i :: OccursAt(body, pat, i)
  }

  /** The first occurrence at or after `i`, or -1. */
  function IndexFrom(body: string, pat: string, i: nat): (r: int)
    ensures r == -1 || (i <= r && r + |pat| <= |body|)
    decreases |body| - i
  {
    if i + |pat| > |body| then -1
    else if OccursAt(body, pat, i) then i
    else IndexFrom(body, pat, i + 1)
  }

  function Index(body: string, pat: string): int {
    IndexFrom(body, pat, 0)
  }

  lemma {:induction false} IndexFromFirst(body: string, pat: string, i: nat)
    ensures var r := IndexFrom(body, pat, i);
            && (r >= 0 ==> i <= r && OccursAt(body, pat, r) && forall k :: i <= k < r ==> !OccursAt(body, pat, k))
            && (r < 0 ==> r == -1 && forall k :: i <= k ==> !OccursAt(body, pat, k))
    decreases |body| - i
  {
    if i + |pat| <= |body| && !OccursAt(body, pat, i) {
      IndexFromFirst(body, pat, i + 1);
    }
  }

  /** A pattern without a newline never straddles one. */
  lemma OccursAroundNewline(x: string, y: string, pat: string, i: nat)
    requires IsLine(pat) && pat != ""
    ensures OccursAt(x + "\n" + y, pat, i) <==> OccursAt(x, pat, i) || OccursAt(y, pat, i - |x| - 1)
  {
    var all := x + "\n" + y;
    if OccursAt(x, pat, i) {
      assert all[i..i + |pat|] == x[i..i + |pat|];
    }
    if OccursAt(y, pat, i - |x| - 1) {
      assert all[i..i + |pat|] == y[i - |x| - 1..i - |x| - 1 + |pat|];
    }
    if OccursAt(all, pat, i) {
      assert forall k :: i <= k < i + |pat| ==> all[k] == pat[k - i];
      assert all[|x|] == '\n';
      if i + |pat| <= |x| {
        assert all[i..i + |pat|] == x[i..i + |pat|];
      } else if i > |x| {
        assert all[i..i + |pat|] == y[i - |x| - 1..i - |x| - 1 + |pat|];
      }
    }
  }

  // ---- The block -----------------------------------------------------------

  function Entry(name: string): string {
    LOOPBACK + " " + name
  }

  function BlockLines(): seq<string> {
    [BEGIN, Entry(NAMES[0]), Entry(NAMES[1]), Entry(NAMES[2]), Entry(NAMES[3]), END, ""]
  }

  function Block(): string {
    "\n" + JoinLines(BlockLines())
  }

  function TrimNewlines(s: string): string {
    if s != "" && s[|s| - 1] == '\n' then TrimNewlines(s[..|s| - 1]) else s
  }

  /** Trailing newlines normalised to exactly one. */
  function Normalised(body: string): string {
    TrimNewlines(body) + "\n"
  }

  /** `stripHostsBlock`: cuts from the first begin sentinel to behind the first end sentinel. */
  function Strip(body: string): (string, bool) {
    var start, end := Index(body, BEGIN), Index(body, END);
    if start < 0 || end < 0 then (body, false)
    else (Normalised(body[..start] + body[end + |END|..]), true)
  }

  /** Something is removed exactly when both sentinels occur. */
  lemma StripsIff(body: string)
    ensures Strip(body).1 <==> Contains(body, BEGIN) && Contains(body, END)
  {
    IndexFromFirst(body, BEGIN, 0);
    IndexFromFirst(body, END, 0);
  }

  function Remove(body: string): string {
    Strip(body).0
  }

  /** `hostsAdd` on the file's text. */
  ghost function Add(body: string): string {
    if Contains(body, BEGIN) && Contains(body, END) && AllMapped(body) then body
    else Strip(body).0 + Block()
  }

  // ---- Where the sentinels are ---------------------------------------------

  function Entries(): string {
    Entry(NAMES[0]) + "\n" + (Entry(NAMES[1]) + "\n" + (Entry(NAMES[2]) + "\n" + Entry(NAMES[3])))
  }

  lemma JoinTwo(line: string, lines: seq<string>)
    requires lines != []
    ensures JoinLines([line] + lines) == line + "\n" + JoinLines(lines)
  {
    assert ([line] + lines)[1..] == lines;
  }

  lemma JoinSeven(a: string, b: string, c: string, d: string, e: string, f: string, g: string)
    ensures JoinLines([a, b, c, d, e, f, g]) ==
              a + "\n" + ((b + "\n" + (c + "\n" + (d + "\n" + e))) + "\n" + (f + "\n" + g))
  {
    JoinTwo(f, [g]);
    JoinTwo(e, [f, g]);
    JoinTwo(d, [e, f, g]);
    JoinTwo(c, [d, e, f, g]);
    JoinTwo(b, [c, d, e, f, g]);
    JoinTwo(a, [b, c, d, e, f, g]);
    Regroup(b, c, d, e, f + "\n" + g);
  }

  lemma Regroup(b: string, c: string, d: string, e: string, rest: string)
    ensures b + "\n" + (c + "\n" + (d + "\n" + (e + "\n" + rest))) == (b + "\n" + (c + "\n" + (d + "\n" + e))) + "\n" + rest
  {}

  /** What the added text looks like: the begin sentinel, the entries, the end sentinel, each on a line. */
  lemma BlockShape()
    ensures Block() == "\n" + (BEGIN + "\n" + (Entries() + "\n" + (END + "\n" + "")))
  {
    JoinSeven(BEGIN, Entry(NAMES[0]), Entry(NAMES[1]), Entry(NAMES[2]), Entry(NAMES[3]), END, "");
  }

  lemma ContainsHead(e: string, pat: string)
    requires pat != ""
    ensures Contains(e, pat) ==> pat[0] in e
  {
    if Contains(e, pat) {
      var i :| OccursAt(e, pat, i);
      assert e[i] == e[i..i + |pat|][0] == pat[0];
    }
  }

  lemma ContainsAroundNewline(x: string, y: string, pat: string)
    requires IsLine(pat) && pat != ""
    ensures Contains(x + "\n" + y, pat) <==> Contains(x, pat) || Contains(y, pat)
  {
    if Contains(x + "\n" + y, pat) {
      var i :| OccursAt(x + "\n" + y, pat, i);
      OccursAroundNewline(x, y, pat, i);
    }
    if Contains(x, pat) {
      var i :| OccursAt(x, pat, i);
      OccursAroundNewline(x, y, pat, i);
    }
    if Contains(y, pat) {
      var i :| OccursAt(y, pat, i);
      OccursAroundNewline(x, y, pat, i + |x| + 1);
    }
  }

  lemma SentinelsAreLines()
    ensures IsLine(BEGIN) && IsLine(END) && |BEGIN| == 22 && |END| == 20
  {}

  lemma EntriesHaveNoSentinel()
    ensures !Contains(Entries(), BEGIN) && !Contains(Entries(), END)
  {
    assert '#' !in Entry(NAMES[0]) && '#' !in Entry(NAMES[1]) && '#' !in Entry(NAMES[2]) && '#' !in Entry(NAMES[3]);
    assert '#' !in Entries();
    ContainsHead(Entries(), BEGIN);
    ContainsHead(Entries(), END);
  }

  lemma SentinelsDiffer()
    ensures !Contains(BEGIN, END) && !Contains(END, BEGIN)
    ensures forall i :: OccursAt(BEGIN, BEGIN, i) <==> i == 0
    ensures forall i :: OccursAt(END, END, i) <==> i == 0
    ensures !Contains("", BEGIN) && !Contains("", END)
  {
    assert BEGIN[0..20][2] != END[2];
    assert BEGIN[1..21][0] != END[0];
    assert BEGIN[2..22][0] != END[0];
    assert BEGIN[0..22] == BEGIN && END[0..20] == END;
  }

  /** `i` is the only place where `pat` occurs. */
  ghost predicate OccursOnlyAt(body: string, pat: string, i: int) {
    forall k :: OccursAt(body, pat, k) <==> k == i
  }

  lemma OnlyAfterNewline(x: string, y: string, pat: string, i: int)
    requires IsLine(pat) && pat != "" && !Contains(x, pat) && OccursOnlyAt(y, pat, i)
    ensures OccursOnlyAt(x + "\n" + y, pat, |x| + 1 + i)
  {
    assert OccursAt(y, pat, i);
    forall k ensures OccursAt(x + "\n" + y, pat, k) <==> k == |x| + 1 + i {
      if k >= 0 {
        OccursAroundNewline(x, y, pat, k);
      }
    }
  }

  lemma OnlyBeforeNewline(x: string, y: string, pat: string, i: int)
    requires IsLine(pat) && pat != "" && OccursOnlyAt(x, pat, i) && !Contains(y, pat)
    ensures OccursOnlyAt(x + "\n" + y, pat, i)
  {
    assert OccursAt(x, pat, i);
    forall k ensures OccursAt(x + "\n" + y, pat, k) <==> k == i {
      if k >= 0 {
        OccursAroundNewline(x, y, pat, k);
      }
    }
  }

  /** A body without either sentinel, and what adding the block makes of it. */
  ghost predicate Clean(body: string) {
    !Contains(body, BEGIN) && !Contains(body, END)
  }

  /** The first line of a framed stretch, occurring nowhere else. */
  lemma BeginOnce(body: string, a: string, b: string, c: string)
    requires IsLine(a) && a != "" && OccursOnlyAt(a, a, 0)
    requires !Contains(body, a) && !Contains(b, a) && !Contains(c, a) && !Contains("", a)
    ensures OccursOnlyAt(body + "\n" + (a + "\n" + (b + "\n" + (c + "\n" + ""))), a, |body| + 1)
  {
    ContainsAroundNewline(c, "", a);
    ContainsAroundNewline(b, c + "\n" + "", a);
    OnlyBeforeNewline(a, b + "\n" + (c + "\n" + ""), a, 0);
    OnlyAfterNewline(body, a + "\n" + (b + "\n" + (c + "\n" + "")), a, 0);
  }

  /** The last line of a framed stretch, occurring nowhere else. */
  lemma EndOnce(body: string, a: string, b: string, c: string)
    requires IsLine(c) && c != "" && OccursOnlyAt(c, c, 0)
    requires !Contains(body, c) && !Contains(a, c) && !Contains(b, c) && !Contains("", c)
    ensures OccursOnlyAt(body + "\n" + (a + "\n" + (b + "\n" + (c + "\n" + ""))), c, |body| + 1 + |a| + 1 + |b| + 1)
  {
    OnlyBeforeNewline(c, "", c, 0);
    OnlyAfterNewline(b, c + "\n" + "", c, 0);
    OnlyAfterNewline(a, b + "\n" + (c + "\n" + ""), c, |b| + 1);
    OnlyAfterNewline(body, a + "\n" + (b + "\n" + (c + "\n" + "")), c, |a| + 1 + |b| + 1);
  }

  lemma PutInFront(body: string, framed: string)
    ensures body + ("\n" + framed) == body + "\n" + framed
  {}

  /** After adding, each sentinel occurs exactly once: no match straddles the join. */
  lemma OneBlock(body: string)
    requires Clean(body)
    ensures OccursOnlyAt(body + Block(), BEGIN, |body| + 1)
    ensures OccursOnlyAt(body + Block(), END, |body| + 1 + |BEGIN| + 1 + |Entries()| + 1)
  {
    SentinelsAreLines();
    SentinelsDiffer();
    EntriesHaveNoSentinel();
    BeginOnce(body, BEGIN, Entries(), END);
    EndOnce(body, BEGIN, Entries(), END);
    BlockShape();
    PutInFront(body, BEGIN + "\n" + (Entries() + "\n" + (END + "\n" + "")));
  }

  lemma OnlyIndex(body: string, pat: string, i: int)
    requires OccursOnlyAt(body, pat, i)
    ensures Index(body, pat) == i && Contains(body, pat)
  {
    assert OccursAt(body, pat, i);
    IndexFromFirst(body, pat, 0);
  }

  /** Exactly the trailing newlines are taken off. */
  lemma {:induction false} TrimmedNewlines(s: string)
    ensures TrimNewlines(s) <= s && forall k :: |TrimNewlines(s)| <= k < |s| ==> s[k] == '\n'
    ensures TrimNewlines(s) != "" ==> TrimNewlines(s)[|TrimNewlines(s)| - 1] != '\n'
    decreases |s|
  {
    if s != "" && s[|s| - 1] == '\n' {
      TrimmedNewlines(s[..|s| - 1]);
    }
  }

  lemma TrimOneMore(s: string)
    ensures TrimNewlines(s + "\n") == TrimNewlines(s)
  {
    assert (s + "\n")[..|s|] == s;
  }

  lemma FrameEnds(a: string, b: string, c: string)
    ensures a + "\n" + (b + "\n" + (c + "\n" + "")) == a + "\n" + (b + "\n" + c) + "\n"
  {}

  /** Cutting a framed stretch out of the middle. */
  lemma CutOut(body: string, framed: string, tail: string)
    ensures var all := body + "\n" + (framed + tail);
            all[..|body| + 1] + all[|body| + 1 + |framed|..] == body + "\n" + tail
  {}

  lemma CutFrame(body: string, a: string, b: string, c: string, all: string)
    requires all == body + "\n" + (a + "\n" + (b + "\n" + (c + "\n" + "")))
    ensures var end := |body| + 1 + |a| + 1 + |b| + 1 + |c|;
            end <= |all| && all[..|body| + 1] + all[end..] == body + "\n" + "\n"
  {
    FrameEnds(a, b, c);
    CutOut(body, a + "\n" + (b + "\n" + c), "\n");
  }

  lemma BlockCutsOut(body: string)
    ensures var all := body + Block();
            var end := |body| + 1 + |BEGIN| + 1 + |Entries()| + 1 + |END|;
            end <= |all| && all[..|body| + 1] + all[end..] == body + "\n" + "\n"
  {
    BlockShape();
    var framed := BEGIN + "\n" + (Entries() + "\n" + (END + "\n" + ""));
    PutInFront(body, framed);
    CutFrame(body, BEGIN, Entries(), END, body + Block());
  }

  lemma AddToClean(body: string)
    requires Clean(body)
    ensures Add(body) == body + Block()
  {
    StripsIff(body);
  }

  lemma StripAdded(body: string)
    requires Clean(body)
    ensures Strip(body + Block()) == (Normalised(body + "\n" + "\n"), true)
  {
    var all := body + Block();
    OneBlock(body);
    OnlyIndex(all, BEGIN, |body| + 1);
    OnlyIndex(all, END, |body| + 1 + |BEGIN| + 1 + |Entries()| + 1);
    BlockCutsOut(body);
  }

  /** Removing what was added restores the body with its trailing newlines normalised to one. */
  lemma RemoveAfterAdd(body: string)
    requires Clean(body)
    ensures Remove(Add(body)) == Normalised(body)
  {
    AddToClean(body);
    StripAdded(body);
    TrimOneMore(body);
    TrimOneMore(body + "\n");
  }

  // ---- Removing from any body ----------------------------------------------

  /** Where the first begin sentinel starts, and where the first end sentinel ends. */
  function Bounds(body: string): (r: (int, int))
    ensures Strip(body).1 ==> 0 <= r.0 <= |body| && |END| <= r.1 <= |body|
  {
    (Index(body, BEGIN), Index(body, END) + |END|)
  }

  /** What is left before trailing newlines are normalised. */
  function Cut(body: string): string
    requires Strip(body).1
  {
    body[..Bounds(body).0] + body[Bounds(body).1..]
  }

  /** Removing shortens the text exactly when the first begin sentinel comes before the end of the first end sentinel;
      when it comes after, the stretch between them is doubled instead. */
  lemma StripLength(body: string)
    requires Strip(body).1
    ensures Remove(body) == Normalised(Cut(body))
    ensures |Cut(body)| < |body| <==> Bounds(body).0 < Bounds(body).1
    ensures var (start, end) := Bounds(body);
            start >= end ==> Cut(body) == body[..end] + body[end..start] + body[end..start] + body[start..]
  {
    var (start, end) := Bounds(body);
    if start >= end {
      assert body[..start] == body[..end] + body[end..start];
      assert body[end..] == body[end..start] + body[start..];
    }
  }

  /** Sentinels in the wrong order: removing adds a line. */
  lemma RemoveDoubles() returns (body: string)
    ensures body == END + "\n" + BEGIN && Strip(body).1
    ensures Remove(body) == END + "\n" + "\n" + BEGIN + "\n"
  {
    body := END + "\n" + BEGIN;
    SentinelsAreLines();
    SentinelsDiffer();
    OnlyBeforeNewline(END, BEGIN, END, 0);
    OnlyAfterNewline(END, BEGIN, BEGIN, 0);
    OnlyIndex(body, END, 0);
    OnlyIndex(body, BEGIN, |END| + 1);
    DoubledNewline(END, BEGIN);
    LastIsNoNewline(END + "\n" + "\n", BEGIN);
  }

  lemma DoubledNewline(a: string, b: string)
    ensures var body := a + "\n" + b; body[..|a| + 1] + body[|a|..] == a + "\n" + "\n" + b
  {}

  lemma LastIsNoNewline(s: string, pat: string)
    requires pat != "" && IsLine(pat)
    ensures Normalised(s + pat) == s + pat + "\n"
  {
    assert (s + pat)[|s + pat| - 1] == pat[|pat| - 1];
  }

  lemma {:induction false} TrimmedContains(s: string, pat: string)
    requires IsLine(pat) && pat != ""
    ensures Contains(TrimNewlines(s), pat) <==> Contains(s, pat)
    decreases |s|
  {
    if s != "" && s[|s| - 1] == '\n' {
      var init := s[..|s| - 1];
      TrimmedContains(init, pat);
      assert s == init + "\n" + "";
      ContainsAroundNewline(init, "", pat);
      assert !OccursAt("", pat, 0);
    }
  }

  lemma NormalisedContains(s: string, pat: string)
    requires IsLine(pat) && pat != ""
    ensures Contains(Normalised(s), pat) <==> Contains(s, pat)
  {
    TrimmedContains(s, pat);
    var t := TrimNewlines(s);
    assert t + "\n" == t + "\n" + "";
    ContainsAroundNewline(t, "", pat);
    assert !OccursAt("", pat, 0);
  }

  /** An occurrence of `pat` lies across the place where the two pieces meet. */
  ghost predicate Straddles(x: string, y: string, pat: string) {
    exists i :: OccursAt(x + y, pat, i) && i < |x| < i + |pat|
  }

  lemma OccursInJoin(x: string, y: string, pat: string, i: int)
    ensures OccursAt(x, pat, i) ==> OccursAt(x + y, pat, i)
    ensures OccursAt(y, pat, i) ==> OccursAt(x + y, pat, |x| + i)
    ensures OccursAt(x + y, pat, i) && i + |pat| <= |x| ==> OccursAt(x, pat, i)
    ensures OccursAt(x + y, pat, i) && |x| <= i ==> OccursAt(y, pat, i - |x|)
  {
    var all := x + y;
    if 0 <= i && i + |pat| <= |x| {
      assert all[i..i + |pat|] == x[i..i + |pat|];
    }
    if 0 <= i && i + |pat| <= |y| {
      assert all[|x| + i..|x| + i + |pat|] == y[i..i + |pat|];
    }
    if |x| <= i && i + |pat| <= |all| {
      assert all[i..i + |pat|] == y[i - |x|..i - |x| + |pat|];
    }
  }

  lemma JoinContains(x: string, y: string, pat: string)
    ensures Contains(x + y, pat) <==> Contains(x, pat) || Contains(y, pat) || Straddles(x, y, pat)
  {
    if Contains(x + y, pat) {
      var i :| OccursAt(x + y, pat, i);
      OccursInJoin(x, y, pat, i);
    }
    if Contains(x, pat) {
      var i :| OccursAt(x, pat, i);
      OccursInJoin(x, y, pat, i);
    }
    if Contains(y, pat) {
      var i :| OccursAt(y, pat, i);
      OccursInJoin(x, y, pat, i);
    }
  }

  lemma NoNewlineInside(body: string, pat: string, i: int)
    requires IsLine(pat) && OccursAt(body, pat, i)
    ensures forall k :: i <= k < i + |pat| ==> body[k] != '\n'
  {
    assert forall k :: i <= k < i + |pat| ==> body[k] == body[i..i + |pat|][k - i];
  }

  /** Nothing without a newline lies across the boundary of a line. */
  lemma NoStraddleAtLine(x: string, y: string, pat: string)
    requires IsLine(pat) && (x == "" || x[|x| - 1] == '\n' || y == "" || y[0] == '\n')
    ensures !Straddles(x, y, pat)
  {
    assert x != "" ==> (x + y)[|x| - 1] == x[|x| - 1];
    assert y != "" ==> (x + y)[|x|] == y[0];
    forall i | OccursAt(x + y, pat, i) ensures !(i < |x| < i + |pat|) {
      NoNewlineInside(x + y, pat, i);
    }
  }

  lemma ContainsInFront(body: string, pat: string, n: nat)
    requires n <= |body|
    ensures Contains(body[..n], pat) <==> Index(body, pat) >= 0 && Index(body, pat) + |pat| <= n
  {
    IndexFromFirst(body, pat, 0);
    var first := Index(body, pat);
    if Contains(body[..n], pat) {
      var i :| OccursAt(body[..n], pat, i);
      assert body[..n][i..i + |pat|] == body[i..i + |pat|];
      assert OccursAt(body, pat, i);
    }
    if first >= 0 && first + |pat| <= n {
      assert body[..n][first..first + |pat|] == body[first..first + |pat|];
      assert OccursAt(body[..n], pat, first);
    }
  }

  /** Removing leaves no sentinel exactly when the sentinels come in order, none follows the block, and none is put together
      where the two remaining pieces meet; the last cannot happen at the boundary of a line (`NoStraddleAtLine`). */
  lemma CleanAfterRemoveIff(body: string)
    requires Strip(body).1
    ensures var x, y := body[..Bounds(body).0], body[Bounds(body).1..];
            Clean(Remove(body)) <==>
              Bounds(body).0 < Bounds(body).1 && Clean(y) && !Straddles(x, y, BEGIN) && !Straddles(x, y, END)
  {
    var (start, end) := Bounds(body);
    SentinelsAreLines();
    NormalisedContains(Cut(body), BEGIN);
    NormalisedContains(Cut(body), END);
    JoinContains(body[..start], body[end..], BEGIN);
    JoinContains(body[..start], body[end..], END);
    ContainsInFront(body, BEGIN, start);
    ContainsInFront(body, END, start);
  }

  // ---- Removing after adding, on any body ----------------------------------

  lemma IndexInFront(x: string, y: string, pat: string)
    requires IsLine(pat) && pat != "" && Contains(x, pat)
    ensures Index(x + "\n" + y, pat) == Index(x, pat) >= 0
  {
    IndexFromFirst(x, pat, 0);
    IndexFromFirst(x + "\n" + y, pat, 0);
    var first, found := Index(x, pat), Index(x + "\n" + y, pat);
    OccursAroundNewline(x, y, pat, first);
    OccursAroundNewline(x, y, pat, found);
  }

  function Framed(): string {
    BEGIN + "\n" + (Entries() + "\n" + (END + "\n" + ""))
  }

  lemma AddedShape(body: string)
    ensures body + Block() == body + "\n" + Framed()
  {
    BlockShape();
    PutInFront(body, Framed());
  }

  lemma AddWithoutBlock(body: string)
    requires !Strip(body).1
    ensures Add(body) == body + Block()
  {
    StripsIff(body);
  }

  lemma BlockTail(body: string)
    ensures var all, end := body + Block(), |body| + 1 + |BEGIN| + 1 + |Entries()| + 1 + |END|;
            end <= |all| && all[end..] == "\n"
  {
    BlockCutsOut(body);
    var all, end := body + Block(), |body| + 1 + |BEGIN| + 1 + |Entries()| + 1 + |END|;
    assert |all[..|body| + 1]| == |body| + 1;
    assert all[end..] == (all[..|body| + 1] + all[end..])[|body| + 1..];
  }

  lemma StaleBeginBounds(body: string)
    requires Contains(body, BEGIN) && !Contains(body, END)
    ensures Index(body, BEGIN) >= 0 && Strip(body + Block()).1
    ensures Bounds(body + Block()) == (Index(body, BEGIN), |body| + 1 + |BEGIN| + 1 + |Entries()| + 1 + |END|)
  {
    SentinelsAreLines();
    SentinelsDiffer();
    EntriesHaveNoSentinel();
    AddedShape(body);
    IndexInFront(body, Framed(), BEGIN);
    EndOnce(body, BEGIN, Entries(), END);
    OnlyIndex(body + Block(), END, |body| + 1 + |BEGIN| + 1 + |Entries()| + 1);
  }

  lemma FrontOf(body: string, tail: string, n: nat)
    requires n <= |body|
    ensures (body + tail)[..n] == body[..n]
  {}

  /** Beside a stale begin sentinel, adding and removing deletes everything from that sentinel on. */
  lemma StaleBegin(body: string)
    requires Contains(body, BEGIN) && !Contains(body, END)
    ensures Index(body, BEGIN) >= 0 && Remove(Add(body)) == Normalised(body[..Index(body, BEGIN)])
  {
    StripsIff(body);
    AddWithoutBlock(body);
    StaleBeginBounds(body);
    BlockTail(body);
    FrontOf(body, Block(), Index(body, BEGIN));
    StripLength(body + Block());
    TrimOneMore(body[..Index(body, BEGIN)]);
  }

  lemma NormalEnd(s: string, a: string, b: string, c: string)
    requires c != "" && IsLine(c)
    ensures var block := "\n" + (a + "\n" + (b + "\n" + (c + "\n" + "")));
            Normalised(s + block) == s + block
  {
    var x := s + "\n" + a + "\n" + b + "\n";
    RegroupFrame(s, a, b, c);
    LastIsNoNewline(x, c);
    TrimOneMore(x + c);
  }

  lemma RegroupFrame(s: string, a: string, b: string, c: string)
    ensures s + ("\n" + (a + "\n" + (b + "\n" + (c + "\n" + "")))) == s + "\n" + a + "\n" + b + "\n" + c + "\n"
  {
    var inner := b + "\n" + (c + "\n" + "");
    assert inner == b + "\n" + c + "\n";
    assert "\n" + (a + "\n" + inner) == "\n" + a + "\n" + inner;
  }

  lemma BlockIsNormal(s: string)
    ensures Normalised(s + Block()) == s + Block()
  {
    SentinelsAreLines();
    BlockShape();
    NormalEnd(s, BEGIN, Entries(), END);
  }

  /** What a cut that takes nothing but doubles something leaves. */
  lemma DoubledTail(body: string, framed: string, end: nat)
    requires end <= |body|
    ensures var all := body + "\n" + framed;
            all[..|body| + 1] + all[end..] == body + "\n" + body[end..] + ("\n" + framed)
  {}

  /** Beside a stale end sentinel, it keeps the block and doubles what follows that sentinel. */
  lemma StaleEnd(body: string)
    requires !Contains(body, BEGIN) && Contains(body, END)
    ensures 0 <= Index(body, END) && Index(body, END) + |END| <= |body|
    ensures Remove(Add(body)) == body + "\n" + body[Index(body, END) + |END|..] + Block()
  {
    var all := body + Block();
    SentinelsAreLines();
    SentinelsDiffer();
    EntriesHaveNoSentinel();
    StripsIff(body);
    AddWithoutBlock(body);
    AddedShape(body);
    IndexInFront(body, Framed(), END);
    BeginOnce(body, BEGIN, Entries(), END);
    OnlyIndex(all, BEGIN, |body| + 1);
    var end := Index(body, END) + |END|;
    IndexFromFirst(body, END, 0);
    BlockShape();
    DoubledTail(body, Framed(), end);
    BlockIsNormal(body + "\n" + body[end..]);
  }

  lemma {:induction false} TrimmedIsShorter(s: string)
    ensures |TrimNewlines(s)| <= |s|
    decreases |s|
  {
    if s != "" && s[|s| - 1] == '\n' {
      TrimmedIsShorter(s[..|s| - 1]);
    }
  }

  /** For every body without a whole block, adding and removing restores it, up to trailing newlines, exactly when it holds
      no stray sentinel; `StaleBegin` and `StaleEnd` say what is left otherwise. */
  lemma RemoveAfterAddIff(body: string)
    requires !Strip(body).1
    ensures Remove(Add(body)) == Normalised(body) <==> Clean(body)
  {
    StripsIff(body);
    SentinelsAreLines();
    if Clean(body) {
      RemoveAfterAdd(body);
    } else if Contains(body, BEGIN) {
      StaleBegin(body);
      var start := Index(body, BEGIN);
      NormalisedContains(body, BEGIN);
      NormalisedContains(body[..start], BEGIN);
      ContainsInFront(body, BEGIN, start);
    } else {
      StaleEnd(body);
      TrimmedIsShorter(body);
    }
  }

  lemma {:induction false} TrimmedTwice(s: string)
    ensures TrimNewlines(TrimNewlines(s)) == TrimNewlines(s)
    decreases |s|
  {
    if s != "" && s[|s| - 1] == '\n' {
      TrimmedTwice(s[..|s| - 1]);
    }
  }

  lemma NormalisedTwice(s: string)
    ensures Normalised(Normalised(s)) == Normalised(s)
  {
    TrimOneMore(TrimNewlines(s));
    TrimmedTwice(s);
  }

  ghost predicate IsPeriodic(w: string, n: nat) {
    forall i :: 0 <= i && i + n < |w| ==> w[i] == w[i + n]
  }

  /** In a periodic text, an occurrence that ends at `e` comes again, and so does the character behind it. */
  lemma {:induction false} LastTurn(w: string, n: nat, pat: string, e: nat, c: char) returns (last: nat)
    requires 0 < n && IsPeriodic(w, n) && e <= |w| && OccursAt(w, pat, e - |pat|) && (e < |w| ==> w[e] == c)
    ensures e <= last <= |w| < last + n && OccursAt(w, pat, last - |pat|) && (last < |w| ==> w[last] == c)
    decreases |w| - e
  {
    if e + n <= |w| {
      OccursAgain(w, n, pat, e - |pat|);
      last := LastTurn(w, n, pat, e + n, c);
    } else {
      last := e;
    }
  }

  lemma OccursAgain(w: string, n: nat, pat: string, i: int)
    requires IsPeriodic(w, n) && OccursAt(w, pat, i) && i + |pat| + n <= |w|
    ensures OccursAt(w, pat, i + n)
  {
    var here, there := w[i..i + |pat|], w[i + n..i + n + |pat|];
    assert forall k :: 0 <= k < |pat| ==> here[k] == w[i + k] && there[k] == w[i + k + n];
  }

  /** A newline frames the text on both sides, and one follows the only `pat` in it. */
  ghost predicate IsFramed(block: string, pat: string) {
    && block != "" && block[0] == '\n'
    && forall i :: OccursAt(block, pat, i) ==> i + |pat| < |block| && block[i + |pat|] == '\n'
  }

  lemma AfterPattern(b: string, block: string, pat: string, e: nat)
    requires IsLine(pat) && IsFramed(block, pat)
    requires |b| < e <= |b| + |block| && OccursAt(b + block, pat, e - |pat|)
    ensures e < |b + block| && (b + block)[e] == '\n'
  {
    NoNewlineInside(b + block, pat, e - |pat|);
    assert (b + block)[|b|] == block[0];
    OccursInJoin(b, block, pat, e - |pat|);
  }

  /** A framed text is no rotation of one that starts with another character and ends with the pattern. */
  lemma NoRotation(u: string, b: string, block: string, pat: string)
    requires IsLine(pat) && pat != "" && IsFramed(block, pat)
    requires |u| == |block| && |pat| <= |u| && u[0] != '\n' && OccursAt(u, pat, |u| - |pat|)
    ensures u + b != b + block
  {
    var w := u + b;
    OccursInJoin(u, b, pat, |u| - |pat|);
    if w == b + block {
      ShiftedIsPeriodic(u, b, block);
      assert w[0] == u[0];
      var last := LastTurn(w, |u|, pat, |u|, u[0]);
      AfterPattern(b, block, pat, last);
    }
  }

  lemma ShiftedIsPeriodic(u: string, b: string, block: string)
    requires u + b == b + block && |u| == |block|
    ensures IsPeriodic(u + b, |u|)
  {
    forall i | 0 <= i && i + |u| < |u + b| ensures (u + b)[i] == (u + b)[i + |u|] {
      assert (u + b)[i + |u|] == b[i] == (b + block)[i];
    }
  }

  lemma BlockIsFramed()
    ensures IsFramed(Block(), END) && |Block()| > |END|
  {
    assert "" + Block() == Block();
    SentinelsAreLines();
    SentinelsDiffer();
    OneBlock("");
    BlockTail("");
    BlockShape();
    EndsWithNewline(Block(), 0 + 1 + |BEGIN| + 1 + |Entries()| + 1 + |END|);
  }

  lemma EndsWithNewline(s: string, end: nat)
    requires end <= |s| && s[end..] == "\n"
    ensures end < |s| && s[end] == '\n'
  {
    assert |s[end..]| == 1;
    assert s[end] == s[end..][0];
  }

  lemma TwoBlockBounds(base: string)
    requires Strip(base).1
    ensures Strip(base + Block()).1 && Bounds(base + Block()) == Bounds(base)
  {
    SentinelsAreLines();
    StripsIff(base);
    AddedShape(base);
    IndexInFront(base, Framed(), BEGIN);
    IndexInFront(base, Framed(), END);
  }

  lemma CutBefore(base: string, block: string, start: nat, end: nat)
    requires start <= |base| && end <= |base|
    ensures (base + block)[..start] + (base + block)[end..] == base[..start] + base[end..] + block
  {}

  lemma SameAfterCut(base: string, block: string, start: nat, end: nat)
    requires start <= end <= |base| && base[..start] + base[end..] + block == base
    ensures |block| == end - start && base[start..end] + base[end..] == base[end..] + block
  {
    var a, u, b := base[..start], base[start..end], base[end..];
    assert a + b + block == a + (b + block);
    DropFront(a, b + block);
    ThreePieces(base, start, end);
    DropFront(a, u + b);
  }

  lemma ThreePieces(base: string, start: nat, end: nat)
    requires start <= end <= |base|
    ensures base[..start] + (base[start..end] + base[end..]) == base
  {}

  lemma DropFront(a: string, x: string)
    ensures (a + x)[|a|..] == x
  {}

  lemma OccursInSlice(base: string, pat: string, i: int, lo: nat, hi: nat)
    requires OccursAt(base, pat, i) && lo <= i && i + |pat| <= hi <= |base|
    ensures OccursAt(base[lo..hi], pat, i - lo)
  {
    var there, here := base[lo..hi][i - lo..i - lo + |pat|], base[i..i + |pat|];
    assert forall k :: 0 <= k < |pat| ==> there[k] == here[k];
  }

  /** Removing a block never cancels out against one just added behind another. */
  lemma TwoBlocks(base: string)
    requires Strip(base).1
    ensures Remove(base + Block()) != base
  {
    var (start, end) := Bounds(base);
    TwoBlockBounds(base);
    StripLength(base + Block());
    CutBefore(base, Block(), start, end);
    BlockIsNormal(base[..start] + base[end..]);
    BlockIsFramed();
    if start < end {
      NotCancelled(base, start, end);
    }
  }

  lemma NotCancelledBy(base: string, block: string, pat: string, start: nat, end: nat)
    requires IsLine(pat) && pat != "" && IsFramed(block, pat) && |pat| <= |block|
    requires start < end <= |base| && base[start] != '\n' && OccursAt(base, pat, end - |pat|)
    ensures base[..start] + base[end..] + block != base
  {
    if base[..start] + base[end..] + block == base {
      SameAfterCut(base, block, start, end);
      OccursInSlice(base, pat, end - |pat|, start, end);
      NoRotation(base[start..end], base[end..], block, pat);
    }
  }

  lemma NotCancelled(base: string, start: nat, end: nat)
    requires Strip(base).1 && Bounds(base) == (start, end) && start < end
    ensures base[..start] + base[end..] + Block() != base
  {
    SentinelsAreLines();
    BlockIsFramed();
    IndexFromFirst(base, BEGIN, 0);
    IndexFromFirst(base, END, 0);
    NoNewlineInside(base, BEGIN, start);
    NotCancelledBy(base, Block(), END, start, end);
  }

  /** For a body with a block, adding first changes nothing about what removing leaves exactly when adding does nothing or
      removing leaves no stray sentinel. */
  lemma RemoveAfterReplaceIff(body: string)
    requires Strip(body).1
    ensures Remove(Add(body)) == Remove(body) <==> AllMapped(body) || Clean(Remove(body))
  {
    StripsIff(body);
    StripsIff(Remove(body));
    if !AllMapped(body) {
      NormalisedTwice(Cut(body));
      if Strip(Remove(body)).1 {
        TwoBlocks(Remove(body));
      } else {
        AddWithoutBlock(Remove(body));
        RemoveAfterAddIff(Remove(body));
      }
    }
  }

  /** A user's line that adding and removing the block deletes. */
  lemma UserLineLost() returns (body: string)
    ensures body == BEGIN + "\n" + "10.0.0.1 db" && Remove(Add(body)) == "\n"
  {
    body := BEGIN + "\n" + "10.0.0.1 db";
    SentinelsAreLines();
    SentinelsDiffer();
    ContainsHead("10.0.0.1 db", BEGIN);
    ContainsHead("10.0.0.1 db", END);
    ContainsAroundNewline(BEGIN, "10.0.0.1 db", END);
    OnlyBeforeNewline(BEGIN, "10.0.0.1 db", BEGIN, 0);
    OnlyIndex(body, BEGIN, 0);
    StaleBegin(body);
    assert body[..0] == "";
  }

  // ---- Mappings ------------------------------------------------------------

  /** The most bytes of a line that the scanner returns; a longer one ends the scan. */
  const MAX_LINE := 65535

  /** The length of a line in UTF-8. */
  function ByteLength(line: string): nat {
    if line == "" then 0 else Utf8Width(line[0]) + ByteLength(line[1..])
  }

  function Utf8Width(c: char): (n: nat)
    ensures 1 <= n <= 4
  {
    if c < '\U{0080}' then 1 else if c < '\U{0800}' then 2 else if c < '\U{10000}' then 3 else 4
  }

  function Pow2(n: nat): nat {
    if n == 0 then 1 else 2 * Pow2(n - 1)
  }

  /** How many bits of a code point `n` bytes of UTF-8 carry. */
  function PayloadBits(n: nat): nat {
    if n == 1 then 7 else 5 * n + 1
  }

  /** A code point takes the least number of bytes that can carry it. */
  lemma WidthIsLeast(c: char, n: nat)
    requires 1 <= n <= 4
    ensures Utf8Width(c) <= n <==> c as int < Pow2(PayloadBits(n))
  {
    assert Pow2(7) == 0x80;
    assert Pow2(11) == 16 * Pow2(7) by { assert Pow2(9) == 4 * Pow2(7); }
    assert Pow2(13) == 4 * Pow2(11);
    assert Pow2(16) == 8 * Pow2(13);
    assert Pow2(18) == 4 * Pow2(16);
    assert Pow2(21) == 8 * Pow2(18);
  }

  lemma {:induction false} ByteLengthConcat(a: string, b: string)
    ensures ByteLength(a + b) == ByteLength(a) + ByteLength(b)
    ensures forall c :: ByteLength([c]) == Utf8Width(c)
    decreases |a|
  {
    if a == "" {
      assert a + b == b;
    } else {
      ByteLengthConcat(a[1..], b);
      assert (a + b)[1..] == a[1..] + b;
    }
  }

  lemma {:induction false} ByteLengthBounds(line: string)
    ensures |line| <= ByteLength(line) <= 4 * |line|
    decreases |line|
  {
    if line != "" {
      ByteLengthBounds(line[1..]);
    }
  }

  /** The longest prefix without white space. */
  function Word(s: string): (w: string)
    ensures |w| <= |s|
    ensures s != "" && !IsSpace(s[0]) ==> w != ""
  {
    if s == "" || IsSpace(s[0]) then "" else [s[0]] + Word(s[1..])
  }

  /** `strings.Fields` */
  function Fields(s: string): seq<string>
    decreases |s|
  {
    if s == "" then []
    else if IsSpace(s[0]) then Fields(s[1..])
    else [Word(s)] + Fields(s[|Word(s)|..])
  }

  function BeforeHash(line: string): string {
    if line == "" || line[0] == '#' then "" else [line[0]] + BeforeHash(line[1..])
  }

  /** Simple case folding as far as it can relate a host name to one of plain ASCII letters. */
  function Fold(c: char): char {
    if 'A' <= c <= 'Z' then c - 'A' + 'a'
    else if c == '\U{212A}' then 'k'
    else if c == '\U{017F}' then 's'
    else c
  }

  predicate EqualFold(a: string, b: string) {
    |a| == |b| && forall i :: 0 <= i < |a| ==> Fold(a[i]) == Fold(b[i])
  }

  predicate LineMaps(line: string, name: string) {
    var fields := Fields(BeforeHash(line));
    |fields| >= 2 && fields[0] == LOOPBACK && exists j :: 1 <= j < |fields| && EqualFold(fields[j], name)
  }

  /** Some line maps the name, and no overlong line comes before it. */
  predicate Maps(lines: seq<string>, name: string) {
    lines != [] && ByteLength(lines[0]) <= MAX_LINE && (LineMaps(lines[0], name) || Maps(lines[1..], name))
  }

  predicate AllMapped(body: string) {
    forall k :: 0 <= k < |NAMES| ==> Maps(SplitLines(body), NAMES[k])
  }

  predicate Scannable(lines: seq<string>) {
    forall k :: 0 <= k < |lines| ==> ByteLength(lines[k]) <= MAX_LINE
  }

  /** The part of a line before its first number sign. */
  lemma {:induction false} BeforeHashSplits(line: string)
    ensures BeforeHash(line) <= line && '#' !in BeforeHash(line)
    ensures |BeforeHash(line)| < |line| ==> line[|BeforeHash(line)|] == '#'
    decreases |line|
  {
    if line != "" && line[0] != '#' {
      BeforeHashSplits(line[1..]);
    }
  }

  lemma {:induction false} WordStops(a: string, c: char, b: string)
    requires IsSpace(c)
    ensures Word(a + [c] + b) == Word(a) && Word(a) <= a
    ensures |Word(a)| < |a| ==> IsSpace(a[|Word(a)|])
    decreases |a|
  {
    if a != "" && !IsSpace(a[0]) {
      WordStops(a[1..], c, b);
      assert (a + [c] + b)[1..] == a[1..] + [c] + b;
    }
  }

  lemma DropWord(a: string, c: char, b: string, n: nat)
    requires n <= |a|
    ensures (a + [c] + b)[n..] == a[n..] + [c] + b
  {}

  /** White space separates the fields before it from those after it. */
  lemma {:induction false} FieldsConcat(a: string, c: char, b: string)
    requires c as int in WHITE
    ensures Fields(a + [c] + b) == Fields(a) + Fields(b)
    decreases |a|
  {
    SpaceIsWhite(c);
    var all := a + [c] + b;
    if a == "" {
      assert all[1..] == b;
    } else if IsSpace(a[0]) {
      FieldsConcat(a[1..], c, b);
      DropWord(a, c, b, 1);
    } else {
      WordStops(a, c, b);
      var n := |Word(a)|;
      DropWord(a, c, b, n);
      FieldsConcat(a[n..], c, b);
      assert Fields(all) == [Word(a)] + (Fields(a[n..]) + Fields(b));
    }
  }

  /** A word without white space is one field, and nothing is none. */
  lemma FieldsOfWord(w: string)
    requires forall k :: 0 <= k < |w| ==> w[k] as int !in WHITE
    ensures Fields(w) == if w == "" then [] else [w]
  {
    forall k | 0 <= k < |w| ensures !IsSpace(w[k]) {
      SpaceIsWhite(w[k]);
    }
    if w != "" {
      assert w + "" == w;
      WordOf(w, "");
      assert w[|w|..] == "";
    }
  }

  /** Which characters match one of a host name: itself, a letter in upper case, the Kelvin sign, the long s. */
  lemma FoldIff(c: char, d: char)
    requires IsHostChar(d)
    ensures Fold(c) == Fold(d) <==>
              || c == d
              || (0x61 <= d as int <= 0x7A && c as int == d as int - 32)
              || (d as int == 0x6B && c as int == 0x212A)
              || (d as int == 0x73 && c as int == 0x17F)
  {}

  /** A line maps a name: the loopback address is the first field before any number sign and the name a later one, in
      whatever case. */
  lemma LineMapsIff(line: string, name: string)
    ensures LineMaps(line, name) <==>
              var fields := Fields(BeforeHash(line));
              exists j :: 1 <= j < |fields| && fields[0] == "127.0.0.1" && |fields[j]| == |name|
                && forall i :: 0 <= i < |name| ==> Fold(fields[j][i]) == Fold(name[i])
  {
    var fields := Fields(BeforeHash(line));
    if LineMaps(line, name) {
      var j :| 1 <= j < |fields| && EqualFold(fields[j], name);
      assert |fields[j]| == |name|;
    }
    if j :| && 1 <= j < |fields| && fields[0] == "127.0.0.1" && |fields[j]| == |name|
            && forall i :: 0 <= i < |name| ==> Fold(fields[j][i]) == Fold(name[i])
    {
      assert EqualFold(fields[j], name);
    }
  }

  /** Line `i` maps the name, and neither it nor a line before it is longer than 65535 bytes. */
  ghost predicate MapsFrom(lines: seq<string>, i: nat, name: string) {
    i < |lines| && LineMaps(lines[i], name) && forall j :: 0 <= j <= i ==> ByteLength(lines[j]) <= 65535
  }

  lemma {:induction false} MapsSomewhere(lines: seq<string>, name: string) returns (i: nat)
    requires Maps(lines, name)
    ensures MapsFrom(lines, i, name)
    decreases |lines|
  {
    if LineMaps(lines[0], name) {
      i := 0;
    } else {
      i := MapsSomewhere(lines[1..], name);
      i := i + 1;
      assert forall j :: 0 < j <= i ==> lines[j] == lines[1..][j - 1];
    }
  }

  lemma {:induction false} MapsThere(lines: seq<string>, i: nat, name: string)
    requires MapsFrom(lines, i, name)
    ensures Maps(lines, name)
    decreases i
  {
    if i != 0 {
      assert forall j :: 0 <= j < i ==> lines[1..][j] == lines[j + 1];
      MapsThere(lines[1..], i - 1, name);
    }
  }

  lemma MapsIff(lines: seq<string>, name: string)
    ensures Maps(lines, name) <==> exists i :: MapsFrom(lines, i, name)
  {
    if Maps(lines, name) {
      var i := MapsSomewhere(lines, name);
    }
    if exists i :: MapsFrom(lines, i, name) {
      var i :| MapsFrom(lines, i, name);
      MapsThere(lines, i, name);
    }
  }

  /** `hasHostMapping`: scans line by line and field by field. */
  method HasHostMapping(body: string, name: string) returns (found: bool)
    ensures found == Maps(SplitLines(body), name)
    ensures found <==> exists i :: MapsFrom(SplitLines(body), i, name)
  {
    var lines := SplitLines(body);
    MapsIff(lines, name);
    var k := 0;
    while k < |lines|
      invariant 0 <= k <= |lines|
      invariant Maps(lines, name) == Maps(lines[k..], name)
    {
      assert lines[k..][1..] == lines[k + 1..];
      if ByteLength(lines[k]) > MAX_LINE {
        return false;
      }
      var fields := Fields(BeforeHash(lines[k]));
      if |fields| >= 2 && fields[0] == LOOPBACK {
        var j := 1;
        while j < |fields|
          invariant 1 <= j <= |fields|
          invariant forall l :: 1 <= l < j ==> !EqualFold(fields[l], name)
        {
          if EqualFold(fields[j], name) {
            return true;
          }
          j := j + 1;
        }
      }
      k := k + 1;
    }
    found := false;
  }

  lemma {:induction false} MapsConcat(a: seq<string>, b: seq<string>, name: string)
    ensures Maps(a + b, name) <==> Maps(a, name) || (Scannable(a) && Maps(b, name))
    decreases |a|
  {
    if a == [] {
      assert a + b == b;
    } else {
      MapsConcat(a[1..], b, name);
      assert (a + b)[1..] == a[1..] + b;
      assert Scannable(a) <==> ByteLength(a[0]) <= MAX_LINE && Scannable(a[1..]) by {
        if ByteLength(a[0]) <= MAX_LINE && Scannable(a[1..]) {
          assert forall k :: 0 < k < |a| ==> a[k] == a[1..][k - 1];
        }
      }
    }
  }

  lemma {:induction false} WordOf(w: string, rest: string)
    requires forall k :: 0 <= k < |w| ==> !IsSpace(w[k])
    requires rest == "" || IsSpace(rest[0])
    ensures Word(w + rest) == w
    decreases |w|
  {
    if w != "" {
      WordOf(w[1..], rest);
      assert (w + rest)[1..] == w[1..] + rest;
      assert [w[0]] + w[1..] == w;
    } else {
      assert w + rest == rest;
    }
  }

  lemma {:induction false} NoHashBefore(line: string)
    requires '#' !in line
    ensures BeforeHash(line) == line
    decreases |line|
  {
    if line != "" {
      NoHashBefore(line[1..]);
      assert [line[0]] + line[1..] == line;
    }
  }

  predicate IsName(w: string) {
    w != "" && '#' !in w && forall k :: 0 <= k < |w| ==> !IsSpace(w[k])
  }

  predicate IsHostChar(c: char) {
    'a' <= c <= 'z' || '0' <= c <= '9' || c == '.'
  }

  lemma HostCharsMakeNames(w: string)
    requires w != "" && forall k :: 0 <= k < |w| ==> IsHostChar(w[k])
    ensures IsName(w)
  {}

  lemma LoopbackIsName()
    ensures IsName(LOOPBACK)
  {
    HostCharsMakeNames(LOOPBACK);
  }

  lemma NamesAreNames()
    ensures forall k :: 0 <= k < |NAMES| ==> IsName(NAMES[k])
  {
    HostCharsMakeNames(NAMES[0]);
    HostCharsMakeNames(NAMES[1]);
    HostCharsMakeNames(NAMES[2]);
    HostCharsMakeNames(NAMES[3]);
  }

  /** An entry line maps its own name. */
  lemma EntryMaps(name: string)
    requires IsName(name)
    ensures LineMaps(Entry(name), name) && IsLine(Entry(name))
  {
    LoopbackIsName();
    var line := Entry(name);
    assert '#' !in line;
    NoHashBefore(line);
    assert line == LOOPBACK + (" " + name);
    WordOf(LOOPBACK, " " + name);
    assert line[|LOOPBACK|..] == " " + name;
    assert (" " + name)[1..] == name;
    assert name + "" == name;
    WordOf(name, "");
    assert Fields(name) == [name] + Fields(name[|name|..]);
    assert Fields(line) == [LOOPBACK, name];
    assert EqualFold(Fields(line)[1], name);
  }

  lemma BlockIsScannable()
    ensures Scannable(BlockLines())
  {
    var lines := BlockLines();
    forall k | 0 <= k < |lines| ensures ByteLength(lines[k]) <= MAX_LINE {
      ByteLengthBounds(lines[k]);
      assert |lines[k]| <= 40;
    }
  }

  /** The block's own lines show all four mappings. */
  lemma BlockMaps(k: nat)
    requires k < |NAMES|
    ensures Maps(BlockLines(), NAMES[k])
  {
    NamesAreNames();
    EntryMaps(NAMES[k]);
    BlockIsScannable();
    assert BlockLines()[k + 1] == Entry(NAMES[k]);
    MapsThere(BlockLines(), k + 1, NAMES[k]);
  }

  lemma BlockLinesAreLines()
    ensures forall k :: 0 <= k < |BlockLines()| ==> IsLine(BlockLines()[k])
  {
    SentinelsAreLines();
    NamesAreNames();
    EntryMaps(NAMES[0]);
    EntryMaps(NAMES[1]);
    EntryMaps(NAMES[2]);
    EntryMaps(NAMES[3]);
  }

  /** After adding, a name is visible exactly when no line of the body is too long for the scanner, or the body maps
      the name itself. */
  lemma VisibleIff(body: string, k: nat)
    requires k < |NAMES|
    ensures Maps(SplitLines(body + Block()), NAMES[k]) <==> Scannable(SplitLines(body)) || Maps(SplitLines(body), NAMES[k])
  {
    var lines := BlockLines();
    BlockLinesAreLines();
    SplitJoin(lines);
    assert body + Block() == body + "\n" + JoinLines(lines);
    SplitConcat(body, JoinLines(lines));
    MapsConcat(SplitLines(body), lines, NAMES[k]);
    BlockMaps(k);
  }

  /** The four tests in a row. */
  method HasAllMappings(body: string) returns (all: bool)
    ensures all == AllMapped(body)
  {
    all := true;
    var k := 0;
    while all && k < |NAMES|
      invariant 0 <= k <= |NAMES|
      invariant all <==> forall l :: 0 <= l < k ==> Maps(SplitLines(body), NAMES[l])
    {
      all := HasHostMapping(body, NAMES[k]);
      k := k + 1;
    }
  }

  /** `hostsAdd` between reading and writing the file. Whatever the body was, all four names are visible afterwards if
      the scanner can read the part that is kept. */
  method HostsAdd(body: string) returns (written: string)
    ensures written == Add(body)
    ensures Scannable(SplitLines(Remove(body))) ==> AllMapped(written)
  {
    StripsIff(body);
    var present := Strip(body).1;
    if present {
      present := HasAllMappings(body);
    }
    if present {
      return body;
    }
    written := Remove(body) + Block();
    VisibleAfterAdd(Remove(body));
  }

  lemma VisibleAfterAdd(base: string)
    ensures Scannable(SplitLines(base)) ==> AllMapped(base + Block())
  {
    forall l | 0 <= l < |NAMES| && Scannable(SplitLines(base)) ensures Maps(SplitLines(base + Block()), NAMES[l]) {
      VisibleIff(base, l);
    }
  }

  /** Adding twice is adding once exactly when the scanner can read the whole body, or the body maps all four names
      itself, or its trailing newlines are already normal. */
  lemma AddIdempotentIff(body: string)
    requires Clean(body)
    ensures Add(Add(body)) == Add(body) <==>
              Scannable(SplitLines(body)) || AllMapped(body) || body == Normalised(body)
  {
    AddToClean(body);
    RemoveAfterAdd(body);
    StripAdded(body);
    var all := body + Block();
    StripsIff(all);
    assert AllMapped(all) <==> Scannable(SplitLines(body)) || AllMapped(body) by {
      forall k | 0 <= k < |NAMES|
        ensures Maps(SplitLines(all), NAMES[k]) <==> Scannable(SplitLines(body)) || Maps(SplitLines(body), NAMES[k])
      {
        VisibleIff(body, k);
      }
    }
    if !AllMapped(all) {
      assert Add(all) == Normalised(body) + Block();
      SameFront(Normalised(body), body, Block());
    }
  }

  /** Not idempotent on every clean body: one line of 65536 characters without a newline hides the block from the
      scanner, and the second addition inserts a newline before it. */
  lemma AddTwiceDiffers() returns (body: string)
    ensures Clean(body) && Add(Add(body)) != Add(body)
  {
    body := seq(65536, _ => 'x');
    ContainsHead(body, BEGIN);
    ContainsHead(body, END);
    SplitOneLine(body);
    ByteLengthBounds(body);
    assert !Maps(SplitLines(body), NAMES[0]);
    assert body[65535] != '\n';
    assert Normalised(body) == body + "\n";
    AddIdempotentIff(body);
  }

  lemma SameFront(a: string, b: string, tail: string)
    ensures a + tail == b + tail <==> a == b
  {
    if a + tail == b + tail {
      assert |a| == |b|;
      assert a == (a + tail)[..|a|] == (b + tail)[..|b|] == b;
    }
  }
}
