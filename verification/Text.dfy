/** Lines and white space of texts, as the standard string functions see them. */
module Text {

  predicate IsLine(line: string) {
    '\n' !in line
  }

  /** `strings.Split(text, "\n")`. */
  function SplitLines(text: string): (lines: seq<string>)
    ensures lines != []
  {
    if text == "" then [""]
    else
      var rest := SplitLines(text[1..]);
      if text[0] == '\n' then [""] + rest
      else [[text[0]] + rest[0]] + rest[1..]
  }

  function JoinLines(lines: seq<string>): string
    requires lines != []
  {
    if |lines| == 1 then lines[0] else lines[0] + "\n" + JoinLines(lines[1..])
  }

  lemma {:induction false} JoinSplit(text: string)
    ensures JoinLines(SplitLines(text)) == text
    ensures forall k :: 0 <= k < |SplitLines(text)| ==> IsLine(SplitLines(text)[k])
  {
    if text != "" {
      JoinSplit(text[1..]);
      var rest := SplitLines(text[1..]);
      assert text == [text[0]] + text[1..];
      if text[0] == '\n' {
        assert SplitLines(text)[1..] == rest;
      } else if |rest| > 1 {
        assert SplitLines(text)[1..] == rest[1..];
      }
    }
  }

  /** Splitting what was joined gives the lines back. */
  lemma {:induction false} SplitJoin(lines: seq<string>)
    requires lines != [] && forall k :: 0 <= k < |lines| ==> IsLine(lines[k])
    ensures SplitLines(JoinLines(lines)) == lines
    decreases |lines|
  {
    if |lines| == 1 {
      SplitOneLine(lines[0]);
    } else {
      SplitJoin(lines[1..]);
      SplitConcat(lines[0], JoinLines(lines[1..]));
      SplitOneLine(lines[0]);
    }
  }

  lemma {:induction false} SplitOneLine(line: string)
    requires IsLine(line)
    ensures SplitLines(line) == [line]
    decreases |line|
  {
    if line != "" {
      SplitOneLine(line[1..]);
      assert [line[0]] + line[1..] == line;
    }
  }

  /** The lines after putting a character in front. */
  function ConsLine(c: char, lines: seq<string>): seq<string>
    requires lines != []
  {
    if c == '\n' then [""] + lines else [[c] + lines[0]] + lines[1..]
  }

  lemma SplitCons(c: char, s: string)
    ensures SplitLines([c] + s) == ConsLine(c, SplitLines(s))
  {
    assert ([c] + s)[1..] == s;
  }

  lemma ConsConcat(c: char, x: seq<string>, y: seq<string>)
    requires x != []
    ensures ConsLine(c, x + y) == ConsLine(c, x) + y
  {
    assert (x + y)[1..] == x[1..] + y;
  }

  /** A newline separates the lines before it from the lines after it. */
  lemma {:induction false} SplitConcat(a: string, b: string)
    ensures SplitLines(a + "\n" + b) == SplitLines(a) + SplitLines(b)
    decreases |a|
  {
    if a == "" {
      assert a + "\n" + b == ['\n'] + b;
      SplitCons('\n', b);
    } else {
      SplitConcat(a[1..], b);
      assert a == [a[0]] + a[1..];
      assert a + "\n" + b == [a[0]] + (a[1..] + "\n" + b);
      SplitCons(a[0], a[1..] + "\n" + b);
      SplitCons(a[0], a[1..]);
      ConsConcat(a[0], SplitLines(a[1..]), SplitLines(b));
    }
  }

  /** The code points `strings.TrimSpace` strips. */
  predicate IsSpace(c: char) {
    || '\t' <= c <= '\r' || c == ' ' || c == '\U{0085}' || c == '\U{00A0}' || c == '\U{1680}'
    || '\U{2000}' <= c <= '\U{200A}' || c == '\U{2028}' || c == '\U{2029}' || c == '\U{202F}' || c == '\U{205F}' || c == '\U{3000}'
  }

  function TrimLeft(s: string): string {
    if s != "" && IsSpace(s[0]) then TrimLeft(s[1..]) else s
  }

  function TrimRight(s: string): string {
    if s != "" && IsSpace(s[|s| - 1]) then TrimRight(s[..|s| - 1]) else s
  }

  function Trim(s: string): string {
    TrimRight(TrimLeft(s))
  }

  /** The white space of Unicode, by code point. */
  const WHITE: set<int> := {
    0x09, 0x0A, 0x0B, 0x0C, 0x0D, 0x20, 0x85, 0xA0, 0x1680,
    0x2000, 0x2001, 0x2002, 0x2003, 0x2004, 0x2005, 0x2006, 0x2007, 0x2008, 0x2009, 0x200A,
    0x2028, 0x2029, 0x202F, 0x205F, 0x3000
  }

  ghost predicate AllWhite(s: string) {
    forall k :: 0 <= k < |s| ==> s[k] as int in WHITE
  }

  /** `core` is what is left of `s` when white space is taken off both ends and nothing else. */
  ghost predicate IsTrimmed(s: string, core: string) {
    && (exists pre, post :: s == pre + core + post && AllWhite(pre) && AllWhite(post))
    && (core != "" ==> core[0] as int !in WHITE && core[|core| - 1] as int !in WHITE)
  }

  lemma SpaceIsWhite(c: char)
    ensures IsSpace(c) <==> c as int in WHITE
  {}

  lemma {:induction false} TrimLeftSplits(s: string) returns (pre: string)
    ensures s == pre + TrimLeft(s) && AllWhite(pre)
    ensures TrimLeft(s) != "" ==> TrimLeft(s)[0] as int !in WHITE
    decreases |s|
  {
    pre := "";
    if s != "" {
      SpaceIsWhite(s[0]);
      if IsSpace(s[0]) {
        pre := TrimLeftSplits(s[1..]);
        pre := [s[0]] + pre;
      }
    }
  }

  lemma {:induction false} TrimRightSplits(s: string) returns (post: string)
    ensures s == TrimRight(s) + post && AllWhite(post)
    ensures TrimRight(s) != "" ==> TrimRight(s)[|TrimRight(s)| - 1] as int !in WHITE
    decreases |s|
  {
    post := "";
    if s != "" {
      SpaceIsWhite(s[|s| - 1]);
      if IsSpace(s[|s| - 1]) {
        post := TrimRightSplits(s[..|s| - 1]);
        post := post + [s[|s| - 1]];
      }
    }
  }

  /** Trimming takes white space off both ends, all of it and nothing else. */
  lemma TrimIsTrimmed(s: string)
    ensures IsTrimmed(s, Trim(s))
  {
    var pre := TrimLeftSplits(s);
    var post := TrimRightSplits(TrimLeft(s));
    assert s == pre + Trim(s) + post;
    if Trim(s) != "" {
      assert Trim(s)[0] == TrimLeft(s)[0];
    }
  }

  lemma CoreAt(pre: string, core: string, post: string)
    ensures core != "" ==> (pre + core + post)[|pre|] == core[0]
    ensures core != "" ==> (pre + core + post)[|pre| + |core| - 1] == core[|core| - 1]
    ensures forall k :: 0 <= k < |pre| ==> (pre + core + post)[k] == pre[k]
    ensures forall k :: 0 <= k < |post| ==> (pre + core + post)[|pre| + |core| + k] == post[k]
  {}

  /** The ends of a text that can be white. */
  ghost predicate WhiteEnds(s: string, pre: nat, post: nat) {
    && pre + post <= |s|
    && (forall k :: 0 <= k < pre ==> s[k] as int in WHITE)
    && (forall k :: |s| - post <= k < |s| ==> s[k] as int in WHITE)
  }

  lemma PiecesHaveWhiteEnds(pre: string, core: string, post: string)
    requires AllWhite(pre) && AllWhite(post)
    ensures WhiteEnds(pre + core + post, |pre|, |post|)
  {
    CoreAt(pre, core, post);
    var s := pre + core + post;
    forall k | |s| - |post| <= k < |s| ensures s[k] as int in WHITE {
      assert s[|pre| + |core| + (k - |pre| - |core|)] == post[k - |pre| - |core|];
    }
  }

  /** The core that is not empty is the middle, and no other white ends reach into it. */
  lemma CoreIsMiddle(s: string, pre: string, core: string, post: string, p: nat, q: nat)
    requires s == pre + core + post && WhiteEnds(s, p, q)
    requires core != "" && core[0] as int !in WHITE && core[|core| - 1] as int !in WHITE
    ensures p <= |pre| && q <= |post| && core == s[|pre|..|s| - |post|]
  {
    CoreAt(pre, core, post);
  }

  lemma WhiteHasNoCore(s: string, pre: string, core: string, post: string)
    requires s == pre + core + post && AllWhite(s) && (core != "" ==> core[0] as int !in WHITE)
    ensures core == ""
  {
    CoreAt(pre, core, post);
  }

  /** There is only one way to trim. */
  lemma TrimmedOnce(s: string, a: string, b: string)
    requires IsTrimmed(s, a) && IsTrimmed(s, b)
    ensures a == b
  {
    var pre, post :| s == pre + a + post && AllWhite(pre) && AllWhite(post);
    var pre', post' :| s == pre' + b + post' && AllWhite(pre') && AllWhite(post');
    PiecesHaveWhiteEnds(pre, a, post);
    PiecesHaveWhiteEnds(pre', b, post');
    if a == "" {
      WhiteHasNoCore(s, pre', b, post');
    } else if b == "" {
      WhiteHasNoCore(s, pre, a, post);
    } else {
      CoreIsMiddle(s, pre, a, post, |pre'|, |post'|);
      CoreIsMiddle(s, pre', b, post', |pre|, |post|);
    }
  }
}
