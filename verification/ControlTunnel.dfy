/** The line framing of `internal/bridge/control.go`: one message a line over a byte stream. */
module ControlTunnel {
  import Text
  import opened Wrappers

  const NEWLINE: char := '\n'

  /** The bytes of these lines, each ended by a newline. */
  function Frame(lines: seq<string>): string {
    if lines == [] then "" else lines[0] + [NEWLINE] + Frame(lines[1..])
  }

  /** `ReadBytes('\n')`: the first line and the bytes after it, or nothing when the stream ends first. */
  function ReadLine(stream: string): Option<(string, string)> {
    if stream == "" then None
    else if stream[0] == NEWLINE then Some(("", stream[1..]))
    else
      match ReadLine(stream[1..])
      case None => None
      case Some((line, rest)) => Some(([stream[0]] + line, rest))
  }

  lemma {:induction false} ReadLineFirst(line: string, rest: string)
    requires Text.IsLine(line)
    ensures ReadLine(line + [NEWLINE] + rest) == Some((line, rest))
    decreases |line|
  {
    if line == "" {
      assert (line + [NEWLINE] + rest)[1..] == rest;
    } else {
      ReadLineFirst(line[1..], rest);
      assert (line + [NEWLINE] + rest)[1..] == line[1..] + [NEWLINE] + rest;
      assert [line[0]] + line[1..] == line;
    }
  }

  lemma {:induction false} ReadLineTorn(stream: string)
    requires Text.IsLine(stream)
    ensures ReadLine(stream) == None
    decreases |stream|
  {
    if stream != "" {
      ReadLineTorn(stream[1..]);
    }
  }

  lemma {:induction false} ReadLineShrinks(stream: string)
    ensures ReadLine(stream).Some? ==> |ReadLine(stream).value.1| < |stream|
    decreases |stream|
  {
    if stream != "" {
      ReadLineShrinks(stream[1..]);
    }
  }

  /** Every line a reader gets before the stream ends. */
  function ReadAll(stream: string): seq<string>
    decreases |stream|
  {
    match ReadLine(stream)
    case None => []
    case Some((line, rest)) => ReadLineShrinks(stream); [line] + ReadAll(rest)
  }

  lemma ReadAllCons(line: string, stream: string)
    requires Text.IsLine(line)
    ensures ReadAll(line + [NEWLINE] + stream) == [line] + ReadAll(stream)
  {
    ReadLineFirst(line, stream);
  }

  lemma FrameTake(lines: seq<string>, j: nat)
    requires 0 < j <= |lines|
    ensures |Frame(lines[..j])| == |lines[0]| + 1 + |Frame(lines[1..][..j - 1])|
  {
    assert lines[..j][1..] == lines[1..][..j - 1];
  }

  /** However the stream is cut off, the reader gets a prefix of the lines sent, all of those that arrived whole;
      a torn line is never taken for a message. */
  lemma {:induction false} CutStreamGivesPrefix(lines: seq<string>, cut: nat) returns (j: nat)
    requires forall k :: 0 <= k < |lines| ==> Text.IsLine(lines[k])
    requires cut <= |Frame(lines)|
    ensures j <= |lines| && ReadAll(Frame(lines)[..cut]) == lines[..j]
    ensures |Frame(lines[..j])| <= cut && (j < |lines| ==> cut < |Frame(lines[..j + 1])|)
    decreases |lines|
  {
    if lines == [] {
      j := 0;
    } else {
      var line := lines[0];
      FrameTake(lines, 1);
      if cut <= |line| {
        j := 0;
        assert Frame(lines)[..cut] == line[..cut];
        ReadLineTorn(line[..cut]);
      } else {
        var left := cut - |line| - 1;
        j := CutStreamGivesPrefix(lines[1..], left);
        assert Frame(lines)[..cut] == line + [NEWLINE] + Frame(lines[1..])[..left];
        ReadAllCons(line, Frame(lines[1..])[..left]);
        j := j + 1;
        assert lines[..j] == [line] + lines[1..][..j - 1];
        FrameTake(lines, j);
        if j < |lines| {
          FrameTake(lines, j + 1);
        }
      }
    }
  }

  lemma {:induction false} FrameAppend(lines: seq<string>, line: string)
    ensures Frame(lines + [line]) == Frame(lines) + line + [NEWLINE]
    decreases |lines|
  {
    if lines == [] {
      assert (lines + [line])[1..] == [];
    } else {
      FrameAppend(lines[1..], line);
      assert (lines + [line])[1..] == lines[1..] + [line];
    }
  }

  /** One end of the tunnel: the bytes still to be read, and the bytes written. */
  class Tunnel {
    var incoming: string
    var outgoing: string

    constructor (incoming: string)
      ensures this.incoming == incoming && outgoing == ""
    {
      this.incoming := incoming;
      outgoing := "";
    }

    /** Appends one line; a stream that framed `sent` now frames that line as well. */
    method Send(line: string, ghost sent: seq<string>)
      modifies this`outgoing
      ensures outgoing == old(outgoing) + Frame([line])
      ensures old(outgoing) == Frame(sent) ==> outgoing == Frame(sent + [line])
    {
      FrameAppend(sent, line);
      FrameAppend([], line);
      assert [] + [line] == [line];
      outgoing := outgoing + line + [NEWLINE];
    }

    /** The next line, or nothing once the stream has ended; a torn line is consumed with the end of the stream. */
    method Receive() returns (line: Option<string>)
      modifies this`incoming
      ensures line == if ReadLine(old(incoming)).Some? then Some(ReadLine(old(incoming)).value.0) else None
      ensures incoming == if ReadLine(old(incoming)).Some? then ReadLine(old(incoming)).value.1 else ""
    {
      var read := "";
      assert forall s: string :: read + s == s;
      while incoming != ""
        invariant ReadLine(old(incoming)) ==
                    match ReadLine(incoming)
                    case None => None
                    case Some((rest, after)) => Some((read + rest, after))
        decreases |incoming|
      {
        var c := incoming[0];
        incoming := incoming[1..];
        if c == NEWLINE {
          assert read + "" == read;
          return Some(read);
        }
        ghost var before := read;
        read := read + [c];
        assert forall s: string :: before + ([c] + s) == read + s;
      }
      line := None;
    }
  }
}
