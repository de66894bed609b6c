/** Lines over byte streams. A text here is a sequence of bytes, one char per byte. */
module Framing {
  import opened Wrappers

  const NEWLINE: char := '\n'

  /** The first newline, or -1. */
  function IndexOf(s: string): (i: int)
    ensures -1 <= i < |s|
    ensures i == -1 <==> NEWLINE !in s
    ensures i >= 0 ==> s[i] == NEWLINE && forall j :: 0 <= j < i ==> s[j] != NEWLINE
  {
    if s == "" then -1
    else if s[0] == NEWLINE then 0
    else
      var i := IndexOf(s[1..]);
      assert forall j :: 1 <= j < |s| ==> s[j] == s[1..][j - 1];
      if i == -1 then -1 else i + 1
  }

  lemma IndexOfIs(s: string, i: nat)
    requires i < |s| && s[i] == NEWLINE && forall j :: 0 <= j < i ==> s[j] != NEWLINE
    ensures IndexOf(s) == i
  {
    assert s[i] in s;
  }

  function Concat(chunks: seq<string>): string {
    if chunks == [] then "" else Concat(chunks[..|chunks| - 1]) + chunks[|chunks| - 1]
  }

  // ---- The reference: one byte at a time ----

  /** The lines that newlines complete, and the bytes after the last newline. */
  function Split(s: string): (seq<string>, string) {
    if s == "" then ([], "")
    else
      var (lines, rest) := Split(s[..|s| - 1]);
      var c := s[|s| - 1];
      if c == NEWLINE then (lines + [rest], "") else (lines, rest + [c])
  }

  /** `trimmed()`: tab, newline, vertical tab, form feed, carriage return, space. */
  predicate IsSpace(c: char) {
    9 <= c as int <= 13 || c == ' '
  }

  function Trim(s: string): string {
    if s == "" then s
    else if IsSpace(s[0]) then Trim(s[1..])
    else if IsSpace(s[|s| - 1]) then Trim(s[..|s| - 1])
    else s
  }

  /** Trimming cuts off exactly the outer blanks: tab, newline, vertical tab, form feed, carriage return and
      space. What is left neither begins nor ends with one. */
  lemma {:induction false} TrimExactly(s: string) returns (before: string, after: string)
    ensures s == before + Trim(s) + after
    ensures forall c :: c in before || c in after ==> c as int in {9, 10, 11, 12, 13, 32}
    ensures Trim(s) != "" ==> {Trim(s)[0] as int, Trim(s)[|Trim(s)| - 1] as int} !! {9, 10, 11, 12, 13, 32}
  {
    before, after := "", "";
    if s != "" && IsSpace(s[0]) {
      before, after := TrimExactly(s[1..]);
      before := [s[0]] + before;
    } else if s != "" && IsSpace(s[|s| - 1]) {
      before, after := TrimExactly(s[..|s| - 1]);
      after := after + [s[|s| - 1]];
    }
  }

  /** The lines, each with its newline. */
  function Terminated(lines: seq<string>): string {
    if lines == [] then "" else Terminated(lines[..|lines| - 1]) + lines[|lines| - 1] + [NEWLINE]
  }

  /** Splitting neither loses nor moves a byte: the lines with their newlines and the rest are the stream,
      and no newline is left inside a line or in the rest. Only one way of splitting does that. */
  lemma {:induction false} SplitExactly(s: string)
    ensures s == Terminated(Split(s).0) + Split(s).1
    ensures NEWLINE !in Split(s).1 && forall line :: line in Split(s).0 ==> NEWLINE !in line
  {
    if s != "" {
      SplitExactly(s[..|s| - 1]);
      var (lines, rest) := Split(s[..|s| - 1]);
      assert s == s[..|s| - 1] + [s[|s| - 1]];
      assert (lines + [rest])[..|lines|] == lines;
    }
  }

  lemma {:induction false} SplitIsUnique(lines: seq<string>, rest: string)
    requires NEWLINE !in rest && forall line :: line in lines ==> NEWLINE !in line
    ensures Split(Terminated(lines) + rest) == (lines, rest)
  {
    if lines == [] {
      PlainSplit(rest);
      assert Terminated(lines) + rest == rest;
    } else {
      var n := |lines| - 1;
      SplitIsUnique(lines[..n], lines[n]);
      SplitOneMore(Terminated(lines[..n]) + lines[n], lines[..n], lines[n], rest);
      assert lines == lines[..n] + [lines[n]];
    }
  }

  lemma SplitOneMore(front: string, lines: seq<string>, line: string, rest: string)
    requires Split(front) == (lines, line) && NEWLINE !in rest
    ensures Split(front + [NEWLINE] + rest) == (lines + [line], rest)
  {
    EndLine(front, lines, line);
    PlainSplit(rest);
    SplitAppend(front + [NEWLINE], rest);
    assert "" + rest == rest && lines + [line] + [] == lines + [line];
  }

  lemma EndLine(front: string, lines: seq<string>, line: string)
    requires Split(front) == (lines, line)
    ensures Split(front + [NEWLINE]) == (lines + [line], "")
  {
    var s := front + [NEWLINE];
    assert s[..|s| - 1] == front && s[|s| - 1] == NEWLINE;
  }

  /** The trimmed lines, without the empty ones. */
  function Handed(lines: seq<string>): seq<string> {
    if lines == [] then []
    else
      var line := Trim(lines[|lines| - 1]);
      Handed(lines[..|lines| - 1]) + if line == "" then [] else [line]
  }

  function HandedBy(stream: string): seq<string> {
    Handed(Split(stream).0)
  }

  function Rest(stream: string): string {
    Split(stream).1
  }

  lemma {:induction false} HandedAppend(a: seq<string>, b: seq<string>)
    ensures Handed(a + b) == Handed(a) + Handed(b)
  {
    if b == [] {
      assert a + b == a;
    } else {
      assert (a + b)[..|a + b| - 1] == a + b[..|b| - 1];
      HandedAppend(a, b[..|b| - 1]);
    }
  }

  /** A line is handed over exactly if it holds something other than blanks. */
  lemma HandsOverExactly(line: string)
    ensures Handed([line]) == if Trim(line) == "" then [] else [Trim(line)]
    ensures Trim(line) == "" <==> forall c :: c in line ==> c as int in {9, 10, 11, 12, 13, 32}
  {
    assert [line][..0] == [];
    var before, after := TrimExactly(line);
    if Trim(line) != "" { assert Trim(line)[0] in line; }
  }

  lemma {:induction false} RestHasNoNewline(s: string)
    ensures NEWLINE !in Split(s).1
  {
    if s != "" { RestHasNoNewline(s[..|s| - 1]); }
  }

  /** Splitting a stream is splitting its first part and going on with what that leaves. */
  lemma {:induction false} SplitAppend(a: string, b: string)
    ensures var (lines, rest) := Split(a);
            Split(a + b) == (lines + Split(rest + b).0, Split(rest + b).1)
  {
    var (lines, rest) := Split(a);
    if b == "" {
      RestHasNoNewline(a);
      PlainSplit(rest);
      assert a + b == a && rest + b == rest && lines + Split(rest).0 == lines;
    } else {
      var n := |b| - 1;
      SplitAppend(a, b[..n]);
      assert (a + b)[..|a + b| - 1] == a + b[..n];
      assert (rest + b)[..|rest + b| - 1] == rest + b[..n];
      var (more, left) := Split(rest + b[..n]);
      assert lines + more + [left] == lines + (more + [left]);
    }
  }

  lemma {:induction false} PlainSplit(s: string)
    requires NEWLINE !in s
    ensures Split(s) == ([], s)
  {
    if s != "" {
      PlainSplit(s[..|s| - 1]);
      assert s == s[..|s| - 1] + [s[|s| - 1]];
    }
  }

  lemma FirstLine(s: string, i: nat)
    requires i < |s| && s[i] == NEWLINE && forall j :: 0 <= j < i ==> s[j] != NEWLINE
    ensures Split(s) == ([s[..i]] + Split(s[i + 1..]).0, Split(s[i + 1..]).1)
  {
    PlainSplit(s[..i]);
    assert s[..i + 1][..i] == s[..i];
    var none: seq<string> := [];
    assert none + [s[..i]] == [s[..i]];
    assert Split(s[..i + 1]) == ([s[..i]], "");
    SplitAppend(s[..i + 1], s[i + 1..]);
    assert s == s[..i + 1] + s[i + 1..] && "" + s[i + 1..] == s[i + 1..];
  }

  /** Taking the first line off hands it over, unless it is blank, and leaves the rest to be split. */
  lemma HandsOver(s: string, i: nat)
    requires i < |s| && s[i] == NEWLINE && forall j :: 0 <= j < i ==> s[j] != NEWLINE
    ensures HandedBy(s) == (if Trim(s[..i]) == "" then [] else [Trim(s[..i])]) + HandedBy(s[i + 1..])
    ensures Rest(s) == Rest(s[i + 1..])
  {
    FirstLine(s, i);
    HandedAppend([s[..i]], Split(s[i + 1..]).0);
    assert [s[..i]][..0] == [];
  }

  // ---- The desktop's buffers ----

  type Socket = nat

  class Buffers {
    var buffers: map<Socket, string>

    constructor ()
      ensures buffers == map[]
    {
      buffers := map[];
    }

    method Accept(socket: Socket)
      modifies this
      ensures buffers == old(buffers)[socket := ""]
    {
      buffers := buffers[socket := ""];
    }

    method Disconnect(socket: Socket)
      modifies this
      ensures buffers == old(buffers) - {socket}
    {
      buffers := buffers - {socket};
    }

    function Buffered(socket: Socket): string
      reads this
    {
      if socket in buffers then buffers[socket] else ""
    }

    /** The lines handed to processLine for one readyRead, in order; other sockets are untouched. */
    method ReadClient(socket: Socket, received: string) returns (handed: seq<string>)
      modifies this
      ensures handed == HandedBy(old(Buffered(socket)) + received)
      ensures buffers == old(buffers)[socket := Rest(old(Buffered(socket)) + received)]
    {
      var buffer := (if socket in buffers then buffers[socket] else "") + received;
      handed, buffer := TakeLines(buffer);
      buffers := buffers[socket := buffer];
    }
  }

  /** The loop of readClient on one buffer. */
  method TakeLines(stream: string) returns (handed: seq<string>, buffer: string)
    ensures handed == HandedBy(stream) && buffer == Rest(stream)
  {
    handed, buffer := [], stream;
    var end := IndexOf(buffer);
    while end >= 0
      invariant end == IndexOf(buffer)
      invariant HandedBy(stream) == handed + HandedBy(buffer)
      invariant Rest(stream) == Rest(buffer)
      decreases |buffer|
    {
      var line := Trim(buffer[..end]);
      HandsOver(buffer, end);
      if line != "" { handed := handed + [line]; }
      buffer := buffer[end + 1..];
      end := IndexOf(buffer);
    }
    PlainSplit(buffer);
  }

  /** What a sequence of readyRead calls hands over in all, and what it leaves in the buffer. */
  function ReadAll(buffer: string, chunks: seq<string>): (seq<string>, string) {
    if chunks == [] then ([], buffer)
    else
      var (handed, rest) := ReadAll(buffer, chunks[..|chunks| - 1]);
      var buffer := rest + chunks[|chunks| - 1];
      (handed + HandedBy(buffer), Rest(buffer))
  }

  /** However the stream is cut into chunks, the lines handed over and the bytes left are those of the
      whole stream, and no newline is left. */
  lemma {:induction false} ChunksDoNotMatter(chunks: seq<string>)
    ensures ReadAll("", chunks) == (HandedBy(Concat(chunks)), Rest(Concat(chunks)))
    ensures NEWLINE !in ReadAll("", chunks).1
  {
    RestHasNoNewline(Concat(chunks));
    if chunks != [] {
      var n := |chunks| - 1;
      ChunksDoNotMatter(chunks[..n]);
      SplitAppend(Concat(chunks[..n]), chunks[n]);
      HandedAppend(Split(Concat(chunks[..n])).0, Split(Split(Concat(chunks[..n])).1 + chunks[n]).0);
    }
  }

  // ---- The phone's _readLine ----

  /** The line a stream starts with. */
  function LineOf(stream: string): Option<string> {
    if IndexOf(stream) == -1 then None else Some(stream[..IndexOf(stream)])
  }

  lemma LineOfExtends(a: string, b: string)
    requires IndexOf(a) >= 0
    ensures IndexOf(a + b) == IndexOf(a) && LineOf(a + b) == LineOf(a)
  {
    var i := IndexOf(a);
    IndexOfIs(a + b, i);
    assert (a + b)[..i] == a[..i];
  }

  lemma {:induction false} ConcatSplit(chunks: seq<string>, k: nat)
    requires k <= |chunks|
    ensures Concat(chunks) == Concat(chunks[..k]) + Concat(chunks[k..])
  {
    if k == |chunks| {
      assert chunks[..k] == chunks;
    } else {
      var n := |chunks| - 1;
      ConcatSplit(chunks[..n], k);
      assert chunks[..n][..k] == chunks[..k] && chunks[..n][k..] == chunks[k..][..n - k];
      assert Concat(chunks[k..]) == Concat(chunks[k..][..n - k]) + chunks[n];
    }
  }

  /** The line does not depend on the chunks. What they do decide is how much of the stream the call
      consumes: the bytes that share a chunk with the newline are dropped with it. */
  method ReadLine(chunks: seq<string>) returns (line: Option<string>, used: nat, dropped: string)
    ensures line == LineOf(Concat(chunks))
    ensures used <= |chunks|
    ensures line.Some? ==> Concat(chunks[..used]) == line.value + [NEWLINE] + dropped
    ensures line.Some? ==> used > 0 && NEWLINE !in Concat(chunks[..used - 1])
  {
    var bytes := "";
    used := 0;
    while used < |chunks|
      invariant used <= |chunks| && bytes == Concat(chunks[..used]) && NEWLINE !in bytes
    {
      assert chunks[..used + 1][..used] == chunks[..used];
      bytes := bytes + chunks[used];
      used := used + 1;
      var newline := IndexOf(bytes);
      if newline >= 0 {
        ConcatSplit(chunks, used);
        LineOfExtends(bytes, Concat(chunks[used..]));
        return Some(bytes[..newline]), used, bytes[newline + 1..];
      }
    }
    assert chunks[..used] == chunks;
    return None, used, "";
  }
}
