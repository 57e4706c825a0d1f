/** The line protocol between the client and the server: both read a stream that arrives cut anywhere. */
module LineReaders {
  import opened Common
  import opened Streams

  // ---- lines of a text ----

  function LineEnd(s: string): (k: nat)
    ensures k <= |s| && Free(s, '\n', 0, k) && (k < |s| ==> s[k] == '\n') && (k == |s| <==> '\n' !in s)
  {
    if s == "" || s[0] == '\n' then 0
    else
      var at := LineEnd(s[1..]);
      FreeFront(s, '\n', at);
      assert s == [s[0]] + s[1..];
      at + 1
  }

  function WithoutReturn(s: string): string { if s != "" && s[|s| - 1] == '\r' then s[..|s| - 1] else s }

  function WithoutNewline(s: string): string { if s != "" && s[|s| - 1] == '\n' then s[..|s| - 1] else s }

  /** The front of a text ends its line wherever the rest is cut off. */
  lemma LineEndOfFront(a: string, b: string)
    requires '\n' in a
    ensures LineEnd(a + b) == LineEnd(a)
  {
    var k := LineEnd(a);
    assert (a + b)[..LineEnd(a + b)] == (a + b)[..LineEnd(a + b)];
    assert (a + b)[k] == '\n' && forall i :: 0 <= i < k ==> (a + b)[i] == a[i] && a[i] in a[..k];
  }

  /** What the server delivers of a text: its finished lines, each without one carriage return at its end. */
  function ServerLines(s: string): seq<string>
    decreases |s|
  {
    var k := LineEnd(s);
    if k == |s| then [] else [WithoutReturn(s[..k])] + ServerLines(s[k + 1..])
  }

  /** What the server withholds: the line that is not finished. */
  function Tail(s: string): string
    decreases |s|
  {
    var k := LineEnd(s);
    if k == |s| then s else Tail(s[k + 1..])
  }

  /** What the client delivers: the lines with their newlines, and an unfinished one. */
  function ClientLines(s: string): seq<string>
    decreases |s|
  {
    if s == "" then [] else
      var k := LineEnd(s);
      if k == |s| then [s] else [s[..k + 1]] + ClientLines(s[k + 1..])
  }

  // ---- readers ----

  /** The `LineReader` of the server. */
  class ServerReader {
    const sock: Socket<char>
    var buffer: string

    constructor (sock: Socket<char>)
      ensures this.sock == sock && buffer == ""
    {
      this.sock := sock;
      buffer := "";
    }

    /** What is still to be delivered, wherever it is. */
    ghost function Pending(): string
      reads this, sock
    {
      buffer + sock.stream
    }

    method ReadLine() returns (out: Option<string>)
      modifies this, sock
      ensures out.Some? ==> var p := old(Pending()); '\n' in p && out == Some(WithoutReturn(p[..LineEnd(p)])) && Pending() == p[LineEnd(p) + 1..]
      ensures out.None? ==> Pending() == old(Pending())
      ensures sock.Alive() && '\n' in old(Pending()) ==> out.Some?
    {
      while true
        invariant Pending() == old(Pending())
        decreases |sock.stream|
      {
        var pos := LineEnd(buffer);
        if pos < |buffer| {
          out := Some(WithoutReturn(buffer[..pos]));
          LineEndOfFront(buffer, sock.stream);
          assert (buffer + sock.stream)[..pos] == buffer[..pos];
          assert (buffer + sock.stream)[pos + 1..] == buffer[pos + 1..] + sock.stream;
          buffer := buffer[pos + 1..];
          return;
        }
        var chunk := sock.Recv(4096);
        if chunk == [] {
          return None;
        }
        Regroup(buffer, chunk, sock.stream);
        buffer := buffer + chunk;
      }
    }
  }

  /** The `LineReader` of the client. */
  class ClientReader {
    const sock: Socket<char>
    var buffer: string

    constructor (sock: Socket<char>)
      ensures this.sock == sock && buffer == ""
    {
      this.sock := sock;
      buffer := "";
    }

    ghost function Pending(): string
      reads this, sock
    {
      buffer + sock.stream
    }

    method ReadLine() returns (out: Option<string>)
      modifies this, sock
      ensures sock.Alive() ==>
                var p := old(Pending()); var k := LineEnd(p);
                if p == "" then out.None? && Pending() == ""
                else if k == |p| then out == Some(p) && Pending() == ""
                else out == Some(p[..k + 1]) && Pending() == p[k + 1..]
      ensures old(Pending()) == out.GetOr("") + Pending()
      ensures out.Some? ==> out.value != ""
    {
      while true
        invariant Pending() == old(Pending())
        decreases |sock.stream|
      {
        var pos := LineEnd(buffer);
        if pos < |buffer| {
          out := Some(buffer[..pos + 1]);
          LineEndOfFront(buffer, sock.stream);
          assert (buffer + sock.stream)[..pos + 1] == buffer[..pos + 1];
          assert (buffer + sock.stream)[pos + 1..] == buffer[pos + 1..] + sock.stream;
          assert buffer + sock.stream == buffer[..pos + 1] + (buffer[pos + 1..] + sock.stream);
          buffer := buffer[pos + 1..];
          return;
        }
        var chunk := sock.Recv(4096);
        if chunk == [] {
          assert sock.Alive() ==> sock.stream == "" && buffer + sock.stream == buffer;
          if buffer == "" {
            return None;
          }
          out := Some(buffer);
          buffer := "";
          return;
        }
        Regroup(buffer, chunk, sock.stream);
        buffer := buffer + chunk;
      }
    }
  }

  /** However the stream is cut, the server gets the finished lines of the whole stream, in order, and the rest stays with the reader. */
  method ServeAll(reader: ServerReader) returns (lines: seq<string>)
    requires reader.sock.Alive()
    modifies reader, reader.sock
    ensures lines == ServerLines(old(reader.Pending())) && reader.Pending() == Tail(old(reader.Pending()))
  {
    lines := [];
    while true
      invariant lines + ServerLines(reader.Pending()) == ServerLines(old(reader.Pending()))
      invariant Tail(reader.Pending()) == Tail(old(reader.Pending()))
      decreases |reader.Pending()|
    {
      ghost var p := reader.Pending();
      var line := reader.ReadLine();
      if line.None? {
        assert ServerLines(p) == [] && lines + [] == lines;
        return;
      }
      Regroup(lines, [line.value], ServerLines(reader.Pending()));
      lines := lines + [line.value];
    }
  }

  /** However the stream is cut, the client gets all of it, line by line. */
  method ReadAll(reader: ClientReader) returns (lines: seq<string>)
    requires reader.sock.Alive()
    modifies reader, reader.sock
    ensures lines == ClientLines(old(reader.Pending())) && reader.Pending() == ""
  {
    lines := [];
    while true
      invariant lines + ClientLines(reader.Pending()) == ClientLines(old(reader.Pending()))
      decreases |reader.Pending()|
    {
      var line := reader.ReadLine();
      if line.None? {
        assert lines + [] == lines;
        return;
      }
      Regroup(lines, [line.value], ClientLines(reader.Pending()));
      lines := lines + [line.value];
    }
  }

  /** The client drops nothing: its lines are the stream. */
  lemma {:induction false} ClientKeepsAll(s: string)
    ensures Concat(ClientLines(s)) == s
    decreases |s|
  {
    if s != "" {
      var k := LineEnd(s);
      if k < |s| {
        ClientKeepsAll(s[k + 1..]);
        assert s == s[..k + 1] + s[k + 1..];
      } else {
        assert ClientLines(s)[1..] == [] && s + [] == s;
      }
    }
  }

  function Unlines(lines: seq<string>): string
  {
    if lines == [] then "" else lines[0] + ("\n" + Unlines(lines[1..]))
  }

  lemma LineEndAt(l: string, rest: string)
    requires '\n' !in l
    ensures LineEnd(l + ("\n" + rest)) == |l|
  {
    var s := l + ("\n" + rest);
    assert forall i :: 0 <= i < |l| ==> s[i] == l[i];
    assert s[|l|] == '\n';
    assert forall j :: 0 <= j < LineEnd(s) ==> s[j] == s[..LineEnd(s)][j];
  }

  /** Lines that are sent, each ended by a newline, are the lines the server gets, but for a carriage return at their ends; the unfinished rest is withheld. */
  lemma {:induction false} ServerGetsLines(lines: seq<string>, rest: string)
    requires '\n' !in rest && forall i :: 0 <= i < |lines| ==> '\n' !in lines[i]
    ensures |ServerLines(Unlines(lines) + rest)| == |lines| && Tail(Unlines(lines) + rest) == rest
    ensures forall i :: 0 <= i < |lines| ==> ServerLines(Unlines(lines) + rest)[i] == WithoutReturn(lines[i])
  {
    if lines == [] {
      assert Unlines(lines) + rest == rest;
    } else {
      var more := Unlines(lines[1..]) + rest;
      assert Unlines(lines) + rest == lines[0] + ("\n" + more);
      FirstLine(lines[0], more);
      ServerGetsLines(lines[1..], rest);
    }
  }

  lemma FirstLine(l: string, rest: string)
    requires '\n' !in l
    ensures var s := l + ("\n" + rest); ServerLines(s) == [WithoutReturn(l)] + ServerLines(rest) && Tail(s) == Tail(rest)
  {
    var s := l + ("\n" + rest);
    LineEndAt(l, rest);
    assert s[..|l|] == l && s[|l| + 1..] == rest;
  }

  // ---- responses ----

  const END := "---END---"

  /** `send_response`: status, body, time and the end mark. */
  function ResponseText(status: string, body: string, time: string): string
  {
    status + ("\n" + (body + ("\n" + (time + ("\n" + (END + "\n"))))))
  }

  method SendResponse(sock: Socket<char>, status: string, body: string, time: string) returns (ok: bool)
    modifies sock
    ensures ok ==> sock.stream == old(sock.stream) + ResponseText(status, body, time)
    ensures sock.Alive() ==> ok
  {
    ok := WriteAll(sock, ResponseText(status, body, time));
  }

  /** A line as `read_response` looks at it. */
  function Bare(line: string): string { WithoutReturn(WithoutNewline(line)) }

  /** The lines up to the end mark, and what is left behind it. */
  function Response(s: string): (seq<string>, string)
    decreases |s|
  {
    if s == "" then ([], "")
    else
      var k := LineEnd(s);
      var (line, rest) := if k == |s| then (s, "") else (s[..k + 1], s[k + 1..]);
      if Bare(line) == END then ([], rest) else var (more, left) := Response(rest); ([Bare(line)] + more, left)
  }

  /** `read_response` */
  method ReadResponse(reader: ClientReader) returns (lines: seq<string>)
    requires reader.sock.Alive()
    modifies reader, reader.sock
    ensures (lines, reader.Pending()) == Response(old(reader.Pending()))
  {
    lines := [];
    ghost var (all, end) := Response(reader.Pending());
    while true
      invariant var (more, left) := Response(reader.Pending()); lines + more == all && left == end
      decreases |reader.Pending()|
    {
      var line := reader.ReadLine();
      if line.None? {
        assert lines + [] == lines;
        return;
      }
      var bare := Bare(line.value);
      if bare == END {
        assert lines + [] == lines;
        return;
      }
      Regroup(lines, [bare], Response(reader.Pending()).0);
      lines := lines + [bare];
    }
  }

  lemma FirstBare(l: string, rest: string)
    requires '\n' !in l
    ensures var s := l + ("\n" + rest);
      Response(s) == if WithoutReturn(l) == END then ([], rest) else ([WithoutReturn(l)] + Response(rest).0, Response(rest).1)
  {
    var s := l + ("\n" + rest);
    LineEndAt(l, rest);
    assert s[..|l| + 1] == l + "\n" && s[|l| + 1..] == rest;
    assert WithoutNewline(l + "\n") == l;
  }

  /** The lines of a text of several lines, as the client shows them. */
  function TextLines(s: string): (ls: seq<string>)
    ensures |ls| >= 1
    decreases |s|
  {
    var k := LineEnd(s);
    if k == |s| then [WithoutReturn(s)] else [WithoutReturn(s[..k])] + TextLines(s[k + 1..])
  }

  /** A text and a newline: its lines up to the first that reads as the end mark. */
  lemma {:induction false} ReadText(text: string, rest: string)
    ensures var s := text + ("\n" + rest);
      if END in TextLines(text) then |Response(s).0| < |TextLines(text)|
      else Response(s) == (TextLines(text) + Response(rest).0, Response(rest).1)
    decreases |text|
  {
    var k := LineEnd(text);
    if k == |text| {
      FirstBare(text, rest);
    } else {
      var l, more := text[..k], text[k + 1..];
      assert text + ("\n" + rest) == l + ("\n" + (more + ("\n" + rest)));
      FirstBare(l, more + ("\n" + rest));
      ReadText(more, rest);
      Regroup([WithoutReturn(l)], TextLines(more), Response(rest).0);
      assert TextLines(text) == [WithoutReturn(l)] + TextLines(more);
    }
  }

  /** The lines of status, body and time. */
  function Content(status: string, body: string, time: string): seq<string> { TextLines(status) + (TextLines(body) + TextLines(time)) }

  /** A response is read back whole, and the next one is met at its beginning, exactly when no line of it reads as the end mark. */
  lemma ResponseRoundTrip(status: string, body: string, time: string, rest: string)
    ensures Response(ResponseText(status, body, time) + rest) == (Content(status, body, time), rest) <==> END !in Content(status, body, time)
  {
    hide TextLines, Response, LineEnd;
    var t3 := END + ("\n" + rest);
    var t2 := time + ("\n" + t3);
    var t1 := body + ("\n" + t2);
    assert ResponseText(status, body, time) + rest == status + ("\n" + t1);
    FirstBare(END, rest);
    ReadText(time, t3);
    ReadText(body, t2);
    ReadText(status, t1);
    assert TextLines(time) + [] == TextLines(time);
  }
}
