/** A result on its way from the server to the client: printed, sent line by line, read, parsed. */
module Answers {
  import opened Common
  import opened Streams
  import opened LineReaders
  import BoxTable
  import ResultText

  lemma SameLine(line: string, rest: string)
    requires '\n' !in line && line != "" && line[|line| - 1] != '\r'
    ensures BoxTable.SplitLines(BoxTable.Line(line, rest)) == [line] + BoxTable.SplitLines(rest)
    ensures TextLines(BoxTable.Line(line, rest)) == [line] + TextLines(rest)
  {
    hide BoxTable.SplitLines;
    BoxTable.FirstLine(line, rest);
    assert BoxTable.Line(line, rest) == line + ("\n" + rest);
    ClientLine(line, rest);
  }

  lemma ClientLine(line: string, rest: string)
    requires '\n' !in line && line != "" && line[|line| - 1] != '\r'
    ensures TextLines(line + ("\n" + rest)) == [line] + TextLines(rest)
  {
    hide LineEnd, TextLines;
    var s := line + ("\n" + rest);
    LineEndAt(line, rest);
    TextLinesAt(s);
    assert s[..|line|] == line && s[|line| + 1..] == rest;
  }

  lemma TextLinesAt(s: string)
    ensures var k := LineEnd(s); TextLines(s) == if k == |s| then [WithoutReturn(s)] else [WithoutReturn(s[..k])] + TextLines(s[k + 1..])
  {
    hide LineEnd, WithoutReturn;
  }

  /** A line of a box, which no reader takes for the end mark. */
  predicate BoxLine(line: string)
  {
    '\n' !in line && line != "" && (line[0] == '|' || line[0] == '+') && (line[|line| - 1] == '|' || line[|line| - 1] == '+')
  }

  /** A line that comes through cutting, trimming and joining as it is. */
  predicate Tidy(line: string) { '\n' !in line && line != "" && line[|line| - 1] != '\r' }

  ghost predicate AllTidy(lines: seq<string>) { forall i :: 0 <= i < |lines| ==> Tidy(lines[i]) }

  /** Both readers of lines see the same lines, all of them tidy and none of them the end mark. */
  ghost predicate Plain(text: string) { TextLines(text) == BoxTable.SplitLines(text) && END !in TextLines(text) && AllTidy(TextLines(text)) }

  lemma TidyFirst(line: string, lines: seq<string>)
    requires Tidy(line) && AllTidy(lines)
    ensures AllTidy([line] + lines)
  {
  }

  lemma BoxLineIsTidy(line: string)
    requires BoxLine(line)
    ensures Tidy(line) && line != END
  {
  }

  lemma BoxLinePlain(line: string, rest: string)
    requires BoxLine(line) && Plain(rest)
    ensures Plain(BoxTable.Line(line, rest))
    ensures TextLines(BoxTable.Line(line, rest)) == [line] + TextLines(rest)
  {
    SameLine(line, rest);
    BoxLineIsTidy(line);
    TidyFirst(line, TextLines(rest));
    hide TextLines, BoxTable.SplitLines, BoxTable.Line, AllTidy, BoxLine, Tidy;
  }

  lemma RowIsBoxLine(cells: seq<string>, widths: seq<nat>)
    ensures BoxLine(BoxTable.RowText(cells, widths)) && BoxTable.RowText(cells, widths)[0] == '|'
  {
    BoxTable.RowTextShape(cells, widths);
    RowEnds(cells, widths, 0);
  }

  lemma {:induction false} RowEnds(cells: seq<string>, widths: seq<nat>, i: nat)
    requires i <= |widths|
    ensures var r := BoxTable.RowFrom(cells, widths, i); r != "" && r[|r| - 1] == '|'
    decreases |widths| - i
  {
    hide BoxTable.Padded, BoxTable.CellAt;
    if i < |widths| {
      RowEnds(cells, widths, i + 1);
      var tail := BoxTable.RowFrom(cells, widths, i + 1);
      var front := "|" + BoxTable.Padded(BoxTable.CellAt(cells, i), widths[i]);
      assert (front + tail)[|front| + |tail| - 1] == tail[|tail| - 1];
    }
  }

  lemma {:induction false} SepEnds(widths: seq<nat>, i: nat)
    requires i <= |widths|
    ensures var r := BoxTable.SepFrom(widths, i); r != "" && r[|r| - 1] == '+' && r[0] == '+'
    decreases |widths| - i
  {
    if i < |widths| {
      SepEnds(widths, i + 1);
      assert BoxTable.SepFrom(widths, i)[0] == '+';
    }
  }

  lemma SepIsBoxLine(widths: seq<nat>)
    ensures BoxLine(BoxTable.SepText(widths)) && BoxTable.SepText(widths)[0] == '+'
  {
    BoxTable.SepHasNoNewline(widths, 0);
    SepEnds(widths, 0);
  }

  lemma {:induction false} RowsPlain(rows: seq<seq<string>>, widths: seq<nat>, rest: string)
    requires Plain(rest)
    ensures Plain(BoxTable.RowLines(rows, widths, rest))
  {
    hide Plain, BoxLine;
    if rows != [] {
      RowsPlain(rows[1..], widths, rest);
      RowIsBoxLine(rows[0], widths);
      BoxLinePlain(BoxTable.RowText(rows[0], widths), BoxTable.RowLines(rows[1..], widths, rest));
    }
  }

  /** A printed table has no line that reads as the end mark, whatever its cells hold. */
  lemma TableIsPlain(cols: seq<string>, rows: seq<seq<string>>, widths: seq<nat>, summary: string)
    requires BoxTable.IsSummary(summary) && summary != END
    ensures var text := BoxTable.TableText(cols, rows, widths, summary);
      Plain(text) && TextLines(text)[0] == BoxTable.SepText(widths) && |TextLines(text)| >= 2 && TextLines(text)[1] == BoxTable.RowText(cols, widths)
  {
    hide BoxTable.RowText, BoxTable.SepText, BoxTable.RowLines, BoxTable.Line, TextLines, BoxLine;
    var sep, header := BoxTable.SepText(widths), BoxTable.RowText(cols, widths);
    SummaryPlain(summary);
    SepIsBoxLine(widths);
    RowIsBoxLine(cols, widths);
    var end := BoxTable.Line(sep, summary);
    BoxLinePlain(sep, summary);
    RowsPlain(rows, widths, end);
    var body := BoxTable.RowLines(rows, widths, end);
    BoxLinePlain(sep, body);
    BoxLinePlain(header, BoxTable.Line(sep, body));
    BoxLinePlain(sep, BoxTable.Line(header, BoxTable.Line(sep, body)));
  }

  lemma SummaryPlain(summary: string)
    requires BoxTable.IsSummary(summary) && summary != END
    ensures Plain(summary)
  {
    assert BoxTable.IndexOf(summary, '\n') == |summary|;
    assert BoxTable.SplitLines(summary) == [summary];
    assert TextLines(summary) == [summary];
  }

  lemma CountLine(n: nat)
    ensures var s := Decimal(n) + " row(s) returned."; BoxTable.IsSummary(s) && s != END
  {
    var s := Decimal(n) + " row(s) returned.";
    assert s[0] == Decimal(n)[0];
    assert '\n' !in s;
  }

  /** The body of an answer with a table. */
  ghost function TableBody(cols: seq<string>, rows: seq<seq<string>>): string
  {
    BoxTable.TableText(cols, rows, BoxTable.Widths(cols, rows), Decimal(|rows|) + " row(s) returned.")
  }

  lemma BodyIsPlain(cols: seq<string>, rows: seq<seq<string>>)
    ensures END !in TextLines(TableBody(cols, rows)) && AllTidy(TextLines(TableBody(cols, rows)))
  {
    CountLine(|rows|);
    TableIsPlain(cols, rows, BoxTable.Widths(cols, rows), Decimal(|rows|) + " row(s) returned.");
  }

  /** The client's parser reads the lines of the body. */
  lemma BodyIsParsed(cols: seq<string>, rows: seq<seq<string>>)
    ensures BoxTable.ClientRead(TextLines(TableBody(cols, rows)), 0, [], []) == (cols, BoxTable.FitAll(rows, |cols|))
  {
    hide TextLines, BoxTable.TableText, BoxTable.ClientRead, BoxTable.ReadLines, BoxTable.Widths, Decimal, BoxTable.RowText, BoxTable.SepText, BoxLine;
    var widths, summary := BoxTable.Widths(cols, rows), Decimal(|rows|) + " row(s) returned.";
    CountLine(|rows|);
    TableIsPlain(cols, rows, widths, summary);
    BoxTable.TableReads(cols, rows, widths, summary);
    FirstTwo(cols, widths);
    BoxTable.ReadersAgree(TextLines(TableBody(cols, rows)));
  }

  lemma FirstTwo(cols: seq<string>, widths: seq<nat>)
    ensures var sep, row := BoxTable.SepText(widths), BoxTable.RowText(cols, widths); sep != "" && sep[0] == '+' && row != "" && row[0] == '|'
  {
    SepIsBoxLine(widths);
    RowIsBoxLine(cols, widths);
  }

  /** The answer arrives as status, body and time. */
  lemma AnswerArrives(cols: seq<string>, rows: seq<seq<string>>, time: string, rest: string)
    requires '\n' !in time && WithoutReturn(time) != END
    ensures Response(ResponseText("OK", TableBody(cols, rows), time) + rest) ==
            (["OK"] + (TextLines(TableBody(cols, rows)) + [WithoutReturn(time)]), rest)
  {
    assert TextLines("OK") == ["OK"] && TextLines(time) == [WithoutReturn(time)];
    hide TableBody, TextLines, Response;
    BodyIsPlain(cols, rows);
    ResponseRoundTrip("OK", TableBody(cols, rows), time, rest);
  }

  // ---- the reader of the desktop client ----

  /** `trim_end_matches` of a carriage return: all of them at the end. */
  function Stripped(s: string): string { if s != "" && s[|s| - 1] == '\r' then Stripped(s[..|s| - 1]) else s }

  /** The lines up to the end mark, and what is left behind it. */
  function Block(s: string): (seq<string>, string)
    decreases |s|
  {
    if s == "" then ([], "")
    else
      var k := LineEnd(s);
      var (line, rest) := if k == |s| then (s, "") else (s[..k + 1], s[k + 1..]);
      var t := Stripped(WithoutNewline(line));
      if t == END then ([], rest) else var (more, left) := Block(rest); ([t] + more, left)
  }

  /** `read_block`, on a reader that gives a line with its newline, as `BufReader` does. */
  method ReadBlock(reader: ClientReader) returns (lines: seq<string>)
    requires reader.sock.Alive()
    modifies reader, reader.sock
    ensures (lines, reader.Pending()) == Block(old(reader.Pending()))
  {
    lines := [];
    ghost var (all, end) := Block(reader.Pending());
    while true
      invariant var (more, left) := Block(reader.Pending()); lines + more == all && left == end
      decreases |reader.Pending()|
    {
      var line := reader.ReadLine();
      if line.None? {
        assert lines + [] == lines;
        return;
      }
      var t := Stripped(WithoutNewline(line.value));
      if t == END {
        assert lines + [] == lines;
        return;
      }
      Regroup(lines, [t], Block(reader.Pending()).0);
      lines := lines + [t];
    }
  }

  lemma BlockAt(s: string)
    requires '\n' in s
    ensures LineEnd(s) < |s|
    ensures var t, rest := Stripped(WithoutNewline(s[..LineEnd(s) + 1])), s[LineEnd(s) + 1..];
      Block(s) == if t == END then ([], rest) else ([t] + Block(rest).0, Block(rest).1)
  {
    hide LineEnd, Stripped, WithoutNewline;
  }

  lemma FirstOfBlock(l: string, rest: string)
    requires '\n' !in l
    ensures var s := l + ("\n" + rest);
      Block(s) == if Stripped(l) == END then ([], rest) else ([Stripped(l)] + Block(rest).0, Block(rest).1)
  {
    var s := l + ("\n" + rest);
    hide LineEnd, Stripped, Block;
    LineEndAt(l, rest);
    assert s[|l|] == '\n';
    BlockAt(s);
    assert s[..|l| + 1] == l + "\n" && s[|l| + 1..] == rest;
    assert WithoutNewline(l + "\n") == l;
  }

  /** The lines of a text, each without the carriage returns at its end. */
  function StripLines(s: string): (ls: seq<string>)
    ensures |ls| >= 1
    decreases |s|
  {
    var k := LineEnd(s);
    if k == |s| then [Stripped(s)] else [Stripped(s[..k])] + StripLines(s[k + 1..])
  }

  lemma {:induction false} BlockOfText(text: string, rest: string)
    ensures var s := text + ("\n" + rest);
      if END in StripLines(text) then |Block(s).0| < |StripLines(text)|
      else Block(s) == (StripLines(text) + Block(rest).0, Block(rest).1)
    decreases |text|
  {
    hide Block, Stripped;
    var k := LineEnd(text);
    if k == |text| {
      FirstOfBlock(text, rest);
    } else {
      var l, more := text[..k], text[k + 1..];
      assert text + ("\n" + rest) == l + ("\n" + (more + ("\n" + rest)));
      FirstOfBlock(l, more + ("\n" + rest));
      BlockOfText(more, rest);
      Regroup([Stripped(l)], StripLines(more), Block(rest).0);
      assert StripLines(text) == [Stripped(l)] + StripLines(more);
    }
  }

  function StripAll(status: string, body: string, time: string): seq<string> { StripLines(status) + (StripLines(body) + StripLines(time)) }

  /** A response is read whole by the desktop client too, and the next one met at its beginning, exactly when no line of it reads as the end mark to it. */
  lemma BlockRoundTrip(status: string, body: string, time: string, rest: string)
    ensures Block(ResponseText(status, body, time) + rest) == (StripAll(status, body, time), rest) <==> END !in StripAll(status, body, time)
  {
    hide StripLines, Block, LineEnd;
    var t3 := END + ("\n" + rest);
    var t2 := time + ("\n" + t3);
    var t1 := body + ("\n" + t2);
    assert ResponseText(status, body, time) + rest == status + ("\n" + t1);
    assert Stripped(END) == END;
    FirstOfBlock(END, rest);
    BlockOfText(time, t3);
    BlockOfText(body, t2);
    BlockOfText(status, t1);
    assert StripLines(time) + [] == StripLines(time);
  }

  lemma {:induction false} TidyIsStripped(s: string)
    requires AllTidy(TextLines(s))
    ensures StripLines(s) == TextLines(s)
    decreases |s|
  {
    hide LineEnd, Stripped;
    var k := LineEnd(s);
    StrippedOnce(if k == |s| then s else s[..k]);
    if k < |s| {
      assert TextLines(s)[0] == WithoutReturn(s[..k]) && TextLines(s)[1..] == TextLines(s[k + 1..]);
      RestIsTidy(TextLines(s));
      TidyIsStripped(s[k + 1..]);
    } else {
      assert TextLines(s)[0] == WithoutReturn(s);
    }
  }

  lemma RestIsTidy(lines: seq<string>)
    requires lines != [] && AllTidy(lines)
    ensures Tidy(lines[0]) && AllTidy(lines[1..])
  {
  }

  lemma StrippedOnce(s: string)
    ensures Tidy(WithoutReturn(s)) ==> Stripped(s) == WithoutReturn(s)
  {
  }

  /** `join` with newlines between. */
  function JoinLines(lines: seq<string>): string
  {
    if lines == [] then "" else if |lines| == 1 then lines[0] else lines[0] + ("\n" + JoinLines(lines[1..]))
  }

  /** `lines` of the library: a newline at the end begins no other line, a carriage return before a newline belongs to it. */
  function LibraryLines(s: string): seq<string>
    decreases |s|
  {
    if s == "" then []
    else
      var k := LineEnd(s);
      if k == |s| then [s] else [WithoutReturn(s[..k])] + LibraryLines(s[k + 1..])
  }

  /** Tidy lines that are joined come apart as they were. */
  lemma {:induction false} JoinedComeApart(lines: seq<string>)
    requires AllTidy(lines)
    ensures LibraryLines(JoinLines(lines)) == lines
  {
    if lines != [] {
      assert Tidy(lines[0]);
      if |lines| == 1 {
        assert LineEnd(lines[0]) == |lines[0]|;
        assert lines == [lines[0]];
      } else {
        var l, more := lines[0], JoinLines(lines[1..]);
        RestIsTidy(lines);
        JoinedComeApart(lines[1..]);
        FirstComesApart(l, more);
        assert lines == [l] + lines[1..];
      }
    }
  }

  lemma FirstComesApart(l: string, more: string)
    requires Tidy(l)
    ensures LibraryLines(l + ("\n" + more)) == [l] + LibraryLines(more)
  {
    hide LineEnd, LibraryLines;
    var s := l + ("\n" + more);
    LineEndAt(l, more);
    LibraryLinesAt(s);
    assert s[..|l|] == l && s[|l| + 1..] == more;
  }

  lemma LibraryLinesAt(s: string)
    requires s != ""
    ensures var k := LineEnd(s); LibraryLines(s) == if k == |s| then [s] else [WithoutReturn(s[..k])] + LibraryLines(s[k + 1..])
  {
    hide LineEnd, WithoutReturn;
  }

  /** What `exchange` makes of the lines it has read. */
  function Exchanged(block: seq<string>): Option<(bool, string)>
  {
    if |block| < 2 then None else Some((block[0] == "OK", JoinLines(block[1..|block| - 1])))
  }

  /** `exchange` from where the answer is awaited: the status, and the lines between it and the time as one text; nothing when the connection is gone. */
  method Exchange(client: ClientReader) returns (r: Option<(bool, string)>)
    requires client.sock.Alive()
    modifies client, client.sock
    ensures var (block, left) := Block(old(client.Pending())); client.Pending() == left && r == Exchanged(block)
  {
    hide Block;
    var block := ReadBlock(client);
    if |block| < 2 {
      return None;
    }
    r := Some((block[0] == "OK", JoinLines(block[1..|block| - 1])));
  }

  /** The answer arrives at the desktop client as status, body and time. */
  lemma AnswerIsBlock(cols: seq<string>, rows: seq<seq<string>>, time: string, rest: string)
    requires '\n' !in time && Stripped(time) != END
    ensures Block(ResponseText("OK", TableBody(cols, rows), time) + rest) ==
            (["OK"] + (TextLines(TableBody(cols, rows)) + [Stripped(time)]), rest)
  {
    assert StripLines("OK") == ["OK"] && StripLines(time) == [Stripped(time)];
    hide TableBody, TextLines, Block, StripLines;
    BodyIsPlain(cols, rows);
    TidyIsStripped(TableBody(cols, rows));
    BlockRoundTrip("OK", TableBody(cols, rows), time, rest);
  }

  /** From the text of the answer to the table: joining the lines and taking them apart again changes nothing. */
  lemma AnswerIsTable(cols: seq<string>, rows: seq<seq<string>>, time: string)
    requires '\n' !in time && Stripped(time) != END
    ensures var (block, left) := Block(ResponseText("OK", TableBody(cols, rows), time));
      && left == "" && Exchanged(block).Some? && Exchanged(block).value.0
      && BoxTable.ClientRead(LibraryLines(Exchanged(block).value.1), 0, [], []) == (cols, BoxTable.FitAll(rows, |cols|))
  {
    AnswerIsBlock(cols, rows, time, "");
    BodyIsPlain(cols, rows);
    BodyIsParsed(cols, rows);
    hide Block, TableBody, TextLines, AllTidy, LibraryLines, BoxTable.ClientRead, BoxTable.FitAll, ResponseText, Stripped, JoinLines;
    var body := TableBody(cols, rows);
    JoinedComeApart(TextLines(body));
    assert ResponseText("OK", body, time) + "" == ResponseText("OK", body, time);
    Inner(TextLines(body), Stripped(time));
  }

  lemma Inner(lines: seq<string>, last: string)
    ensures Exchanged(["OK"] + (lines + [last])) == Some((true, JoinLines(lines)))
  {
    var block := ["OK"] + (lines + [last]);
    assert block[1..|block| - 1] == lines;
  }

  /** A table of the server reaches the desktop client whole: however the connection cuts the bytes and whatever the cells hold, the client ends up with the header
      and the rows, and nothing of the answer is left in the stream. */
  method SendTable(server: Socket<char>, client: ClientReader, cols: seq<string>, rows: seq<seq<string>>, time: string)
    returns (header: seq<string>, table: seq<seq<string>>)
    requires client.sock == server && server.Alive() && client.Pending() == ""
    requires '\n' !in time && Stripped(time) != END
    modifies server, client
    ensures header == cols && table == BoxTable.FitAll(rows, |cols|) && client.Pending() == ""
  {
    hide Block, BoxTable.TableText, BoxTable.ClientRead, BoxTable.Widths, Decimal, ResponseText, BoxTable.FitAll, Exchanged, LibraryLines, Stripped;
    var body := BoxTable.MakeBoxTable(cols, rows);
    assert body == TableBody(cols, rows);
    var ok := SendResponse(server, "OK", body, time);
    AnswerIsTable(cols, rows, time);
    assert client.Pending() == ResponseText("OK", body, time);
    var r := Exchange(client);
    header, table := BoxTable.ClientParse(LibraryLines(r.value.1));
  }
}
