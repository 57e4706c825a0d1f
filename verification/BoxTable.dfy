/** The box a result table is printed in, and the readers that take the whole table apart again. */
module BoxTable {
  import opened Common
  import opened ResultText

  // ---- printing ----

  function Repeat(c: char, n: nat): (s: string)
    ensures |s| == n && forall i :: 0 <= i < n ==> s[i] == c
  {
    seq(n, _ => c)
  }

  /** The cell of column `i`; a row that is too short has an empty one. */
  function CellAt(row: seq<string>, i: nat): string { if i < |row| then row[i] else "" }

  /** What a table of `n` columns shows of a row. */
  function Fit(row: seq<string>, n: nat): (r: seq<string>)
    ensures |r| == n
    ensures |row| == n ==> r == row
  {
    seq(n, i requires 0 <= i < n => CellAt(row, i))
  }

  /** A cell between its bar and the next, padded to the width of its column. */
  ghost function Padded(cell: string, width: nat): string
  {
    " " + Escape(cell) + Repeat(' ', if width > |Escape(cell)| then width - |Escape(cell)| else 0) + " "
  }

  /** The line of a row, from column `i` on. */
  ghost function RowFrom(cells: seq<string>, widths: seq<nat>, i: nat): string
    requires i <= |widths|
    decreases |widths| - i
  {
    if i == |widths| then "|" else "|" + Padded(CellAt(cells, i), widths[i]) + RowFrom(cells, widths, i + 1)
  }

  ghost function RowText(cells: seq<string>, widths: seq<nat>): string { RowFrom(cells, widths, 0) }

  function SepFrom(widths: seq<nat>, i: nat): string
    requires i <= |widths|
    decreases |widths| - i
  {
    if i == |widths| then "+" else "+" + Repeat('-', widths[i] + 2) + SepFrom(widths, i + 1)
  }

  function SepText(widths: seq<nat>): string { SepFrom(widths, 0) }

  /** A line and what follows it. */
  function Line(line: string, rest: string): string { line + "\n" + rest }

  ghost function RowLines(rows: seq<seq<string>>, widths: seq<nat>, rest: string): string
  {
    if rows == [] then rest else Line(RowText(rows[0], widths), RowLines(rows[1..], widths, rest))
  }

  /** A printed table with the line under it. */
  ghost function TableText(cols: seq<string>, rows: seq<seq<string>>, widths: seq<nat>, summary: string): string
  {
    var sep := SepText(widths);
    Line(sep, Line(RowText(cols, widths), Line(sep, RowLines(rows, widths, Line(sep, summary)))))
  }

  /** As wide as the widest cell of the column. */
  ghost function WidthAt(cols: seq<string>, rows: seq<seq<string>>, i: nat): nat
    requires i < |cols|
  {
    if rows == [] then |Escape(cols[i])|
    else
      Max(WidthAt(cols, rows[..|rows| - 1], i), |Escape(CellAt(rows[|rows| - 1], i))|)
  }

  ghost function Widths(cols: seq<string>, rows: seq<seq<string>>): (ws: seq<nat>)
    ensures |ws| == |cols|
  {
    seq(|cols|, i requires 0 <= i < |cols| => WidthAt(cols, rows, i))
  }

  method MakeWidths(cols: seq<string>, rows: seq<seq<string>>) returns (widths: seq<nat>)
    ensures widths == Widths(cols, rows)
  {
    widths := [];
    for i := 0 to |cols|
      invariant |widths| == i && forall k :: 0 <= k < i ==> widths[k] == WidthAt(cols, [], k)
    {
      var e := EscapeCell(cols[i]);
      widths := widths + [|e|];
    }
    for r := 0 to |rows|
      invariant |widths| == |cols| && forall k :: 0 <= k < |cols| ==> widths[k] == WidthAt(cols, rows[..r], k)
    {
      assert rows[..r + 1][..r] == rows[..r];
      widths := Widen(widths, rows[r]);
    }
    assert rows[..|rows|] == rows;
  }

  /** The turn of `box_table`'s first loop: every column as wide as the cell of the row, at least. */
  method Widen(widths: seq<nat>, row: seq<string>) returns (wider: seq<nat>)
    ensures |wider| == |widths|
    ensures forall k :: 0 <= k < |widths| ==> wider[k] == Max(widths[k], |Escape(CellAt(row, k))|)
  {
    hide Escape;
    wider := widths;
    var i := 0;
    while i < |row| && i < |widths|
      invariant i <= |row| && i <= |widths| == |wider|
      invariant forall k :: 0 <= k < i ==> wider[k] == Max(widths[k], |Escape(CellAt(row, k))|)
      invariant forall k :: i <= k < |widths| ==> wider[k] == widths[k]
    {
      var e := EscapeCell(row[i]);
      wider := wider[i := Max(wider[i], |e|)];
      i := i + 1;
    }
    NothingEscaped();
  }

  lemma NothingEscaped()
    ensures Escape("") == ""
  {
  }

  function Max(a: nat, b: nat): nat { if a > b then a else b }

  method MakeCell(cell: string, width: nat) returns (s: string)
    ensures s == "|" + Padded(cell, width)
  {
    var e := EscapeCell(cell);
    s := "|" + (" " + e + Repeat(' ', if width > |e| then width - |e| else 0) + " ");
  }

  method MakeRow(cells: seq<string>, widths: seq<nat>) returns (s: string)
    ensures s == RowText(cells, widths)
  {
    hide Padded;
    s := "";
    for i := 0 to |widths|
      invariant s + RowFrom(cells, widths, i) == RowText(cells, widths)
    {
      var part := MakeCell(CellAt(cells, i), widths[i]);
      Regroup(s, part, RowFrom(cells, widths, i + 1));
      s := s + part;
    }
    s := s + "|";
  }

  method MakeSep(widths: seq<nat>) returns (s: string)
    ensures s == SepText(widths)
  {
    s := "";
    for i := 0 to |widths|
      invariant s + SepFrom(widths, i) == SepText(widths)
    {
      var part := "+" + Repeat('-', widths[i] + 2);
      Regroup(s, part, SepFrom(widths, i + 1));
      s := s + part;
    }
    s := s + "+";
  }

  lemma LineAfter(before: string, line: string, rest: string)
    ensures before + Line(line, rest) == (before + (line + "\n")) + rest
    ensures before + Line(line, rest) == (before + line + "\n") + rest
  {
    Regroup(before, line + "\n", rest);
    Regroup(before, line, "\n");
  }

  lemma ThreeLines(a: string, b: string, c: string, rest: string)
    ensures a + "\n" + b + "\n" + c + "\n" + rest == Line(a, Line(b, Line(c, rest)))
  {
    LineAfter(a + "\n", b, Line(c, rest));
    LineAfter(a + "\n" + b + "\n", c, rest);
  }

  /** `box_table` */
  method MakeBoxTable(cols: seq<string>, rows: seq<seq<string>>) returns (out: string)
    ensures out == TableText(cols, rows, Widths(cols, rows), Decimal(|rows|) + " row(s) returned.")
  {
    var widths := MakeWidths(cols, rows);
    var sep := MakeSep(widths);
    var header := MakeRow(cols, widths);
    var summary := Decimal(|rows|) + " row(s) returned.";
    ghost var end := Line(sep, summary);
    out := sep + "\n" + header + "\n" + sep + "\n";
    ThreeLines(sep, header, sep, RowLines(rows, widths, end));
    for r := 0 to |rows|
      invariant out + RowLines(rows[r..], widths, end) == TableText(cols, rows, widths, summary)
    {
      var line := MakeRow(rows[r], widths);
      assert rows[r..][1..] == rows[r + 1..];
      LineAfter(out, line, RowLines(rows[r + 1..], widths, end));
      out := out + (line + "\n");
    }
    LineAfter(out, sep, summary);
    out := out + (sep + "\n");
    out := out + summary;
  }

  /** The header cell of `empty_table` and the bar above it: as wide as the cell itself. */
  method MakeExactCell(cell: string) returns (s: string, bar: string)
    ensures s == "|" + Padded(cell, |Escape(cell)|)
    ensures bar == "+" + Repeat('-', |Escape(cell)| + 2)
  {
    var e := EscapeCell(cell);
    bar := "+" + Repeat('-', |e| + 2);
    s := "| " + e + " ";
    assert Repeat(' ', 0) == "";
    assert s == "|" + (" " + e + Repeat(' ', 0) + " ");
  }

  /** `empty_table`: the header of a result without rows. */
  method MakeEmptyTable(cols: seq<string>) returns (out: string)
    ensures out == TableText(cols, [], Widths(cols, []), "0 rows returned.")
  {
    hide Padded, Escape, RowFrom, SepFrom, Widths;
    ghost var widths := Widths(cols, []);
    var bar, header := "", "";
    for i := 0 to |cols|
      invariant bar + SepFrom(widths, i) == SepText(widths)
      invariant header + RowFrom(cols, widths, i) == RowText(cols, widths)
    {
      var part, over := MakeExactCell(cols[i]);
      ExactCell(cols, i);
      Regroup(bar, over, SepFrom(widths, i + 1));
      Regroup(header, part, RowFrom(cols, widths, i + 1));
      bar := bar + over;
      header := header + part;
    }
    LastBars(cols, widths);
    bar := bar + "+";
    header := header + "|";
    out := bar + "\n" + header + "\n" + bar + "\n" + (bar + "\n" + "0 rows returned.");
    EmptyIs(cols, widths, bar, header);
  }

  /** Without rows a column is as wide as its header. */
  lemma ExactCell(cols: seq<string>, i: nat)
    requires i < |cols|
    ensures var w := Widths(cols, []);
      && SepFrom(w, i) == "+" + Repeat('-', |Escape(cols[i])| + 2) + SepFrom(w, i + 1)
      && RowFrom(cols, w, i) == "|" + Padded(cols[i], |Escape(cols[i])|) + RowFrom(cols, w, i + 1)
  {
    hide Padded, Escape;
  }

  lemma LastBars(cols: seq<string>, widths: seq<nat>)
    ensures SepFrom(widths, |widths|) == "+" && RowFrom(cols, widths, |widths|) == "|"
  {
  }

  lemma EmptyIs(cols: seq<string>, widths: seq<nat>, bar: string, header: string)
    requires bar == SepText(widths) && header == RowText(cols, widths)
    ensures bar + "\n" + header + "\n" + bar + "\n" + (bar + "\n" + "0 rows returned.") == TableText(cols, [], widths, "0 rows returned.")
  {
    hide SepText, RowText;
    ThreeLines(bar, header, bar, Line(bar, "0 rows returned."));
  }

  // ---- every line of the box is equally long ----

  lemma {:induction false} WidthCovers(cols: seq<string>, rows: seq<seq<string>>, i: nat)
    requires i < |cols|
    ensures |Escape(cols[i])| <= WidthAt(cols, rows, i)
    ensures forall r :: 0 <= r < |rows| ==> |Escape(CellAt(rows[r], i))| <= WidthAt(cols, rows, i)
    decreases |rows|
  {
    hide Escape;
    if rows != [] {
      var front := rows[..|rows| - 1];
      WidthCovers(cols, front, i);
      forall r | 0 <= r < |rows| ensures |Escape(CellAt(rows[r], i))| <= WidthAt(cols, rows, i) {
        if r < |front| {
          assert front[r] == rows[r];
        }
      }
    }
  }

  lemma {:induction false} EqualLengths(cells: seq<string>, widths: seq<nat>, i: nat)
    requires i <= |widths| && forall k :: 0 <= k < |widths| ==> |Escape(CellAt(cells, k))| <= widths[k]
    ensures |RowFrom(cells, widths, i)| == |SepFrom(widths, i)|
    decreases |widths| - i
  {
    hide Escape, Padded, Repeat, CellAt;
    if i < |widths| {
      EqualLengths(cells, widths, i + 1);
      PaddedLength(CellAt(cells, i), widths[i]);
      RepeatLength('-', widths[i] + 2);
    }
  }

  lemma PaddedLength(cell: string, width: nat)
    requires |Escape(cell)| <= width
    ensures |Padded(cell, width)| == width + 2
  {
    hide Escape;
  }

  lemma RepeatLength(c: char, n: nat)
    ensures |Repeat(c, n)| == n
  {
  }

  /** The rows, the header and the bars between them line up. */
  lemma BoxIsAligned(cols: seq<string>, rows: seq<seq<string>>, r: nat)
    requires r < |rows|
    ensures |RowText(rows[r], Widths(cols, rows))| == |RowText(cols, Widths(cols, rows))| == |SepText(Widths(cols, rows))|
  {
    forall i | 0 <= i < |cols|
      ensures |Escape(CellAt(rows[r], i))| <= Widths(cols, rows)[i] && |Escape(CellAt(cols, i))| <= Widths(cols, rows)[i]
    {
      WidthCovers(cols, rows, i);
    }
    EqualLengths(rows[r], Widths(cols, rows), 0);
    EqualLengths(cols, Widths(cols, rows), 0);
  }

  // ---- reading ----

  predicate IsSpace(c: char) { c == ' ' || c == '\t' || c == '\r' || c == '\n' }

  function TrimText(s: string): string
  {
    if s != "" && IsSpace(s[0]) then TrimText(s[1..])
    else if s != "" && IsSpace(s[|s| - 1]) then TrimText(s[..|s| - 1])
    else s
  }

  function IndexOf(s: string, c: char): (k: nat)
    ensures k <= |s| && (k < |s| ==> s[k] == c) && Free(s, c, 0, k)
  {
    if s == "" || s[0] == c then 0
    else
      var at := IndexOf(s[1..], c);
      FreeFront(s, c, at);
      at + 1
  }

  /** The lines of a text; a newline at the end does not begin another one. */
  function SplitLines(s: string): seq<string>
    decreases |s|
  {
    if s == "" then []
    else var k := IndexOf(s, '\n');
      if k == |s| then [s] else [s[..k]] + SplitLines(s[k + 1..])
  }

  /** `split_lines` */
  method Lines(s: string) returns (out: seq<string>)
    ensures out == SplitLines(s)
  {
    out := [];
    var start := 0;
    assert s[0..] == s;
    while start < |s|
      invariant start <= |s| && out + SplitLines(s[start..]) == SplitLines(s)
    {
      NextLine(s, start);
      var k := start + IndexOf(s[start..], '\n');
      if k == |s| {
        out := out + [s[start..]];
        return;
      }
      Regroup(out, [s[start..k]], SplitLines(s[k + 1..]));
      out := out + [s[start..k]];
      start := k + 1;
    }
  }

  lemma NextLine(s: string, start: nat)
    requires start < |s|
    ensures var k := start + IndexOf(s[start..], '\n');
      SplitLines(s[start..]) == if k == |s| then [s[start..]] else [s[start..k]] + SplitLines(s[k + 1..])
  {
    hide IndexOf;
    var rest := s[start..];
    var k := IndexOf(rest, '\n');
    if k < |rest| {
      assert rest[k + 1..] == s[start + k + 1..] && rest[..k] == s[start..start + k];
    }
  }

  datatype Parsed = Nothing | Table(cols: seq<string>, rows: seq<seq<string>>) | Tabbed(text: string)

  /** The header (once there is one) and the rows after reading the lines. */
  function ReadLines(lines: seq<string>, header: Option<seq<string>>, rows: seq<seq<string>>): (Option<seq<string>>, seq<seq<string>>)
  {
    if lines == [] then (header, rows)
    else if lines[0] == "" || lines[0][0] != '|' then ReadLines(lines[1..], header, rows)
    else if header.None? then ReadLines(lines[1..], Some(SplitRow(lines[0])), rows)
    else ReadLines(lines[1..], header, rows + [SplitRow(lines[0])])
  }

  /** What a text says: a text that starts with a bar of a box is a box; any other is left to the reader of tab-separated answers. */
  function Parse(out: string): Parsed
  {
    var trimmed := TrimText(out);
    if trimmed == "" then Nothing
    else if trimmed[0] != '+' then Tabbed(trimmed)
    else
      var (header, rows) := ReadLines(SplitLines(trimmed), None, []);
      if header.None? || header.value == [] then Nothing else Table(header.value, rows)
  }

  /** `parse_table` */
  method ParseTable(out: string) returns (p: Parsed)
    ensures p == Parse(out)
  {
    var trimmed := TrimText(out);
    if trimmed == "" {
      return Nothing;
    }
    if trimmed[0] != '+' {
      return Tabbed(trimmed);
    }
    var cols: seq<string>, rows: seq<seq<string>>, header := [], [], false;
    var lines := Lines(trimmed);
    for k := 0 to |lines|
      invariant !header ==> cols == []
      invariant ReadLines(lines, None, []) == ReadLines(lines[k..], if header then Some(cols) else None, rows)
    {
      var line := lines[k];
      assert lines[k..][1..] == lines[k + 1..] && lines[k..][0] == line;
      if line != "" && line[0] == '+' {
        continue;
      }
      if line != "" && line[0] == '|' {
        var cells := EngineSplitRow(line);
        if !header {
          cols, header := cells, true;
        } else {
          rows := rows + [cells];
        }
      }
    }
    if cols == [] {
      return Nothing;
    }
    p := Table(cols, rows);
  }

  // ---- a printed table comes back ----

  lemma {:induction false} RowComesBack(cells: seq<string>, widths: seq<nat>, i: nat, cur: string)
    requires i <= |widths|
    ensures Cells(Pieces(RowFrom(cells, widths, i), cur)) == Cells([cur]) + Fit(cells, |widths|)[i..]
    decreases |widths| - i
  {
    hide Padded, Cells;
    var line := RowFrom(cells, widths, i);
    if i == |widths| {
      assert Pieces(line, cur) == [cur] + [""];
      NoCell();
      CellsAppend([cur], [""]);
    } else {
      var cell := CellAt(cells, i);
      var p := Padded(cell, widths[i]);
      var rest := RowFrom(cells, widths, i + 1);
      assert line[1..] == p + rest;
      PaddedIsClosed(cell, widths[i]);
      PiecesPassClosed(p, rest, "");
      assert "" + p == p;
      CellsAppend([cur], Pieces(rest, p));
      RowComesBack(cells, widths, i + 1, p);
      var fit := Fit(cells, |widths|);
      assert fit[i..] == [cell] + fit[i + 1..];
    }
  }

  lemma NoCell()
    ensures Cells([""]) == []
  {
  }

  lemma PaddedIsClosed(cell: string, width: nat)
    ensures Closed(Padded(cell, width)) && '\n' !in Padded(cell, width)
    ensures Cells([Padded(cell, width)]) == [cell]
  {
    var pad := Repeat(' ', if width > |Escape(cell)| then width - |Escape(cell)| else 0) + " ";
    assert Padded(cell, width) == " " + Escape(cell) + pad;
    EscapeRoundTrip(cell);
    BlankIsClosed(pad);
    BlankIsClosed(" ");
    ClosedAppend(" ", Escape(cell));
    ClosedAppend(" " + Escape(cell), pad);
    PaddedCell(cell, " ", pad);
  }

  /** Whatever the widths, the reader of a row line gives the cells back, cut or filled up to the number of columns. */
  lemma RowRoundTrip(cells: seq<string>, widths: seq<nat>)
    ensures SplitRow(RowText(cells, widths)) == Fit(cells, |widths|)
  {
    RowComesBack(cells, widths, 0, "");
  }

  lemma {:induction false} RowHasNoNewline(cells: seq<string>, widths: seq<nat>, i: nat)
    requires i <= |widths|
    ensures '\n' !in RowFrom(cells, widths, i) && RowFrom(cells, widths, i)[0] == '|'
    decreases |widths| - i
  {
    if i < |widths| {
      PaddedIsClosed(CellAt(cells, i), widths[i]);
      RowHasNoNewline(cells, widths, i + 1);
    }
  }

  lemma {:induction false} SepHasNoNewline(widths: seq<nat>, i: nat)
    requires i <= |widths|
    ensures '\n' !in SepFrom(widths, i) && SepFrom(widths, i)[0] == '+'
    decreases |widths| - i
  {
    if i < |widths| {
      SepHasNoNewline(widths, i + 1);
    }
  }

  lemma FirstLine(line: string, rest: string)
    requires '\n' !in line
    ensures SplitLines(Line(line, rest)) == [line] + SplitLines(rest)
  {
    var s := Line(line, rest);
    assert s[..|line|] == line && s[|line|] == '\n';
    IndexOfIs(s, '\n', |line|);
    assert s[|line| + 1..] == rest;
  }

  lemma {:induction false} IndexOfIs(s: string, c: char, n: nat)
    requires n < |s| && s[n] == c && c !in s[..n]
    ensures IndexOf(s, c) == n
  {
    if n > 0 {
      assert s[0] == s[..n][0] != c;
      assert s[1..][..n - 1] == s[..n][1..];
      IndexOfIs(s[1..], c, n - 1);
    }
  }

  lemma HeaderLine(line: string, rest: string, rows: seq<seq<string>>)
    requires '\n' !in line && line != "" && line[0] == '|'
    ensures ReadLines(SplitLines(Line(line, rest)), None, rows) == ReadLines(SplitLines(rest), Some(SplitRow(line)), rows)
  {
    FirstLine(line, rest);
    assert ([line] + SplitLines(rest))[1..] == SplitLines(rest);
  }

  lemma RowLine(line: string, rest: string, header: seq<string>, rows: seq<seq<string>>)
    requires '\n' !in line && line != "" && line[0] == '|'
    ensures ReadLines(SplitLines(Line(line, rest)), Some(header), rows) == ReadLines(SplitLines(rest), Some(header), rows + [SplitRow(line)])
  {
    FirstLine(line, rest);
    assert ([line] + SplitLines(rest))[1..] == SplitLines(rest);
  }

  /** The row lines are read one by one. */
  lemma {:induction false} RowLinesComeBack(rows: seq<seq<string>>, widths: seq<nat>, rest: string, header: seq<string>, done: seq<seq<string>>)
    ensures ReadLines(SplitLines(RowLines(rows, widths, rest)), Some(header), done) ==
            ReadLines(SplitLines(rest), Some(header), done + FitAll(rows, |widths|))
    decreases |rows|
  {
    hide ReadLines, SplitLines, RowText, SplitRow;
    if rows == [] {
      assert done + FitAll(rows, |widths|) == done;
    } else {
      var line, fit := RowText(rows[0], widths), Fit(rows[0], |widths|);
      var tail := RowLines(rows[1..], widths, rest);
      RowTextShape(rows[0], widths);
      RowLine(line, tail, header, done);
      RowRoundTrip(rows[0], widths);
      RowLinesComeBack(rows[1..], widths, rest, header, done + [fit]);
      Regroup(done, [fit], FitAll(rows[1..], |widths|));
    }
  }

  lemma RowTextShape(cells: seq<string>, widths: seq<nat>)
    ensures '\n' !in RowText(cells, widths) && RowText(cells, widths) != "" && RowText(cells, widths)[0] == '|'
  {
    RowHasNoNewline(cells, widths, 0);
  }

  function FitAll(rows: seq<seq<string>>, n: nat): (r: seq<seq<string>>)
    ensures |r| == |rows| && forall i :: 0 <= i < |rows| ==> r[i] == Fit(rows[i], n)
  {
    if rows == [] then [] else [Fit(rows[0], n)] + FitAll(rows[1..], n)
  }

  lemma SkippedLine(line: string, rest: string, header: Option<seq<string>>, rows: seq<seq<string>>)
    requires '\n' !in line && (line == "" || line[0] != '|')
    ensures ReadLines(SplitLines(Line(line, rest)), header, rows) == ReadLines(SplitLines(rest), header, rows)
  {
    FirstLine(line, rest);
    assert ([line] + SplitLines(rest))[1..] == SplitLines(rest);
  }

  /** A line under the table that no reader takes for a part of it. */
  ghost predicate IsSummary(s: string)
  {
    s != "" && '\n' !in s && s[0] != '|' && !IsSpace(s[|s| - 1])
  }

  lemma {:induction false} RowLinesEnd(rows: seq<seq<string>>, widths: seq<nat>, rest: string)
    requires rest != ""
    ensures var all := RowLines(rows, widths, rest); all != "" && all[|all| - 1] == rest[|rest| - 1]
  {
    if rows != [] {
      RowLinesEnd(rows[1..], widths, rest);
    }
  }

  lemma TableReads(cols: seq<string>, rows: seq<seq<string>>, widths: seq<nat>, summary: string)
    requires |widths| == |cols| && IsSummary(summary)
    ensures ReadLines(SplitLines(TableText(cols, rows, widths, summary)), None, []) == (Some(cols), FitAll(rows, |cols|))
  {
    SepHasNoNewline(widths, 0);
    RowTextShape(cols, widths);
    RowRoundTrip(cols, widths);
    assert Fit(cols, |widths|) == cols;
    var sep, header, all := SepText(widths), RowText(cols, widths), FitAll(rows, |widths|);
    hide ReadLines, SplitLines, RowText, SepText, SplitRow, FitAll, Fit, RowLines;
    var end := Line(sep, summary);
    var body := RowLines(rows, widths, end);
    SkippedLine(sep, Line(header, Line(sep, body)), None, []);
    HeaderLine(header, Line(sep, body), []);
    SkippedLine(sep, body, Some(cols), []);
    RowLinesComeBack(rows, widths, end, cols, []);
    assert [] + all == all;
    SkippedLine(sep, summary, Some(cols), all);
    SummaryReads(summary, Some(cols), all);
  }

  lemma SummaryReads(summary: string, header: Option<seq<string>>, rows: seq<seq<string>>)
    requires IsSummary(summary)
    ensures ReadLines(SplitLines(summary), header, rows) == (header, rows)
  {
    assert IndexOf(summary, '\n') == |summary|;
    assert SplitLines(summary) == [summary];
  }

  /** Reading a printed table gives the header and the rows back, whatever their bytes are and however wide the columns were printed: exactly when there
      is a column at all. A row that is too short or too long comes back filled up or cut, a row of the right length as it was. */
  lemma TableRoundTrip(cols: seq<string>, rows: seq<seq<string>>, widths: seq<nat>, summary: string)
    requires |widths| == |cols| && IsSummary(summary)
    ensures Parse(TableText(cols, rows, widths, summary)) == if cols == [] then Nothing else Table(cols, FitAll(rows, |cols|))
  {
    var text := TableText(cols, rows, widths, summary);
    SepHasNoNewline(widths, 0);
    assert text[0] == '+';
    RowLinesEnd(rows, widths, Line(SepText(widths), summary));
    assert TrimText(text) == text;
    TableReads(cols, rows, widths, summary);
  }

  /** The two tables the server prints come back: the one of `box_table` with its rows, the one of `empty_table` with none. */
  lemma BoxRoundTrip(cols: seq<string>, rows: seq<seq<string>>)
    requires cols != [] && forall r :: 0 <= r < |rows| ==> |rows[r]| == |cols|
    ensures Parse(TableText(cols, rows, Widths(cols, rows), Decimal(|rows|) + " row(s) returned.")) == Table(cols, rows)
    ensures Parse(TableText(cols, [], Widths(cols, []), "0 rows returned.")) == Table(cols, [])
  {
    var d := Decimal(|rows|);
    assert '0' <= d[0] <= '9';
    TableRoundTrip(cols, rows, Widths(cols, rows), d + " row(s) returned.");
    TableRoundTrip(cols, [], Widths(cols, []), "0 rows returned.");
    assert FitAll(rows, |cols|) == rows;
  }

  // ---- the desktop client's reader ----

  /** The lines the client looks at: those that start with a bar, the second line being the header. */
  function ClientRead(lines: seq<string>, i: nat, cols: seq<string>, rows: seq<seq<string>>): (seq<string>, seq<seq<string>>)
    requires i <= |lines|
    decreases |lines| - i
  {
    if i == |lines| then (cols, rows)
    else if lines[i] == "" || lines[i][0] != '|' then ClientRead(lines, i + 1, cols, rows)
    else if i == 1 then ClientRead(lines, i + 1, SplitRow(lines[i]), rows)
    else ClientRead(lines, i + 1, cols, rows + [SplitRow(lines[i])])
  }

  /** `parse_box_table` on the lines of an answer. */
  method ClientParse(lines: seq<string>) returns (cols: seq<string>, rows: seq<seq<string>>)
    ensures (cols, rows) == ClientRead(lines, 0, [], [])
  {
    cols, rows := [], [];
    for i := 0 to |lines|
      invariant ClientRead(lines, 0, [], []) == ClientRead(lines, i, cols, rows)
    {
      var line := lines[i];
      if line != "" && line[0] == '+' {
        continue;
      }
      if line != "" && line[0] == '|' {
        var cells := ClientSplitRow(line);
        if i == 1 {
          cols := cells;
        } else {
          rows := rows + [cells];
        }
      }
    }
  }

  lemma {:induction false} ReadersAgreeAfterHeader(lines: seq<string>, i: nat, cols: seq<string>, rows: seq<seq<string>>)
    requires 2 <= i <= |lines|
    ensures var (header, all) := ReadLines(lines[i..], Some(cols), rows); header == Some(ClientRead(lines, i, cols, rows).0) && all == ClientRead(lines, i, cols, rows).1
    decreases |lines| - i
  {
    if i < |lines| {
      assert lines[i..][1..] == lines[i + 1..];
      if lines[i] == "" || lines[i][0] != '|' {
        ReadersAgreeAfterHeader(lines, i + 1, cols, rows);
      } else {
        ReadersAgreeAfterHeader(lines, i + 1, cols, rows + [SplitRow(lines[i])]);
      }
    }
  }

  /** Where the first row line is the second line, as in every box, the client reads what the MySQL side reads. */
  lemma ReadersAgree(lines: seq<string>)
    requires |lines| >= 2 && (lines[0] == "" || lines[0][0] != '|') && lines[1] != "" && lines[1][0] == '|'
    ensures var (cols, rows) := ClientRead(lines, 0, [], []); ReadLines(lines, None, []) == (Some(cols), rows)
  {
    ReadersAgreeAfterHeader(lines, 2, SplitRow(lines[1]), []);
    assert lines[1..][1..] == lines[2..];
    assert ClientRead(lines, 0, [], []) == ClientRead(lines, 1, [], []) == ClientRead(lines, 2, SplitRow(lines[1]), []);
  }
}
