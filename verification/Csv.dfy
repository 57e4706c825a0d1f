/** The CSV a result grid writes and the CSV import reads. */
module Csv {
  import opened Common

  // ---- writing ----

  predicate Special(c: char) { c == '"' || c == ',' || c == '\n' || c == '\r' }

  function Doubled(v: string): string
  {
    if v == "" then "" else (if v[0] == '"' then "\"\"" else [v[0]]) + Doubled(v[1..])
  }

  /** `escape`: a field with a special character is quoted, the quotes in it doubled. */
  function Escape(v: string): string
  {
    if exists i :: 0 <= i < |v| && Special(v[i]) then "\"" + (Doubled(v) + "\"") else v
  }

  function RowLine(fields: seq<string>): string
  {
    if fields == [] then "" else if |fields| == 1 then Escape(fields[0]) else Escape(fields[0]) + ("," + RowLine(fields[1..]))
  }

  function RowLines(rows: seq<seq<string>>): (lines: seq<string>)
    ensures |lines| == |rows| && forall i :: 0 <= i < |rows| ==> lines[i] == RowLine(rows[i])
  {
    seq(|rows|, i requires 0 <= i < |rows| => RowLine(rows[i]))
  }

  function JoinLines(lines: seq<string>): string
  {
    if lines == [] then "" else if |lines| == 1 then lines[0] else lines[0] + ("\r\n" + JoinLines(lines[1..]))
  }

  /** The file: the header and the rows, one a line. The byte-order mark in front of it is gone when the import gets the text. */
  function Export(cols: seq<string>, rows: seq<seq<string>>): string { JoinLines([RowLine(cols)] + RowLines(rows)) }

  // ---- reading a row ----

  /** The fields of the rest of a line, inside quotes or not, with `cur` read of the first. */
  function Fields(s: string, quoted: bool, cur: string): (fs: seq<string>)
    ensures |fs| >= 1
    decreases |s|
  {
    if s == "" then [cur]
    else if s[0] == '"' then
      if !quoted then Fields(s[1..], true, cur)
      else if |s| > 1 && s[1] == '"' then Fields(s[2..], true, cur + "\"")
      else Fields(s[1..], false, cur)
    else if s[0] == ',' && !quoted then [cur] + Fields(s[1..], false, "")
    else Fields(s[1..], quoted, cur + [s[0]])
  }

  function ParsedRow(line: string): seq<string> { Fields(line, false, "") }

  /** `csv_parse_row` */
  method ParseRow(line: string) returns (fields: seq<string>)
    ensures fields == ParsedRow(line)
  {
    fields := [];
    var current, inQuotes, i := "", false, 0;
    assert line[0..] == line;
    while i < |line|
      invariant i <= |line| && fields + Fields(line[i..], inQuotes, current) == ParsedRow(line)
    {
      var c := line[i];
      assert line[i..][0] == c && line[i..][1..] == line[i + 1..];
      if c == '"' && !inQuotes {
        inQuotes := true;
      } else if c == '"' {
        if i + 1 < |line| && line[i + 1] == '"' {
          assert line[i..][1] == '"' && line[i..][2..] == line[i + 2..];
          current := current + "\"";
          i := i + 1;
        } else {
          inQuotes := false;
        }
      } else if c == ',' && !inQuotes {
        Regroup(fields, [current], Fields(line[i + 1..], false, ""));
        fields := fields + [current];
        current := "";
      } else {
        current := current + [c];
      }
      i := i + 1;
    }
    assert line[i..] == "";
    fields := fields + [current];
  }

  lemma {:induction false} PlainField(v: string, rest: string, cur: string)
    requires forall i :: 0 <= i < |v| ==> !Special(v[i])
    ensures Fields(v + rest, false, cur) == Fields(rest, false, cur + v)
  {
    if v == "" {
      assert v + rest == rest && cur + v == cur;
    } else {
      assert (v + rest)[1..] == v[1..] + rest && (v + rest)[0] == v[0];
      PlainField(v[1..], rest, cur + [v[0]]);
      assert cur + [v[0]] + v[1..] == cur + v;
    }
  }

  lemma {:induction false} QuotedField(v: string, rest: string, cur: string)
    requires rest != "" ==> rest[0] != '"'
    ensures Fields(Doubled(v) + "\"" + rest, true, cur) == Fields(rest, false, cur + v)
  {
    var s := Doubled(v) + "\"" + rest;
    if v == "" {
      assert s[0] == '"' && s[1..] == rest && cur + v == cur;
    } else {
      var tail := Doubled(v[1..]) + "\"" + rest;
      QuotedField(v[1..], rest, cur + [v[0]]);
      assert cur + [v[0]] + v[1..] == cur + v;
      if v[0] == '"' {
        assert s[0] == s[1] == '"' && s[2..] == tail;
      } else {
        assert s[0] == v[0] && s[1..] == tail;
      }
    }
  }

  lemma EscapedField(v: string, rest: string)
    requires rest != "" ==> rest[0] == ','
    ensures Fields(Escape(v) + rest, false, "") == Fields(rest, false, v)
  {
    hide Fields, Doubled;
    assert "" + v == v;
    if exists i :: 0 <= i < |v| && Special(v[i]) {
      var body := Doubled(v) + "\"" + rest;
      assert Escape(v) + rest == "\"" + body;
      OpenQuote(body);
      QuotedField(v, rest, "");
    } else {
      PlainField(v, rest, "");
    }
  }

  lemma OpenQuote(body: string)
    ensures Fields("\"" + body, false, "") == Fields(body, true, "")
  {
    assert ("\"" + body)[1..] == body;
  }

  /** A row is read back as the fields that were written, whatever stands in them. */
  lemma {:induction false} RowRoundTrip(fields: seq<string>)
    requires fields != []
    ensures ParsedRow(RowLine(fields)) == fields
  {
    if |fields| == 1 {
      EscapedField(fields[0], "");
      assert Escape(fields[0]) + "" == Escape(fields[0]);
      assert Fields("", false, fields[0]) == fields;
    } else {
      var rest := "," + RowLine(fields[1..]);
      EscapedField(fields[0], rest);
      assert rest[0] == ',' && rest[1..] == RowLine(fields[1..]);
      RowRoundTrip(fields[1..]);
      assert fields == [fields[0]] + fields[1..];
    }
  }

  // ---- reading a file ----

  function LineEnd(s: string): (k: nat)
    ensures k <= |s| && (k < |s| ==> s[k] == '\n') && Free(s, '\n', 0, k)
  {
    if s == "" || s[0] == '\n' then 0
    else
      var at := LineEnd(s[1..]);
      FreeFront(s, '\n', at);
      at + 1
  }

  function WithoutReturn(s: string): string { if s != "" && s[|s| - 1] == '\r' then s[..|s| - 1] else s }

  /** `str::lines`: a line that ends in a newline loses it and the carriage return before it; nothing after the last newline is no line. */
  function Lines(s: string): seq<string>
    decreases |s|
  {
    if s == "" then [] else
      var k := LineEnd(s);
      if k == |s| then [s] else [WithoutReturn(s[..k])] + Lines(s[k + 1..])
  }

  /** `char::is_whitespace`, the White_Space property of the Unicode Standard. */
  predicate IsWhite(c: char)
  {
    var n := c as int;
    || 9 <= n <= 13 || n == 0x20 || n == 0x85 || n == 0xa0 || n == 0x1680 || 0x2000 <= n <= 0x200a
    || n == 0x2028 || n == 0x2029 || n == 0x202f || n == 0x205f || n == 0x3000
  }

  predicate Blank(line: string) { forall i :: 0 <= i < |line| ==> IsWhite(line[i]) }

  function RowsOf(lines: seq<string>): seq<seq<string>>
  {
    if lines == [] then [] else (if Blank(lines[0]) then [] else [ParsedRow(lines[0])]) + RowsOf(lines[1..])
  }

  /** The rows `import_csv` sends, none when the file is empty. */
  function Imported(content: string): Option<seq<seq<string>>>
  {
    var lines := Lines(content);
    if lines == [] then None else Some(RowsOf(lines[1..]))
  }

  /** `import_csv`, up to the rows it sends. */
  method ImportRows(content: string) returns (result: Option<seq<seq<string>>>)
    ensures result == Imported(content)
  {
    var lines := Lines(content);
    if lines == [] {
      return None;
    }
    var rows := [];
    for i := 1 to |lines|
      invariant rows + RowsOf(lines[i..]) == RowsOf(lines[1..])
    {
      assert lines[i..][0] == lines[i] && lines[i..][1..] == lines[i + 1..];
      if !Blank(lines[i]) {
        var vals := ParseRow(lines[i]);
        Regroup(rows, [vals], RowsOf(lines[i + 1..]));
        rows := rows + [vals];
      } else {
        assert [] + RowsOf(lines[i + 1..]) == RowsOf(lines[i + 1..]);
      }
    }
    assert lines[|lines|..] == [] && rows + [] == rows;
    return Some(rows);
  }

  // ---- a whole file ----

  lemma LineEndAt(a: string, b: string)
    requires '\n' !in a
    ensures LineEnd(a + b) >= |a| && (b != "" && b[0] == '\n' ==> LineEnd(a + b) == |a|)
  {
    var s := a + b;
    var k := LineEnd(s);
    assert forall i :: 0 <= i < |a| ==> s[i] == a[i];
    assert k > |a| ==> s[..k][|a|] == s[|a|];
  }

  lemma FirstLine(l: string, rest: string)
    requires '\n' !in l
    ensures Lines(l + ("\r\n" + rest)) == [l] + Lines(rest)
  {
    hide Lines, LineEnd;
    var s, a := l + ("\r\n" + rest), l + "\r";
    assert s == a + ("\n" + rest);
    LineEndAt(a, "\n" + rest);
    LinesAt(s);
    assert s[..|a|] == a && s[|a| + 1..] == rest && WithoutReturn(a) == l;
  }

  lemma LinesAt(s: string)
    requires s != ""
    ensures var k := LineEnd(s); Lines(s) == if k == |s| then [s] else [WithoutReturn(s[..k])] + Lines(s[k + 1..])
  {
    hide LineEnd;
  }

  /** Lines without newlines come back from a file, but for an empty one at its end. */
  lemma {:induction false} LinesOfJoined(lines: seq<string>)
    requires lines != [] && forall i :: 0 <= i < |lines| ==> '\n' !in lines[i]
    ensures Lines(JoinLines(lines)) == if lines[|lines| - 1] == "" then lines[..|lines| - 1] else lines
  {
    if |lines| == 1 {
      var l := lines[0];
      if l != "" {
        LineEndAt(l, "");
        assert l + "" == l && lines == [l];
      }
    } else {
      FirstLine(lines[0], JoinLines(lines[1..]));
      LinesOfJoined(lines[1..]);
      assert lines == [lines[0]] + lines[1..] && lines[..|lines| - 1] == [lines[0]] + lines[1..][..|lines| - 2];
    }
  }

  lemma {:induction false} EmptyLineCounts(lines: seq<string>)
    ensures RowsOf(lines + [""]) == RowsOf(lines)
  {
    if lines == [] {
      assert lines + [""] == [""];
    } else {
      assert (lines + [""])[1..] == lines[1..] + [""];
      EmptyLineCounts(lines[1..]);
    }
  }

  ghost predicate AllWritten(rows: seq<seq<string>>) { forall i :: 0 <= i < |rows| ==> !Blank(RowLine(rows[i])) }

  /** Rows whose lines are not blank are read back; a blank line costs its row. */
  lemma {:induction false} RowsBack(rows: seq<seq<string>>)
    ensures |RowsOf(RowLines(rows))| <= |rows|
    ensures AllWritten(rows) <==> RowsOf(RowLines(rows)) == rows
    ensures !AllWritten(rows) ==> |RowsOf(RowLines(rows))| < |rows|
  {
    if rows == [] {
    } else {
      assert RowLines(rows)[1..] == RowLines(rows[1..]);
      RowsBack(rows[1..]);
      assert rows == [rows[0]] + rows[1..];
      if Blank(RowLine(rows[0])) {
      } else {
        if rows[0] != [] {
          RowRoundTrip(rows[0]);
        }
        assert AllWritten(rows) <==> AllWritten(rows[1..]) by {
          assert forall i :: 1 <= i < |rows| ==> rows[i] == rows[1..][i - 1];
        }
      }
    }
  }

  ghost predicate NoNewline(rows: seq<seq<string>>) { forall i, j :: 0 <= i < |rows| && 0 <= j < |rows[i]| ==> '\n' !in rows[i][j] }

  lemma {:induction false} FieldsHaveNoNewline(s: string, quoted: bool, cur: string)
    requires '\n' !in s && '\n' !in cur
    ensures forall j :: 0 <= j < |Fields(s, quoted, cur)| ==> '\n' !in Fields(s, quoted, cur)[j]
    decreases |s|
  {
    if s != "" {
      if s[0] == '"' && quoted && |s| > 1 && s[1] == '"' {
        FieldsHaveNoNewline(s[2..], true, cur + "\"");
      } else if s[0] == '"' {
        FieldsHaveNoNewline(s[1..], !quoted, cur);
      } else if s[0] == ',' && !quoted {
        FieldsHaveNoNewline(s[1..], false, "");
      } else {
        FieldsHaveNoNewline(s[1..], quoted, cur + [s[0]]);
      }
    }
  }

  lemma {:induction false} LinesHaveNoNewline(s: string)
    ensures forall i :: 0 <= i < |Lines(s)| ==> '\n' !in Lines(s)[i]
    decreases |s|
  {
    if s != "" {
      var k := LineEnd(s);
      if k < |s| {
        LinesHaveNoNewline(s[k + 1..]);
      } else {
        assert s[..k] == s;
      }
    }
  }

  lemma {:induction false} RowsHaveNoNewline(lines: seq<string>)
    requires forall i :: 0 <= i < |lines| ==> '\n' !in lines[i]
    ensures NoNewline(RowsOf(lines))
  {
    if lines != [] {
      RowsHaveNoNewline(lines[1..]);
      FieldsHaveNoNewline(lines[0], false, "");
    }
  }

  lemma {:induction false} DoubledHasNoNewline(v: string)
    requires '\n' !in v
    ensures '\n' !in Doubled(v)
  {
    if v != "" {
      DoubledHasNoNewline(v[1..]);
    }
  }

  lemma {:induction false} RowLineHasNoNewline(fields: seq<string>)
    requires forall j :: 0 <= j < |fields| ==> '\n' !in fields[j]
    ensures '\n' !in RowLine(fields)
  {
    if fields != [] {
      DoubledHasNoNewline(fields[0]);
      RowLineHasNoNewline(fields[1..]);
    }
  }

  /** An exported file is imported as its rows exactly when no field holds a newline, no row was written as a blank line and the file is not empty. */
  lemma FileRoundTrip(cols: seq<string>, rows: seq<seq<string>>)
    requires '\n' !in RowLine(cols)
    ensures Imported(Export(cols, rows)) == Some(rows) <==> NoNewline(rows) && AllWritten(rows) && (rows != [] || RowLine(cols) != "")
  {
    if NoNewline(rows) {
      WrittenBack(cols, rows);
    } else {
      var back := Lines(Export(cols, rows));
      LinesHaveNoNewline(Export(cols, rows));
      if back != [] {
        RowsHaveNoNewline(back[1..]);
      }
    }
  }

  lemma WrittenBack(cols: seq<string>, rows: seq<seq<string>>)
    requires '\n' !in RowLine(cols) && NoNewline(rows)
    ensures Imported(Export(cols, rows)) == if rows == [] && RowLine(cols) == "" then None else Some(RowsOf(RowLines(rows)))
    ensures AllWritten(rows) <==> RowsOf(RowLines(rows)) == rows
  {
    hide RowLine, RowsOf, Lines, JoinLines, Blank;
    var header, written := RowLine(cols), RowLines(rows);
    var lines := [header] + written;
    forall i | 0 <= i < |lines| ensures '\n' !in lines[i] {
      if i > 0 {
        RowLineHasNoNewline(rows[i - 1]);
      }
    }
    LinesOfJoined(lines);
    RowsBack(rows);
    assert lines[1..] == written;
    if lines[|lines| - 1] == "" && rows != [] {
      var kept := written[..|rows| - 1];
      assert lines[..|lines| - 1] == [header] + kept && ([header] + kept)[1..] == kept && kept + [""] == written;
      EmptyLineCounts(kept);
    }
  }

  /** A row is written as a blank line exactly when it has no field, or one that is all white space and has no line break. */
  lemma BlankRow(fields: seq<string>)
    ensures Blank(RowLine(fields)) <==> fields == [] || (|fields| == 1 && Blank(fields[0]) && '\n' !in fields[0] && '\r' !in fields[0])
  {
    if |fields| == 1 {
      var v := fields[0];
      if exists i :: 0 <= i < |v| && Special(v[i]) {
        assert Escape(v)[0] == '"';
      }
    } else if |fields| > 1 {
      assert RowLine(fields)[|Escape(fields[0])|] == ',';
    }
  }
}
