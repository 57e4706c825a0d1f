/** The text of a result cell and of a row line, and the three readers that take a row line apart: the engine's, the MCP server's and the desktop client's. */
module ResultText {
  import opened Common

  predicate IsBlank(c: char) { c == ' ' || c == '\t' }

  ghost predicate BlankTo(s: string, n: nat)
    requires n <= |s|
  {
    Blank(s[..n])
  }

  ghost predicate Blank(s: string) { forall i :: 0 <= i < |s| ==> IsBlank(s[i]) }

  // ---- cells ----

  /** The character at `i` belongs to the blanks at the start or at the end of the value. */
  ghost predicate AtAnEnd(v: string, i: nat)
    requires i < |v|
  {
    Blank(v[..i + 1]) || Blank(v[i..])
  }

  function EscapeChar(c: char, atAnEnd: bool): (e: string)
    ensures 1 <= |e| <= 2
  {
    if c == '\\' then "\\\\"
    else if c == '\n' then "\\n"
    else if c == '|' then "\\|"
    else if c == ' ' && atAnEnd then "\\s"
    else if c == '\t' && atAnEnd then "\\t"
    else [c]
  }

  /** The first `n` characters of a value, escaped. */
  ghost function EscapeTo(v: string, n: nat): string
    requires n <= |v|
  {
    if n == 0 then "" else EscapeTo(v, n - 1) + EscapeChar(v[n - 1], AtAnEnd(v, n - 1))
  }

  ghost function Escape(v: string): string { EscapeTo(v, |v|) }

  /** `find_first_not_of(" \t")`; the length when there is none. */
  method FirstNotBlank(v: string) returns (first: nat)
    ensures first <= |v| && BlankTo(v, first) && (first < |v| ==> !IsBlank(v[first]))
  {
    first := 0;
    while first < |v| && IsBlank(v[first])
      invariant first <= |v| && BlankTo(v, first)
    {
      first := first + 1;
    }
  }

  /** One past `find_last_not_of(" \t")`; 0 when there is none. */
  method AfterLastNotBlank(v: string) returns (after: nat)
    ensures after <= |v| && Blank(v[after..]) && (after > 0 ==> !IsBlank(v[after - 1]))
  {
    after := |v|;
    while after > 0 && IsBlank(v[after - 1])
      invariant after <= |v| && Blank(v[after..])
    {
      after := after - 1;
    }
  }

  /** `escape_cell` */
  method EscapeCell(v: string) returns (out: string)
    ensures out == Escape(v)
  {
    var first := FirstNotBlank(v);
    var after := AfterLastNotBlank(v);
    out := "";
    for i := 0 to |v|
      invariant out == EscapeTo(v, i)
    {
      var atAnEnd := first == |v| || i < first || i >= after;
      assert atAnEnd == AtAnEnd(v, i) by {
        if !atAnEnd {
          assert v[..i + 1][first] == v[first];
          assert v[i..][after - 1 - i] == v[after - 1];
        } else if i < first {
          assert forall j :: 0 <= j <= i ==> v[j] == v[..first][j];
        } else {
          assert forall j :: i <= j < |v| ==> v[j] == v[after..][j - after];
        }
      }
      out := out + EscapeChar(v[i], atAnEnd);
    }
  }

  /** What an escape stands for, by the character behind the backslash. */
  function Meaning(c: char): (m: Option<char>)
  {
    if c == '\\' || c == '|' then Some(c)
    else if c == 'n' then Some('\n')
    else if c == 's' then Some(' ')
    else if c == 't' then Some('\t')
    else None
  }

  function Unescape(s: string): string
  {
    if s == "" then ""
    else if s[0] == '\\' && |s| > 1 && Meaning(s[1]).Some? then [Meaning(s[1]).value] + Unescape(s[2..])
    else [s[0]] + Unescape(s[1..])
  }

  /** `unescape_cell` of the engine and `_unescape_cell` of the MCP server: the same walk by index. */
  method UnescapeCell(cell: string) returns (out: string)
    ensures out == Unescape(cell)
  {
    hide Unescape, Meaning;
    out := "";
    var i := 0;
    ghost var left := Unescape(cell);
    assert cell[0..] == cell;
    while i < |cell|
      invariant i <= |cell| && left == Unescape(cell[i..]) && out + left == Unescape(cell)
    {
      UnescapeStep(cell, i);
      if cell[i] == '\\' && i + 1 < |cell| && Meaning(cell[i + 1]).Some? {
        left := Unescape(cell[i + 2..]);
        Regroup(out, [Meaning(cell[i + 1]).value], left);
        out := out + [Meaning(cell[i + 1]).value];
        i := i + 2;
      } else {
        left := Unescape(cell[i + 1..]);
        Regroup(out, [cell[i]], left);
        out := out + [cell[i]];
        i := i + 1;
      }
    }
    UnescapeNothing();
    assert cell[|cell|..] == "";
  }

  lemma UnescapeStep(cell: string, i: nat)
    requires i < |cell|
    ensures Unescape(cell[i..]) ==
            if cell[i] == '\\' && i + 1 < |cell| && Meaning(cell[i + 1]).Some? then [Meaning(cell[i + 1]).value] + Unescape(cell[i + 2..])
            else [cell[i]] + Unescape(cell[i + 1..])
  {
    var s := cell[i..];
    assert s[0] == cell[i] && s[1..] == cell[i + 1..];
    assert |s| > 1 ==> s[1] == cell[i + 1] && s[2..] == cell[i + 2..];
  }

  lemma UnescapeNothing()
    ensures Unescape("") == ""
  {
  }

  // ---- row lines ----

  /** The pieces of a line between the bars that no backslash escapes; `cur` is the piece begun. */
  function Pieces(s: string, cur: string): (ps: seq<string>)
    ensures |ps| >= 1
    decreases |s|
  {
    if s == "" then [cur]
    else if s[0] == '\\' && |s| > 1 then Pieces(s[2..], cur + s[..2])
    else if s[0] == '|' then [cur] + Pieces(s[1..], "")
    else Pieces(s[1..], cur + [s[0]])
  }

  function TrimLeft(s: string): string
  {
    if s != "" && IsBlank(s[0]) then TrimLeft(s[1..]) else s
  }

  function TrimRight(s: string): string
  {
    if s != "" && IsBlank(s[|s| - 1]) then TrimRight(s[..|s| - 1]) else s
  }

  function Trim(s: string): string { TrimRight(TrimLeft(s)) }

  /** The cells of pieces: an empty piece is no cell, a piece of blanks an empty one. */
  function Cells(ps: seq<string>): seq<string>
  {
    if ps == [] then [] else (if ps[0] == "" then [] else [Unescape(Trim(ps[0]))]) + Cells(ps[1..])
  }

  function SplitRow(line: string): seq<string> { Cells(Pieces(line, "")) }

  lemma {:induction false} CellsAppend(a: seq<string>, b: seq<string>)
    ensures Cells(a + b) == Cells(a) + Cells(b)
  {
    if a == [] {
      assert a + b == b;
    } else {
      assert (a + b)[1..] == a[1..] + b;
      CellsAppend(a[1..], b);
    }
  }

  lemma {:induction false} TrimLeftIs(s: string, n: nat)
    requires n <= |s| && Blank(s[..n]) && (n < |s| ==> !IsBlank(s[n]))
    ensures TrimLeft(s) == s[n..]
  {
    if n > 0 {
      assert IsBlank(s[..n][0]);
      assert s[1..][..n - 1] == s[..n][1..];
      TrimLeftIs(s[1..], n - 1);
    }
  }

  lemma {:induction false} TrimRightIs(s: string, n: nat)
    requires n <= |s| && Blank(s[n..]) && (n > 0 ==> !IsBlank(s[n - 1]))
    ensures TrimRight(s) == s[..n]
  {
    if n < |s| {
      assert IsBlank(s[n..][|s| - 1 - n]);
      assert s[..|s| - 1][n..] == s[n..][..|s| - 1 - n];
      TrimRightIs(s[..|s| - 1], n);
    }
  }

  /** `piece.substr(find_first_not_of, ...)`, Python's `strip(" \t")`, Rust's `trim_matches`. */
  method TrimBlanks(s: string) returns (r: string)
    ensures r == Trim(s)
  {
    var from := FirstNotBlank(s);
    TrimLeftIs(s, from);
    var rest := s[from..];
    var n := AfterLastNotBlank(rest);
    TrimRightIs(rest, n);
    r := rest[..n];
  }

  /** The pieces of a line from `start` on, when the first of them ends at `bar`. */
  ghost function PiecesAt(line: string, start: nat, bar: nat): seq<string>
    requires start <= bar <= |line|
  {
    if bar == |line| then [line[start..]] else [line[start..bar]] + Pieces(line[bar + 1..], "")
  }

  /** `find_unescaped_bar` of the engine: where the piece begun at `start` ends; the length when no bar follows. */
  method FindUnescapedBar(line: string, start: nat) returns (bar: nat)
    requires start <= |line|
    ensures start <= bar <= |line|
    ensures Pieces(line[start..], "") == PiecesAt(line, start, bar)
  {
    bar := start;
    assert line[start..start] == "";
    while bar < |line|
      invariant start <= bar <= |line|
      invariant Pieces(line[start..], "") == Pieces(line[bar..], line[start..bar])
    {
      var s := line[bar..];
      assert s[1..] == line[bar + 1..] && line[start..bar] + [s[0]] == line[start..bar + 1];
      if line[bar] == '\\' && bar + 1 < |line| {
        assert s[2..] == line[bar + 2..] && line[start..bar] + s[..2] == line[start..bar + 2];
        bar := bar + 2;
        continue;
      }
      if line[bar] == '|' {
        return;
      }
      bar := bar + 1;
    }
    assert line[bar..] == "" && line[start..bar] == line[start..];
  }

  /** What all three readers do with a piece; `push_cell` of the desktop client. */
  method PushCell(piece: string, cells: seq<string>) returns (more: seq<string>)
    ensures more == cells + Cells([piece])
  {
    more := cells;
    if piece != "" {
      var trimmed := TrimBlanks(piece);
      var cell := UnescapeCell(trimmed);
      more := cells + [cell];
    }
  }

  /** `split_row` of the engine: finds each bar, cuts, trims and unescapes. */
  method EngineSplitRow(line: string) returns (cells: seq<string>)
    ensures cells == SplitRow(line)
  {
    cells := [];
    var start := 0;
    assert line[0..] == line;
    ghost var rest := SplitRow(line);
    while true
      invariant start <= |line|
      invariant rest == Cells(Pieces(line[start..], ""))
      invariant cells + rest == SplitRow(line)
      decreases |line| - start
    {
      var bar := FindUnescapedBar(line, start);
      NextCells(line, start, bar, rest);
      ghost var before := cells;
      cells := PushCell(line[start..bar], cells);
      rest := if bar == |line| then [] else Cells(Pieces(line[bar + 1..], ""));
      Regroup(before, Cells([line[start..bar]]), rest);
      if bar == |line| {
        return;
      }
      start := bar + 1;
    }
  }

  lemma NextCells(line: string, start: nat, bar: nat, cells: seq<string>)
    requires start <= bar <= |line| && cells == Cells(Pieces(line[start..], ""))
    requires Pieces(line[start..], "") ==
             if bar == |line| then [line[start..]] else [line[start..bar]] + Pieces(line[bar + 1..], "")
    ensures cells == Cells([line[start..bar]]) + if bar == |line| then [] else Cells(Pieces(line[bar + 1..], ""))
  {
    if bar < |line| {
      CellsAppend([line[start..bar]], Pieces(line[bar + 1..], ""));
    } else {
      assert line[start..bar] == line[start..];
    }
  }

  /** `_split_row` of the MCP server: collects the pieces character by character, then the cells. */
  method ServerSplitRow(line: string) returns (cells: seq<string>)
    ensures cells == SplitRow(line)
  {
    var pieces: seq<string>, cur, i := [], "", 0;
    assert line[0..] == line;
    while i < |line|
      invariant i <= |line| && pieces + Pieces(line[i..], cur) == Pieces(line, "")
    {
      var s := line[i..];
      assert s[1..] == line[i + 1..];
      if line[i] == '\\' && i + 1 < |line| {
        assert s[2..] == line[i + 2..];
        cur := cur + s[..2];
        i := i + 2;
        continue;
      }
      if line[i] == '|' {
        pieces := pieces + [cur];
        cur := "";
      } else {
        cur := cur + [line[i]];
      }
      i := i + 1;
    }
    pieces := pieces + [cur];
    cells := [];
    for k := 0 to |pieces|
      invariant cells == Cells(pieces[..k])
    {
      CellsAppend(pieces[..k], [pieces[k]]);
      assert pieces[..k + 1] == pieces[..k] + [pieces[k]];
      cells := PushCell(pieces[k], cells);
    }
    assert pieces[..|pieces|] == pieces;
  }

  /** `split_row` of the desktop client: pushes a cell at each bar; a backslash takes the next character with it, if there is one. */
  method ClientSplitRow(line: string) returns (cells: seq<string>)
    ensures cells == SplitRow(line)
  {
    hide Pieces, Cells;
    cells := [];
    var piece, i := "", 0;
    assert line[0..] == line;
    while i < |line|
      invariant i <= |line| && cells + Cells(Pieces(line[i..], piece)) == SplitRow(line)
    {
      PiecesStep(line, i, piece);
      var c := line[i];
      i := i + 1;
      if c == '\\' {
        if i < |line| {
          piece := piece + [c] + [line[i]];
          i := i + 1;
        } else {
          piece := piece + [c];
        }
      } else if c == '|' {
        CellsAppend([piece], Pieces(line[i..], ""));
        Regroup(cells, Cells([piece]), Cells(Pieces(line[i..], "")));
        cells := PushCell(piece, cells);
        piece := "";
      } else {
        piece := piece + [c];
      }
    }
    LastPiece(piece);
    assert line[|line|..] == "";
    cells := PushCell(piece, cells);
  }

  lemma LastPiece(cur: string)
    ensures Pieces("", cur) == [cur]
  {
  }

  /** How the pieces of the rest of a line go on at a character. */
  lemma PiecesStep(line: string, i: nat, cur: string)
    requires i < |line|
    ensures Pieces(line[i..], cur) ==
            if line[i] == '\\' && i + 1 < |line| then Pieces(line[i + 2..], cur + [line[i]] + [line[i + 1]])
            else if line[i] == '|' then [cur] + Pieces(line[i + 1..], "")
            else Pieces(line[i + 1..], cur + [line[i]])
  {
    var s := line[i..];
    assert s[0] == line[i] && s[1..] == line[i + 1..];
    if line[i] == '\\' && i + 1 < |line| {
      assert s[2..] == line[i + 2..] && s[..2] == [line[i], line[i + 1]];
      assert cur + s[..2] == cur + [line[i]] + [line[i + 1]];
    }
  }

  // ---- a cell comes back ----

  /** Text a row can hold between two bars: no bar without a backslash before it, no backslash left over. */
  ghost predicate Closed(s: string)
  {
    s == "" || (if s[0] == '\\' then |s| > 1 && Closed(s[2..]) else s[0] != '|' && Closed(s[1..]))
  }

  lemma {:induction false} ClosedAppend(a: string, b: string)
    requires Closed(a) && Closed(b)
    ensures Closed(a + b)
  {
    if a == "" {
      assert a + b == b;
    } else if a[0] == '\\' {
      assert (a + b)[2..] == a[2..] + b;
      ClosedAppend(a[2..], b);
    } else {
      assert (a + b)[1..] == a[1..] + b;
      ClosedAppend(a[1..], b);
    }
  }

  /** The readers pass over closed text. */
  lemma {:induction false} PiecesPassClosed(a: string, b: string, cur: string)
    requires Closed(a)
    ensures Pieces(a + b, cur) == Pieces(b, cur + a)
    decreases |a|
  {
    if a == "" {
      assert a + b == b && cur + a == cur;
    } else if a[0] == '\\' {
      assert (a + b)[2..] == a[2..] + b && (a + b)[..2] == a[..2];
      assert cur + a[..2] + a[2..] == cur + a;
      PiecesPassClosed(a[2..], b, cur + a[..2]);
    } else {
      assert (a + b)[1..] == a[1..] + b;
      assert cur + [a[0]] + a[1..] == cur + a;
      PiecesPassClosed(a[1..], b, cur + [a[0]]);
    }
  }

  lemma {:induction false} BlankIsClosed(s: string)
    requires Blank(s)
    ensures Closed(s)
  {
    if s != "" {
      BlankIsClosed(s[1..]);
    }
  }

  /** Unescaping text that starts with an escaped character gives that character first. */
  lemma UnescapeUnit(c: char, atAnEnd: bool, rest: string)
    ensures Unescape(EscapeChar(c, atAnEnd) + rest) == [c] + Unescape(rest)
    ensures Closed(EscapeChar(c, atAnEnd)) && '\n' !in EscapeChar(c, atAnEnd)
  {
    var e := EscapeChar(c, atAnEnd);
    if |e| == 2 {
      assert (e + rest)[2..] == rest;
    } else {
      assert (e + rest)[1..] == rest;
    }
  }

  lemma {:induction false} EscapeToIsClosed(v: string, n: nat)
    requires n <= |v|
    ensures Closed(EscapeTo(v, n)) && '\n' !in EscapeTo(v, n)
  {
    if n > 0 {
      UnescapeUnit(v[n - 1], AtAnEnd(v, n - 1), "");
      EscapeToIsClosed(v, n - 1);
      ClosedAppend(EscapeTo(v, n - 1), EscapeChar(v[n - 1], AtAnEnd(v, n - 1)));
    }
  }

  lemma {:induction false} UnescapeEscapeTo(v: string, n: nat, rest: string)
    requires n <= |v|
    ensures Unescape(EscapeTo(v, n) + rest) == v[..n] + Unescape(rest)
  {
    hide AtAnEnd, EscapeChar, Unescape;
    if n == 0 {
      assert EscapeTo(v, n) + rest == rest && v[..0] + Unescape(rest) == Unescape(rest);
    } else {
      var e := EscapeChar(v[n - 1], AtAnEnd(v, n - 1));
      UnescapeUnit(v[n - 1], AtAnEnd(v, n - 1), rest);
      UnescapeEscapeTo(v, n - 1, e + rest);
      assert EscapeTo(v, n - 1) + (e + rest) == EscapeTo(v, n) + rest;
      assert v[..n - 1] + ([v[n - 1]] + Unescape(rest)) == v[..n] + Unescape(rest);
    }
  }

  /** Escaping and unescaping a cell gives the value back; no newline and no cell boundary is left in between. */
  lemma EscapeRoundTrip(v: string)
    ensures Unescape(Escape(v)) == v
    ensures Closed(Escape(v)) && '\n' !in Escape(v)
  {
    EscapeToIsClosed(v, |v|);
    UnescapeEscapeTo(v, |v|, "");
    assert Escape(v) + "" == Escape(v) && v[..|v|] + Unescape("") == v;
  }

  lemma {:induction false} EscapeStarts(v: string, n: nat)
    requires 0 < n <= |v|
    ensures EscapeTo(v, n) != "" && !IsBlank(EscapeTo(v, n)[0])
  {
    if n == 1 {
      assert IsBlank(v[0]) ==> AtAnEnd(v, 0);
    } else {
      EscapeStarts(v, n - 1);
    }
  }

  /** An escaped value neither starts nor ends with a blank, so padding does not eat into it. */
  lemma EscapeHasNoBlankEnds(v: string)
    requires v != ""
    ensures Escape(v) != "" && !IsBlank(Escape(v)[0]) && !IsBlank(Escape(v)[|Escape(v)| - 1])
  {
    EscapeStarts(v, |v|);
    var last := |v| - 1;
    assert v[last..] == [v[last]];
    assert IsBlank(v[last]) ==> AtAnEnd(v, last);
  }

  /** Trimming takes exactly the padding off. */
  lemma TrimPadding(left: string, x: string, right: string)
    requires Blank(left) && Blank(right)
    requires x != "" ==> !IsBlank(x[0]) && !IsBlank(x[|x| - 1])
    ensures Trim(left + x + right) == x
  {
    hide TrimLeft, TrimRight;
    var s := left + x + right;
    if x == "" {
      assert s[..|s|] == left + right;
      TrimLeftIs(s, |s|);
      TrimRightIs("", 0);
    } else {
      assert s[..|left|] == left;
      TrimLeftIs(s, |left|);
      assert s[|left|..] == x + right;
      assert (x + right)[|x|..] == right;
      TrimRightIs(x + right, |x|);
    }
  }

  /** A cell written with any padding is read back. */
  lemma PaddedCell(v: string, left: string, right: string)
    requires Blank(left) && Blank(right) && left != ""
    ensures Cells([left + Escape(v) + right]) == [v]
  {
    if v != "" {
      EscapeHasNoBlankEnds(v);
    }
    TrimPadding(left, Escape(v), right);
    EscapeRoundTrip(v);
  }
}
