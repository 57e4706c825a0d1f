/** The splitter of the desktop client: statements end at a semicolon outside strings where its counter of BEGIN and END is 0. */
module StatementSplit {
  import opened Common

  /** Unicode's classes of characters and its upper case, as the standard library gives them. */
  datatype Classes = Classes(alpha: char -> bool, alnum: char -> bool, white: char -> bool, upper: string -> string)

  predicate IsSign(c: char) { c in {';', '\'', '-', '#', '/', '*', '_', '\n'} }

  /** What the splitter relies on: letters are alphanumeric, blanks are not, and the signs are neither (a newline is a blank). */
  ghost predicate Sane(k: Classes)
  {
    forall c :: (k.alpha(c) ==> k.alnum(c)) && (k.white(c) ==> !k.alnum(c)) && (IsSign(c) ==> !k.alnum(c)) && (IsSign(c) && c != '\n' ==> !k.white(c))
  }

  type SaneClasses = k: Classes | Sane(k) ghost witness Classes(c => false, c => false, c => false, s => s)

  // ---- tokens ----

  predicate StartsWord(k: SaneClasses, c: char) { k.alpha(c) || c == '_' }

  predicate InWord(k: SaneClasses, c: char) { k.alnum(c) || c == '_' }

  /** The characters of a word at the start of `s`. */
  function WordLen(k: SaneClasses, s: string): (n: nat)
    ensures n <= |s|
    ensures forall i :: 0 <= i < n ==> InWord(k, s[i])
    ensures n < |s| ==> !InWord(k, s[n])
  {
    if s == "" || !InWord(k, s[0]) then 0 else 1 + WordLen(k, s[1..])
  }

  /** Where the first `c` stands; the length when there is none. */
  function IndexOf(s: string, c: char): (n: nat)
    ensures n <= |s| && (n < |s| ==> s[n] == c) && forall i :: 0 <= i < n ==> s[i] != c
  {
    if s == "" || s[0] == c then 0 else 1 + IndexOf(s[1..], c)
  }

  /** A string literal at the start of `s`, closed or not. */
  function StringLen(s: string): (n: nat)
    requires s != "" && s[0] == '\''
    ensures 1 <= n <= |s|
  {
    var at := IndexOf(s[1..], '\'');
    if at + 1 < |s| then at + 2 else |s|
  }

  predicate StartsComment(s: string)
  {
    s != "" && (s[0] == '#' || (|s| > 1 && ((s[0] == '-' && s[1] == '-') || (s[0] == '/' && s[1] == '*'))))
  }

  /** From `i` on: one past the next end of a block comment; the last character when there is none. */
  function BlockFrom(s: string, i: nat): (n: nat)
    requires i <= |s|
    ensures i <= n <= |s|
    decreases |s| - i
  {
    if i + 1 < |s| then if s[i] == '*' && s[i + 1] == '/' then i + 2 else BlockFrom(s, i + 1) else i
  }

  function CommentLen(s: string): (n: nat)
    requires StartsComment(s)
    ensures 1 <= n <= |s|
  {
    if s[0] == '/' then BlockFrom(s, 2) else IndexOf(s, '\n')
  }

  function SkipWhite(k: SaneClasses, s: string): (n: nat)
    ensures n <= |s| && (n < |s| ==> !k.white(s[n])) && forall i :: 0 <= i < n ==> k.white(s[i])
  {
    if s == "" || !k.white(s[0]) then 0 else 1 + SkipWhite(k, s[1..])
  }

  /** The word after the blanks `s` starts with; `underscore` says whether an underscore may start it. */
  function NextWord(k: SaneClasses, s: string, underscore: bool): string
  {
    var t := s[SkipWhite(k, s)..];
    if t != "" && (k.alpha(t[0]) || (underscore && t[0] == '_')) then t[..WordLen(k, t)] else ""
  }

  /** A BEGIN before `s` only starts a transaction. */
  predicate IsTransaction(k: SaneClasses, s: string)
  {
    var j := SkipWhite(k, s);
    j == |s| || s[j] == ';' || (k.alpha(s[j]) && k.upper(NextWord(k, s, false)) == "WORK")
  }

  /** An END before `s` closes something else than a body. */
  predicate NextIsSub(k: SaneClasses, s: string)
  {
    var w := NextWord(k, s, true);
    w != "" && k.upper(w) in {"IF", "WHILE", "LOOP", "REPEAT", "CASE"}
  }

  /** The depth after a word, given what follows it. */
  function DepthAfter(k: SaneClasses, word: string, rest: string, depth: nat): nat
  {
    if k.upper(word) == "BEGIN" then if IsTransaction(k, rest) then depth else depth + 1
    else if k.upper(word) == "END" then if !NextIsSub(k, rest) && depth > 0 then depth - 1 else depth
    else depth
  }

  /** How many characters the token at the start of `s` has. */
  function TokenLen(k: SaneClasses, s: string): (n: nat)
    requires s != ""
    ensures 1 <= n <= |s|
  {
    if StartsComment(s) then CommentLen(s)
    else if s[0] == '\'' then StringLen(s)
    else if StartsWord(k, s[0]) then WordLen(k, s)
    else 1
  }

  function NextDepth(k: SaneClasses, s: string, depth: nat): nat
    requires s != ""
  {
    if !StartsComment(s) && s[0] != '\'' && StartsWord(k, s[0]) then DepthAfter(k, s[..WordLen(k, s)], s[WordLen(k, s)..], depth) else depth
  }

  /** The statements of `s`, comments left out, before they are trimmed; `cur` is the one begun. */
  function Raw(k: SaneClasses, s: string, depth: nat, cur: string): (ps: seq<string>)
    ensures |ps| >= 1
    decreases |s|
  {
    if s == "" then [cur]
    else
      var n := TokenLen(k, s);
      if StartsComment(s) then Raw(k, s[n..], depth, cur)
      else if s[0] == ';' && depth == 0 then [cur] + Raw(k, s[1..], 0, "")
      else Raw(k, s[n..], NextDepth(k, s, depth), cur + s[..n])
  }

  function TrimStart(k: SaneClasses, s: string): string { s[SkipWhite(k, s)..] }

  function TrimEnd(k: SaneClasses, s: string): string
  {
    if s != "" && k.white(s[|s| - 1]) then TrimEnd(k, s[..|s| - 1]) else s
  }

  function Trim(k: SaneClasses, s: string): string { TrimEnd(k, TrimStart(k, s)) }

  /** The statements that are not blank, trimmed. */
  function Finish(k: SaneClasses, ps: seq<string>): seq<string>
  {
    if ps == [] then [] else (if Trim(k, ps[0]) != "" then [Trim(k, ps[0])] else []) + Finish(k, ps[1..])
  }

  function Split(k: SaneClasses, s: string): seq<string> { Finish(k, Raw(k, s, 0, "")) }

  // ---- the loops ----

  /** The index where the run of characters of a word ends. */
  method WordEnd(k: SaneClasses, s: string, start: nat) returns (i: nat)
    requires start <= |s|
    ensures i == start + WordLen(k, s[start..])
  {
    i := start;
    while i < |s| && InWord(k, s[i])
      invariant start <= i <= |s| && start + WordLen(k, s[start..]) == i + WordLen(k, s[i..])
    {
      assert s[i..][1..] == s[i + 1..];
      i := i + 1;
    }
  }

  method WhiteEnd(k: SaneClasses, s: string, start: nat) returns (i: nat)
    requires start <= |s|
    ensures i == start + SkipWhite(k, s[start..])
  {
    i := start;
    while i < |s| && k.white(s[i])
      invariant start <= i <= |s| && start + SkipWhite(k, s[start..]) == i + SkipWhite(k, s[i..])
    {
      assert s[i..][1..] == s[i + 1..];
      i := i + 1;
    }
  }

  /** To the end of the line, which stays. */
  method LineEnd(s: string, start: nat) returns (i: nat)
    requires start <= |s|
    ensures i == start + IndexOf(s[start..], '\n')
  {
    i := start;
    while i < |s| && s[i] != '\n'
      invariant start <= i <= |s| && start + IndexOf(s[start..], '\n') == i + IndexOf(s[i..], '\n')
    {
      assert s[i..][1..] == s[i + 1..];
      i := i + 1;
    }
  }

  method BlockEnd(s: string, start: nat) returns (i: nat)
    requires start + 2 <= |s|
    ensures i == start + BlockFrom(s[start..], 2)
  {
    i := start + 2;
    while i + 1 < |s|
      invariant start + 2 <= i <= |s| && BlockFrom(s[start..], 2) == BlockFrom(s[start..], i - start)
    {
      if s[i] == '*' && s[i + 1] == '/' {
        return i + 2;
      }
      i := i + 1;
    }
  }

  /** One past the quote that closes the string at `start`, or the end. */
  method StringEnd(s: string, start: nat) returns (i: nat)
    requires start < |s| && s[start] == '\''
    ensures i == start + StringLen(s[start..])
  {
    i := start + 1;
    assert s[start..][1..] == s[start + 1..];
    while i < |s|
      invariant start + 1 <= i <= |s|
      invariant start + 1 + IndexOf(s[start + 1..], '\'') == i + IndexOf(s[i..], '\'')
    {
      assert s[i..][1..] == s[i + 1..];
      var c := s[i];
      i := i + 1;
      if c == '\'' {
        return;
      }
    }
  }

  /** The word after blanks, read ahead from `i`. */
  method PeekWord(k: SaneClasses, s: string, i: nat, underscore: bool) returns (w: string)
    requires i <= |s|
    ensures w == NextWord(k, s[i..], underscore)
  {
    var j := WhiteEnd(k, s, i);
    assert s[i..][SkipWhite(k, s[i..])..] == s[j..];
    if j < |s| && (k.alpha(s[j]) || (underscore && s[j] == '_')) {
      var e := WordEnd(k, s, j);
      assert s[j..e] == s[j..][..e - j];
      return s[j..e];
    }
    w := "";
  }

  /** What a word does to the depth: BEGIN and END look at what follows them. */
  method Keyword(k: SaneClasses, s: string, word: string, i: nat, depth: nat) returns (d: nat)
    requires i <= |s|
    ensures d == DepthAfter(k, word, s[i..], depth)
  {
    d := depth;
    if k.upper(word) == "BEGIN" {
      var j := WhiteEnd(k, s, i);
      var isTransaction := j >= |s| || s[j] == ';';
      if !isTransaction && k.alpha(s[j]) {
        var w := PeekWord(k, s, i, false);
        isTransaction := k.upper(w) == "WORK";
      }
      if !isTransaction {
        d := depth + 1;
      }
    } else if k.upper(word) == "END" {
      var w := PeekWord(k, s, i, true);
      var nextIsSub := w != "" && k.upper(w) in {"IF", "WHILE", "LOOP", "REPEAT", "CASE"};
      if !nextIsSub && depth > 0 {
        d := depth - 1;
      }
    }
  }

  lemma {:induction false} FinishAppend(k: SaneClasses, a: seq<string>, b: seq<string>)
    ensures Finish(k, a + b) == Finish(k, a) + Finish(k, b)
  {
    if a == [] {
      assert a + b == b;
    } else {
      assert (a + b)[1..] == a[1..] + b;
      FinishAppend(k, a[1..], b);
    }
  }

  method Push(k: SaneClasses, queries: seq<string>, current: string) returns (more: seq<string>)
    ensures more == queries + Finish(k, [current])
  {
    var t := Trim(k, current);
    more := if t != "" then queries + [t] else queries;
  }

  /** One turn of the loop at `i`: how far the token gets, the depth after it and what it adds to the statement begun. */
  method Token(k: SaneClasses, s: string, i: nat, depth: nat, current: string) returns (next: nat, d: nat, cur: string)
    requires i < |s|
    ensures next == i + TokenLen(k, s[i..]) && d == NextDepth(k, s[i..], depth)
    ensures cur == if StartsComment(s[i..]) then current else current + s[i..i + TokenLen(k, s[i..])]
  {
    var t := s[i..];
    assert i + 1 < |s| ==> t[1] == s[i + 1];
    next, d, cur := i + 1, depth, current;
    if (s[i] == '-' && i + 1 < |s| && s[i + 1] == '-') || s[i] == '#' {
      next := LineEnd(s, i);
    } else if s[i] == '/' && i + 1 < |s| && s[i + 1] == '*' {
      next := BlockEnd(s, i);
    } else if s[i] == '\'' {
      next := StringEnd(s, i);
      cur := current + s[i..next];
    } else if StartsWord(k, s[i]) {
      next := WordEnd(k, s, i);
      assert s[i..next] == t[..next - i] && s[next..] == t[next - i..];
      d := Keyword(k, s, s[i..next], next, depth);
      cur := current + s[i..next];
    } else {
      cur := current + s[i..i + 1];
    }
  }

  lemma RawToken(k: SaneClasses, s: string, i: nat, depth: nat, cur: string)
    requires i < |s| && !(s[i] == ';' && depth == 0)
    ensures var t := s[i..]; var next := i + TokenLen(k, t);
      Raw(k, t, depth, cur) == Raw(k, s[next..], NextDepth(k, t, depth), if StartsComment(t) then cur else cur + s[i..next])
  {
    hide TokenLen, DepthAfter, StartsComment, StartsWord;
    var t := s[i..];
    var n := TokenLen(k, t);
    assert t != "" && t[0] == s[i];
    Suffix(s, i, n);
  }

  lemma Suffix(s: string, i: nat, n: nat)
    requires i + n <= |s|
    ensures s[i..][n..] == s[i + n..] && s[i..][..n] == s[i..i + n]
  {
  }

  lemma RawCut(k: SaneClasses, s: string, i: nat, cur: string)
    requires i < |s| && s[i] == ';'
    ensures Finish(k, Raw(k, s[i..], 0, cur)) == Finish(k, [cur]) + Finish(k, Raw(k, s[i + 1..], 0, ""))
  {
    assert s[i..][1..] == s[i + 1..];
    FinishAppend(k, [cur], Raw(k, s[i + 1..], 0, ""));
  }

  lemma RawEnd(k: SaneClasses, s: string, depth: nat, cur: string)
    ensures Raw(k, s[|s|..], depth, cur) == [cur]
  {
  }

  /** `split_queries_smart` */
  method SplitQueriesSmart(k: SaneClasses, s: string) returns (queries: seq<string>)
    ensures queries == Split(k, s)
  {
    hide Raw, Finish, TokenLen, NextDepth;
    queries := [];
    var current, depth: nat, i := "", 0, 0;
    assert s[0..] == s;
    ghost var left := Split(k, s);
    while i < |s|
      invariant i <= |s|
      invariant left == Finish(k, Raw(k, s[i..], depth, current)) && queries + left == Split(k, s)
    {
      if s[i] == ';' && depth == 0 {
        RawCut(k, s, i, current);
        left := Finish(k, Raw(k, s[i + 1..], 0, ""));
        Regroup(queries, Finish(k, [current]), left);
        queries := Push(k, queries, current);
        current := "";
        i := i + 1;
      } else {
        RawToken(k, s, i, depth, current);
        i, depth, current := Token(k, s, i, depth, current);
      }
    }
    RawEnd(k, s, depth, current);
    queries := Push(k, queries, current);
  }
}
