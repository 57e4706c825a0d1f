/** Where the splitter cuts, and that its output is stable. For texts with comments, exactly when it is. */
module StatementSplitFacts {
  import opened Common
  import opened StatementSplit

  /** No comment starts outside a string. */
  ghost predicate CommentFree(k: SaneClasses, s: string)
    decreases |s|
  {
    s == "" || (!StartsComment(s) && CommentFree(k, s[TokenLen(k, s)..]))
  }

  /** The string literal `s` starts with has its closing quote. */
  predicate Terminated(s: string)
  {
    s != "" && IndexOf(s[1..], '\'') < |s| - 1
  }

  /** Read from `depth` on, the text is not cut anywhere. */
  ghost predicate Uncut(k: SaneClasses, s: string, depth: nat)
    decreases |s|
  {
    s == "" || (!StartsComment(s) && !(s[0] == ';' && depth == 0) && Uncut(k, s[TokenLen(k, s)..], NextDepth(k, s, depth)))
  }

  /** Nor would it be by a semicolon of its own: it also ends outside strings with the counter at 0, so that a semicolon after it cuts. */
  ghost predicate Closed(k: SaneClasses, s: string, depth: nat)
    decreases |s|
  {
    if s == "" then depth == 0
    else
      && !StartsComment(s) && !(s[0] == ';' && depth == 0) && (s[0] == '\'' ==> Terminated(s))
      && Closed(k, s[TokenLen(k, s)..], NextDepth(k, s, depth))
  }

  // ---- what follows a token does not change it ----

  /** Text that no token before it runs into: a semicolon and anything, or one blank. */
  ghost predicate Breaks(k: SaneClasses, b: string)
  {
    b != "" && (b[0] == ';' || (|b| == 1 && k.white(b[0])))
  }

  lemma {:induction false} IndexInFront(a: string, b: string, c: char)
    requires IndexOf(a, c) < |a|
    ensures IndexOf(a + b, c) == IndexOf(a, c)
  {
    if a[0] != c {
      assert (a + b)[1..] == a[1..] + b;
      IndexInFront(a[1..], b, c);
    }
  }

  lemma {:induction false} WordBefore(k: SaneClasses, a: string, b: string)
    requires b != "" && !InWord(k, b[0])
    ensures WordLen(k, a + b) == WordLen(k, a)
  {
    if a == "" {
      assert a + b == b;
    } else {
      assert (a + b)[1..] == a[1..] + b;
      WordBefore(k, a[1..], b);
    }
  }

  lemma {:induction false} WhiteBefore(k: SaneClasses, a: string, b: string)
    ensures SkipWhite(k, a + b) == if SkipWhite(k, a) < |a| then SkipWhite(k, a) else |a| + SkipWhite(k, b)
  {
    if a == "" {
      assert a + b == b;
    } else {
      assert (a + b)[1..] == a[1..] + b;
      WhiteBefore(k, a[1..], b);
    }
  }

  lemma BreaksIsNoWord(k: SaneClasses, b: string)
    requires Breaks(k, b)
    ensures !InWord(k, b[0]) && b[0] != '-' && b[0] != '*' && b[0] != '\''
    ensures SkipWhite(k, b) == if b[0] == ';' then 0 else 1
  {
    assert IsSign('_') && IsSign(';') && IsSign('-') && IsSign('*') && IsSign('\'');
    if b[0] != ';' {
      assert b[1..] == "";
    }
  }

  lemma PeekBefore(k: SaneClasses, a: string, b: string, underscore: bool)
    requires Breaks(k, b)
    ensures NextWord(k, a + b, underscore) == NextWord(k, a, underscore)
    ensures IsTransaction(k, a + b) == IsTransaction(k, a)
    ensures NextIsSub(k, a + b) == NextIsSub(k, a)
  {
    PeekWordBefore(k, a, b, underscore);
    PeekWordBefore(k, a, b, true);
    PeekWordBefore(k, a, b, false);
    WhiteBefore(k, a, b);
    BreaksIsNoWord(k, b);
  }

  lemma PeekWordBefore(k: SaneClasses, a: string, b: string, underscore: bool)
    requires Breaks(k, b)
    ensures NextWord(k, a + b, underscore) == NextWord(k, a, underscore)
  {
    hide SkipWhite, WordLen;
    BreaksIsNoWord(k, b);
    WhiteBefore(k, a, b);
    var j := SkipWhite(k, a);
    var t := a[j..];
    if j < |a| {
      assert (a + b)[j..] == t + b;
      WordBefore(k, t, b);
      assert (t + b)[..WordLen(k, t)] == t[..WordLen(k, t)];
    } else if b[0] == ';' {
      assert (a + b)[j..] == b;
      assert IsSign(';') && !k.alpha(';');
    } else {
      assert (a + b)[|a + b|..] == "";
    }
  }

  /** A token is the same with breaking text behind it, unless it is a string still open. */
  lemma TokenBefore(k: SaneClasses, a: string, b: string, depth: nat)
    requires a != "" && Breaks(k, b) && !StartsComment(a) && (a[0] == '\'' ==> Terminated(a))
    ensures var n := TokenLen(k, a);
      && TokenLen(k, a + b) == n && NextDepth(k, a + b, depth) == NextDepth(k, a, depth)
      && (a + b)[n..] == a[n..] + b && (a + b)[..n] == a[..n]
    ensures !StartsComment(a + b)
  {
    CommentBefore(k, a, b);
    hide StartsComment, Breaks, DepthAfter;
    assert (a + b)[0] == a[0];
    if a[0] == '\'' {
      assert (a + b)[1..] == a[1..] + b;
      IndexInFront(a[1..], b, '\'');
    } else if StartsWord(k, a[0]) {
      KeywordBefore(k, a, b, depth);
    }
  }

  lemma KeywordBefore(k: SaneClasses, a: string, b: string, depth: nat)
    requires a != "" && Breaks(k, b)
    ensures var n := WordLen(k, a);
      && WordLen(k, a + b) == n && (a + b)[n..] == a[n..] + b && (a + b)[..n] == a[..n]
      && DepthAfter(k, (a + b)[..n], (a + b)[n..], depth) == DepthAfter(k, a[..n], a[n..], depth)
  {
    hide NextWord, IsTransaction, NextIsSub;
    BreaksIsNoWord(k, b);
    WordBefore(k, a, b);
    var n := WordLen(k, a);
    assert (a + b)[n..] == a[n..] + b && (a + b)[..n] == a[..n];
    PeekBefore(k, a[n..], b, true);
  }

  lemma CommentBefore(k: SaneClasses, a: string, b: string)
    requires a != "" && Breaks(k, b)
    ensures StartsComment(a + b) == StartsComment(a)
  {
    BreaksIsNoWord(k, b);
    assert (a + b)[0] == a[0];
    assert (a + b)[1] == if |a| > 1 then a[1] else b[0];
  }

  // ---- reading closed and uncut text ----

  lemma RawStep(k: SaneClasses, s: string, depth: nat, cur: string)
    requires s != "" && !StartsComment(s) && !(s[0] == ';' && depth == 0)
    ensures Raw(k, s, depth, cur) == Raw(k, s[TokenLen(k, s)..], NextDepth(k, s, depth), cur + s[..TokenLen(k, s)])
  {
    hide TokenLen, NextDepth, StartsComment;
  }

  /** After a closed text a semicolon cuts. */
  lemma {:induction false} ReadClosed(k: SaneClasses, a: string, rest: string, depth: nat, cur: string)
    requires Closed(k, a, depth)
    ensures Raw(k, a + (";" + rest), depth, cur) == [cur + a] + Raw(k, rest, 0, "")
    decreases |a|
  {
    hide TokenLen, NextDepth, StartsComment, Terminated;
    var b := ";" + rest;
    if a == "" {
      CutHere(k, rest, cur);
      assert a + b == b && cur + a == cur && depth == 0;
    } else {
      var n := TokenLen(k, a);
      TokenBefore(k, a, b, depth);
      RawStep(k, a + b, depth, cur);
      ReadClosed(k, a[n..], rest, NextDepth(k, a, depth), cur + a[..n]);
      assert cur + a[..n] + a[n..] == cur + a;
    }
  }

  lemma CutHere(k: SaneClasses, rest: string, cur: string)
    ensures Raw(k, ";" + rest, 0, cur) == [cur] + Raw(k, rest, 0, "")
  {
    assert (";" + rest)[1..] == rest;
  }

  lemma {:induction false} ReadUncut(k: SaneClasses, a: string, depth: nat, cur: string)
    requires Uncut(k, a, depth)
    ensures Raw(k, a, depth, cur) == [cur + a]
    decreases |a|
  {
    if a == "" {
      assert cur + a == cur;
    } else {
      var n := TokenLen(k, a);
      ReadUncut(k, a[n..], NextDepth(k, a, depth), cur + a[..n]);
      hide NextDepth, TokenLen;
      assert a == a[..n] + a[n..];
      Regroup(cur, a[..n], a[n..]);
    }
  }

  lemma {:induction false} ClosedIsUncut(k: SaneClasses, a: string, depth: nat)
    requires Closed(k, a, depth)
    ensures Uncut(k, a, depth)
    decreases |a|
  {
    if a != "" {
      ClosedIsUncut(k, a[TokenLen(k, a)..], NextDepth(k, a, depth));
    }
  }

  /** A text without comments either is not cut or starts with a closed text and the semicolon that cuts it off. */
  lemma {:induction false} FirstCut(k: SaneClasses, s: string, depth: nat) returns (cut: bool, a: string, rest: string)
    requires CommentFree(k, s)
    ensures !cut ==> Uncut(k, s, depth)
    ensures cut ==> s == a + (";" + rest) && Closed(k, a, depth) && CommentFree(k, rest)
    decreases |s|
  {
    if s == "" {
      cut, a, rest := false, "", "";
    } else if s[0] == ';' && depth == 0 {
      cut, a, rest := true, "", s[1..];
      SemicolonToken(k, s);
      assert s == "" + (";" + s[1..]);
    } else {
      var n := TokenLen(k, s);
      cut, a, rest := FirstCut(k, s[n..], NextDepth(k, s, depth));
      if cut {
        Prepend(k, s, n, a, ";" + rest, depth);
        a := s[..n] + a;
      }
    }
  }

  lemma SemicolonToken(k: SaneClasses, s: string)
    requires s != "" && s[0] == ';'
    ensures TokenLen(k, s) == 1
  {
    assert IsSign(';');
  }

  /** A token in front of a closed text makes a closed text. */
  lemma Prepend(k: SaneClasses, s: string, n: nat, a: string, b: string, depth: nat)
    requires s != "" && !StartsComment(s) && !(s[0] == ';' && depth == 0) && n == TokenLen(k, s)
    requires s[n..] == a + b && Breaks(k, b) && Closed(k, a, NextDepth(k, s, depth))
    ensures Closed(k, s[..n] + a, depth) && s == s[..n] + a + b
  {
    hide TokenLen, NextDepth, StartsComment, Terminated;
    var t := s[..n] + a;
    assert s == s[..n] + s[n..];
    assert s == t + b;
    TokenOfFront(k, s, n, t, b, depth);
    assert t[n..] == a;
  }

  /** A token that ends before breaking text is one without it. */
  lemma TokenOfFront(k: SaneClasses, s: string, n: nat, t: string, b: string, depth: nat)
    requires s != "" && !StartsComment(s) && n == TokenLen(k, s) <= |t| && s == t + b && Breaks(k, b)
    ensures !StartsComment(t) && (t[0] == '\'' ==> Terminated(t))
    ensures TokenLen(k, t) == n && NextDepth(k, t, depth) == NextDepth(k, s, depth)
  {
    CommentBefore(k, t, b);
    assert s[0] == t[0];
    if s[0] == '\'' {
      var m := IndexOf(s[1..], '\'');
      assert m + 2 == n;
      assert t[1..][m] == s[1..][m] == '\'';
      IndexOfAtMost(t[1..], '\'', m);
    }
    TokenBefore(k, t, b, depth);
  }

  lemma IndexOfAtMost(s: string, c: char, m: nat)
    requires m < |s| && s[m] == c
    ensures IndexOf(s, c) <= m
  {
  }

  // ---- the statements of a text ----

  function Join(ps: seq<string>): string
  {
    if ps == [] then "" else if |ps| == 1 then ps[0] else ps[0] + ";" + Join(ps[1..])
  }

  /** All but the last are closed, the last is not cut. */
  ghost predicate Statements(k: SaneClasses, ps: seq<string>)
  {
    if ps == [] then true
    else if |ps| == 1 then Uncut(k, ps[0], 0)
    else Closed(k, ps[0], 0) && Statements(k, ps[1..])
  }

  /** Nothing but the cutting semicolons is lost, and every statement but the last is closed. */
  lemma {:induction false} RawShape(k: SaneClasses, s: string)
    requires CommentFree(k, s)
    ensures Statements(k, Raw(k, s, 0, "")) && Join(Raw(k, s, 0, "")) == s
    decreases |s|
  {
    var cut, a, rest := FirstCut(k, s, 0);
    if cut {
      ReadClosed(k, a, rest, 0, "");
      RawShape(k, rest);
      assert a + ";" + rest == a + (";" + rest);
      var more := Raw(k, rest, 0, "");
      assert "" + a == a && ([a] + more)[1..] == more;
    } else {
      ReadUncut(k, s, 0, "");
      assert "" + s == s;
    }
  }

  /** Joined statements are read back as they are. */
  lemma {:induction false} RawOfJoined(k: SaneClasses, ps: seq<string>)
    requires ps != [] && Statements(k, ps)
    ensures Raw(k, Join(ps), 0, "") == ps
  {
    if |ps| == 1 {
      ReadUncut(k, ps[0], 0, "");
      assert "" + ps[0] == ps[0];
    } else {
      ReadClosed(k, ps[0], Join(ps[1..]), 0, "");
      assert ps[0] + ";" + Join(ps[1..]) == ps[0] + (";" + Join(ps[1..]));
      RawOfJoined(k, ps[1..]);
      assert "" + ps[0] == ps[0] && ps == [ps[0]] + ps[1..];
    }
  }

  // ---- trimming ----

  lemma BlankToken(k: SaneClasses, a: string, depth: nat)
    requires a != "" && k.white(a[0])
    ensures !StartsComment(a) && a[0] != '\'' && a[0] != ';' && TokenLen(k, a) == 1 && NextDepth(k, a, depth) == depth
  {
    assert IsSign('#') && IsSign('-') && IsSign('/') && IsSign('\'') && IsSign(';') && IsSign('_');
  }

  lemma {:induction false} TrimStartKeeps(k: SaneClasses, a: string)
    ensures Closed(k, a, 0) ==> Closed(k, TrimStart(k, a), 0)
    ensures Uncut(k, a, 0) ==> Uncut(k, TrimStart(k, a), 0)
  {
    if a != "" && k.white(a[0]) {
      BlankToken(k, a, 0);
      TrimStartKeeps(k, a[1..]);
      assert TrimStart(k, a) == TrimStart(k, a[1..]) by {
        assert a[1..][SkipWhite(k, a[1..])..] == a[1 + SkipWhite(k, a[1..])..];
      }
    } else {
      assert a[0..] == a;
    }
  }

  /** A blank behind a text, inside or outside a string, changes nothing of how the text is read. */
  lemma {:induction false} DropBlank(k: SaneClasses, a: string, w: string, depth: nat)
    requires |w| == 1 && k.white(w[0])
    ensures Closed(k, a + w, depth) ==> Closed(k, a, depth)
    ensures Uncut(k, a + w, depth) ==> Uncut(k, a, depth)
    decreases |a|
  {
    if a == "" {
      assert a + w == w && w[1..] == "";
      BlankToken(k, w, depth);
    } else if !StartsComment(a) {
      assert (a + w)[0] == a[0] && (a + w)[1..] == a[1..] + w;
      CommentBefore(k, a, w);
      if a[0] == '\'' && !Terminated(a) {
        OpenString(k, a, w);
      } else {
        TokenBefore(k, a, w, depth);
        DropBlank(k, a[TokenLen(k, a)..], w, NextDepth(k, a, depth));
      }
    } else {
      CommentBefore(k, a, w);
    }
  }

  lemma OpenString(k: SaneClasses, a: string, w: string)
    requires a != "" && a[0] == '\'' && !Terminated(a) && |w| == 1 && k.white(w[0])
    ensures !Terminated(a + w) && TokenLen(k, a) == |a| && a[|a|..] == ""
  {
    var t := (a + w)[1..];
    assert t == a[1..] + w;
    assert IsSign('\'');
    assert !StartsComment(a);
    forall i | 0 <= i < |t| ensures t[i] != '\'' {
      assert i < |a| - 1 ==> t[i] == a[1..][i];
    }
  }

  lemma {:induction false} TrimEndKeeps(k: SaneClasses, a: string)
    ensures Closed(k, a, 0) ==> Closed(k, TrimEnd(k, a), 0)
    ensures Uncut(k, a, 0) ==> Uncut(k, TrimEnd(k, a), 0)
  {
    if a != "" && k.white(a[|a| - 1]) {
      var b := a[..|a| - 1];
      assert a == b + [a[|a| - 1]];
      DropBlank(k, b, [a[|a| - 1]], 0);
      TrimEndKeeps(k, b);
    }
  }

  /** Neither end is a blank. */
  ghost predicate Trimmed(k: SaneClasses, s: string)
  {
    s != "" && !k.white(s[0]) && !k.white(s[|s| - 1])
  }

  lemma {:induction false} TrimEndIs(k: SaneClasses, s: string)
    ensures TrimEnd(k, s) <= s && (TrimEnd(k, s) != "" ==> !k.white(TrimEnd(k, s)[|TrimEnd(k, s)| - 1]))
  {
    if s != "" && k.white(s[|s| - 1]) {
      TrimEndIs(k, s[..|s| - 1]);
    }
  }

  lemma TrimIsTrimmed(k: SaneClasses, s: string)
    ensures Trim(k, s) == "" || Trimmed(k, Trim(k, s))
  {
    var t := TrimStart(k, s);
    TrimEndIs(k, t);
    assert t != "" ==> t[0] == s[SkipWhite(k, s)];
  }

  lemma TrimOfTrimmed(k: SaneClasses, s: string)
    requires Trimmed(k, s)
    ensures Trim(k, s) == s
  {
    assert SkipWhite(k, s) == 0;
    assert s[0..] == s;
  }

  // ---- main results ----

  /** For every text, comments or not: each statement is trimmed and not empty. */
  lemma {:induction false} OutputIsTrimmed(k: SaneClasses, ps: seq<string>)
    ensures forall i :: 0 <= i < |Finish(k, ps)| ==> Trimmed(k, Finish(k, ps)[i])
  {
    if ps != [] {
      TrimIsTrimmed(k, ps[0]);
      OutputIsTrimmed(k, ps[1..]);
    }
  }

  lemma {:induction false} FinishKeepsStatements(k: SaneClasses, ps: seq<string>)
    requires Statements(k, ps)
    ensures Statements(k, Finish(k, ps))
  {
    if ps != [] {
      var t, rest := Trim(k, ps[0]), Finish(k, ps[1..]);
      FinishKeepsStatements(k, ps[1..]);
      TrimStartKeeps(k, ps[0]);
      TrimEndKeeps(k, TrimStart(k, ps[0]));
      if |ps| > 1 {
        ClosedIsUncut(k, t, 0);
      }
      assert ([t] + rest)[1..] == rest;
      assert Finish(k, ps) == if t == "" then rest else [t] + rest;
    }
  }

  lemma {:induction false} FinishOfTrimmed(k: SaneClasses, ps: seq<string>)
    requires forall i :: 0 <= i < |ps| ==> Trimmed(k, ps[i])
    ensures Finish(k, ps) == ps
  {
    if ps != [] {
      TrimOfTrimmed(k, ps[0]);
      FinishOfTrimmed(k, ps[1..]);
      assert ps == [ps[0]] + ps[1..];
    }
  }

  /** Joining the statements with semicolons and splitting again gives the same statements; each by itself is one statement. */
  lemma SplitAgain(k: SaneClasses, s: string)
    requires CommentFree(k, s)
    ensures Split(k, Join(Split(k, s))) == Split(k, s)
  {
    var qs, ps := Split(k, s), Raw(k, s, 0, "");
    RawShape(k, s);
    FinishKeepsStatements(k, ps);
    OutputIsTrimmed(k, ps);
    hide Raw, Finish, Statements, Join;
    if qs == [] {
      SplitOfNothing(k);
    } else {
      RawOfJoined(k, qs);
      FinishOfTrimmed(k, qs);
    }
  }

  lemma SplitOfNothing(k: SaneClasses)
    ensures Join([]) == "" && Split(k, "") == []
  {
    assert TrimStart(k, "") == "" && Trim(k, "") == "";
    assert [""][1..] == [];
    assert Raw(k, "", 0, "") == [""] && Finish(k, [""]) == [];
  }

  lemma OneStatement(k: SaneClasses, q: string)
    requires Trimmed(k, q) && Uncut(k, q, 0)
    ensures Split(k, q) == [q]
  {
    ReadUncut(k, q, 0, "");
    assert "" + q == q;
    FinishOfTrimmed(k, [q]);
  }

  lemma {:induction false} StatementsAreUncut(k: SaneClasses, ps: seq<string>, i: nat)
    requires Statements(k, ps) && i < |ps|
    ensures Uncut(k, ps[i], 0)
  {
    if |ps| > 1 {
      ClosedIsUncut(k, ps[0], 0);
    }
    if i > 0 {
      StatementsAreUncut(k, ps[1..], i - 1);
    }
  }

  /** Each statement by itself is one statement: no semicolon inside it would cut it. */
  lemma EachIsOne(k: SaneClasses, s: string, i: nat)
    requires CommentFree(k, s) && i < |Split(k, s)|
    ensures Split(k, Split(k, s)[i]) == [Split(k, s)[i]]
  {
    RawShape(k, s);
    FinishKeepsStatements(k, Raw(k, s, 0, ""));
    OutputIsTrimmed(k, Raw(k, s, 0, ""));
    StatementsAreUncut(k, Split(k, s), i);
    OneStatement(k, Split(k, s)[i]);
  }

  // ---- with or without comments ----

  function Size(ps: seq<string>): nat { if ps == [] then 0 else |ps[0]| + Size(ps[1..]) }

  /** Every cut costs a semicolon, every comment its characters: what is left is as long as the text only when there is no comment. */
  lemma {:induction false} RawSize(k: SaneClasses, s: string, depth: nat, cur: string)
    ensures var ps := Raw(k, s, depth, cur);
      Size(ps) + |ps| <= |cur| + |s| + 1 && (Size(ps) + |ps| == |cur| + |s| + 1 ==> CommentFree(k, s))
    decreases |s|
  {
    if s != "" {
      hide NextDepth, StartsComment;
      var n := TokenLen(k, s);
      if StartsComment(s) {
        RawSize(k, s[n..], depth, cur);
      } else if s[0] == ';' && depth == 0 {
        SemicolonToken(k, s);
        RawSize(k, s[1..], 0, "");
        assert ([cur] + Raw(k, s[1..], 0, ""))[1..] == Raw(k, s[1..], 0, "");
      } else {
        RawSize(k, s[n..], NextDepth(k, s, depth), cur + s[..n]);
      }
    }
  }

  lemma TrimSize(k: SaneClasses, s: string)
    ensures |Trim(k, s)| <= |s| && (|Trim(k, s)| == |s| ==> Trim(k, s) == s)
  {
    TrimEndIs(k, TrimStart(k, s));
  }

  lemma SizeOfMore(p: string, ps: seq<string>)
    ensures Size([p] + ps) == |p| + Size(ps)
  {
    assert ([p] + ps)[1..] == ps;
  }

  lemma {:induction false} FinishSize(k: SaneClasses, ps: seq<string>)
    ensures var qs := Finish(k, ps);
      |qs| <= |ps| && Size(qs) <= Size(ps) && (|qs| == |ps| && Size(qs) == Size(ps) ==> qs == ps)
  {
    if ps != [] {
      hide Trim, Size;
      var t, rest := Trim(k, ps[0]), Finish(k, ps[1..]);
      assert Finish(k, ps) == if t != "" then [t] + rest else rest;
      hide Finish;
      assert ps == [ps[0]] + ps[1..];
      TrimSize(k, ps[0]);
      FinishSize(k, ps[1..]);
      SizeOfMore(ps[0], ps[1..]);
      SizeOfMore(t, rest);
    }
  }

  lemma {:induction false} JoinSize(ps: seq<string>)
    requires ps != []
    ensures |Join(ps)| + 1 == Size(ps) + |ps|
  {
    if |ps| == 1 {
      assert Size(ps[1..]) == 0;
    } else {
      JoinSize(ps[1..]);
    }
  }

  /** Trimmed texts joined with semicolons are read back exactly when all but the last are closed and the last is not cut. */
  lemma ReadBackExactly(k: SaneClasses, ps: seq<string>)
    requires forall i :: 0 <= i < |ps| ==> Trimmed(k, ps[i])
    ensures Split(k, Join(ps)) == ps <==> Statements(k, ps)
  {
    hide Raw, Finish, Join, Trimmed, Size;
    if ps == [] {
      SplitOfNothing(k);
      return;
    }
    if Statements(k, ps) {
      RawOfJoined(k, ps);
      FinishOfTrimmed(k, ps);
    }
    var s := Join(ps);
    var raw := Raw(k, s, 0, "");
    if Finish(k, raw) == ps {
      JoinSize(ps);
      FinishSize(k, raw);
      RawSize(k, s, 0, "");
      RawShape(k, s);
    }
  }

  /** For every text, comments or not: its statements, joined and split again, are the same exactly when all but the last are closed and the last is not cut. */
  lemma SplitAgainExactly(k: SaneClasses, s: string)
    ensures Split(k, Join(Split(k, s))) == Split(k, s) <==> Statements(k, Split(k, s))
  {
    OutputIsTrimmed(k, Raw(k, s, 0, ""));
    ReadBackExactly(k, Split(k, s));
  }

  /** And each is one statement by itself exactly when it is not cut. */
  lemma EachIsOneExactly(k: SaneClasses, s: string, i: nat)
    requires i < |Split(k, s)|
    ensures Split(k, Split(k, s)[i]) == [Split(k, s)[i]] <==> Uncut(k, Split(k, s)[i], 0)
  {
    OutputIsTrimmed(k, Raw(k, s, 0, ""));
    ReadBackExactly(k, [Split(k, s)[i]]);
  }

  // ---- where it cuts ----

  function Quotes(s: string): nat
  {
    if s == "" then 0 else (if s[0] == '\'' then 1 else 0) + Quotes(s[1..])
  }

  /** The counter of the splitter after reading all of `s`: what it takes for the nesting of bodies. */
  function EndDepth(k: SaneClasses, s: string, depth: nat): nat
    decreases |s|
  {
    if s == "" then depth else EndDepth(k, s[TokenLen(k, s)..], NextDepth(k, s, depth))
  }

  /** The semicolon at `p` is one that separates two of the statements. */
  ghost predicate IsCut(ps: seq<string>, p: int)
  {
    |ps| > 1 && (p == |ps[0]| || IsCut(ps[1..], p - |ps[0]| - 1))
  }

  lemma {:induction false} QuotesAppend(a: string, b: string)
    ensures Quotes(a + b) == Quotes(a) + Quotes(b)
  {
    if a == "" {
      assert a + b == b;
    } else {
      assert (a + b)[1..] == a[1..] + b;
      QuotesAppend(a[1..], b);
    }
  }

  lemma {:induction false} NoQuotes(s: string)
    requires forall i :: 0 <= i < |s| ==> s[i] != '\''
    ensures Quotes(s) == 0
  {
    if s != "" {
      NoQuotes(s[1..]);
    }
  }

  /** A token has no quote, or two: those of a closed string. */
  lemma TokenQuotes(k: SaneClasses, s: string)
    requires s != "" && !StartsComment(s) && (s[0] == '\'' ==> Terminated(s))
    ensures Quotes(s[..TokenLen(k, s)]) == if s[0] == '\'' then 2 else 0
  {
    var n := TokenLen(k, s);
    assert IsSign('\'');
    if s[0] == '\'' {
      var m := IndexOf(s[1..], '\'');
      var inside := s[1..m + 1];
      assert s[..n] == "'" + inside + "'";
      forall i | 0 <= i < |inside| ensures inside[i] != '\'' {
        assert inside[i] == s[1..][i];
      }
      NoQuotes(inside);
      QuotesAppend("'", inside);
      QuotesAppend("'" + inside, "'");
      assert "'"[1..] == "";
    } else {
      NoQuotes(s[..n]);
    }
  }

  /** A closed text ends outside strings and with the counter at 0. */
  lemma {:induction false} ClosedEnds(k: SaneClasses, a: string, depth: nat)
    requires Closed(k, a, depth)
    ensures Quotes(a) % 2 == 0 && EndDepth(k, a, depth) == 0
    decreases |a|
  {
    hide TokenLen, NextDepth, StartsComment, Terminated;
    if a != "" {
      var n := TokenLen(k, a);
      TokenQuotes(k, a);
      QuotesAppend(a[..n], a[n..]);
      assert a[..n] + a[n..] == a;
      ClosedEnds(k, a[n..], NextDepth(k, a, depth));
    }
  }

  /** Reading on after a closed text and its semicolon starts afresh. */
  lemma {:induction false} EndDepthAfter(k: SaneClasses, a: string, rest: string, depth: nat)
    requires Closed(k, a, depth)
    ensures EndDepth(k, a + (";" + rest), depth) == EndDepth(k, rest, 0)
    decreases |a|
  {
    hide TokenLen, NextDepth, StartsComment, Terminated;
    var b := ";" + rest;
    if a == "" {
      assert a + b == b;
      PassSemicolon(k, rest, depth);
    } else {
      TokenBefore(k, a, b, depth);
      EndDepthAfter(k, a[TokenLen(k, a)..], rest, NextDepth(k, a, depth));
    }
  }

  lemma PassSemicolon(k: SaneClasses, rest: string, depth: nat)
    ensures EndDepth(k, ";" + rest, depth) == EndDepth(k, rest, depth)
  {
    assert IsSign(';');
    assert (";" + rest)[1..] == rest;
  }

  /** In a text that is not cut, the counter is not 0 at a semicolon outside strings. */
  lemma {:induction false} UncutSemicolon(k: SaneClasses, x: string, y: string, depth: nat)
    requires Uncut(k, x + (";" + y), depth) && Quotes(x) % 2 == 0
    ensures EndDepth(k, x, depth) > 0
    decreases |x|
  {
    hide TokenLen, NextDepth, StartsComment, Terminated;
    var b := ";" + y;
    if x == "" {
      assert x + b == b;
    } else {
      CommentBefore(k, x, b);
      assert (x + b)[0] == x[0];
      if x[0] == '\'' && !Terminated(x) {
        OddWhenOpen(k, x);
      }
      TokenBefore(k, x, b, depth);
      TokenQuotes(k, x);
      var n := TokenLen(k, x);
      QuotesAppend(x[..n], x[n..]);
      assert x[..n] + x[n..] == x;
      UncutSemicolon(k, x[n..], y, NextDepth(k, x, depth));
    }
  }

  lemma OddWhenOpen(k: SaneClasses, x: string)
    requires x != "" && x[0] == '\'' && !Terminated(x)
    ensures Quotes(x) == 1
  {
    assert forall i :: 0 <= i < |x[1..]| ==> x[1..][i] != '\'';
    NoQuotes(x[1..]);
  }

  /** The splitter cuts at a semicolon exactly when an even number of quotes stands before it and the counter is 0 there. */
  lemma {:induction false} CutsExactly(k: SaneClasses, ps: seq<string>, p: nat)
    requires ps != [] && Statements(k, ps) && p < |Join(ps)| && Join(ps)[p] == ';'
    ensures IsCut(ps, p) <==> Quotes(Join(ps)[..p]) % 2 == 0 && EndDepth(k, Join(ps)[..p], 0) == 0
    decreases |ps|
  {
    hide Closed, Uncut, EndDepth, Quotes;
    var a, x := ps[0], Join(ps)[..p];
    if |ps| == 1 || p < |a| {
      assert a == x + (";" + a[p + 1..]);
      NotCutInFirst(k, ps, x, a[p + 1..]);
    } else if p == |a| {
      ClosedEnds(k, a, 0);
      assert x == a;
    } else {
      var rest := Join(ps[1..]);
      var q: nat := p - |a| - 1;
      var x' := rest[..q];
      assert rest[q] == Join(ps)[p];
      assert x == a + (";" + x');
      BehindFirst(k, a, x');
      CutsExactly(k, ps[1..], q);
    }
  }

  lemma NotCutInFirst(k: SaneClasses, ps: seq<string>, x: string, y: string)
    requires ps != [] && Statements(k, ps) && ps[0] == x + (";" + y)
    ensures !IsCut(ps, |x|) && !(Quotes(x) % 2 == 0 && EndDepth(k, x, 0) == 0)
  {
    if |ps| > 1 {
      ClosedIsUncut(k, ps[0], 0);
    }
    if Quotes(x) % 2 == 0 {
      UncutSemicolon(k, x, y, 0);
    }
    NoCutBefore(ps, |x|);
  }

  lemma BehindFirst(k: SaneClasses, a: string, x: string)
    requires Closed(k, a, 0)
    ensures Quotes(a + (";" + x)) % 2 == Quotes(x) % 2
    ensures EndDepth(k, a + (";" + x), 0) == EndDepth(k, x, 0)
  {
    hide Closed, EndDepth, Quotes;
    ClosedEnds(k, a, 0);
    QuotesAppend(a, ";" + x);
    QuotesAppend(";", x);
    SemicolonHasNoQuote();
    EndDepthAfter(k, a, x, 0);
  }

  lemma SemicolonHasNoQuote()
    ensures Quotes(";") == 0
  {
    assert ";"[1..] == "";
  }

  lemma {:induction false} NoCutBefore(ps: seq<string>, p: int)
    requires ps != [] && p < |ps[0]|
    ensures !IsCut(ps, p)
  {
    if |ps| > 1 {
      NoCutBelow(ps[1..], p - |ps[0]| - 1);
    }
  }

  lemma {:induction false} NoCutBelow(ps: seq<string>, p: int)
    requires p < 0
    ensures !IsCut(ps, p)
  {
    if |ps| > 1 {
      NoCutBelow(ps[1..], p - |ps[0]| - 1);
    }
  }

  /** For a text without comments: a semicolon cuts exactly when it stands outside strings and the counter of the splitter is 0 there. */
  lemma CutsOfText(k: SaneClasses, s: string, p: nat)
    requires CommentFree(k, s) && p < |s| && s[p] == ';'
    ensures IsCut(Raw(k, s, 0, ""), p) <==> Quotes(s[..p]) % 2 == 0 && EndDepth(k, s[..p], 0) == 0
    ensures Join(Raw(k, s, 0, "")) == s
  {
    RawShape(k, s);
    CutsExactly(k, Raw(k, s, 0, ""), p);
  }

  // ---- with comments ----

  /** With comments splitting again can give something else: what stood around a comment comes together and starts another. */
  lemma CommentsCanBreakIt(k: SaneClasses)
    ensures Split(k, "*-/**/-*") == ["*--*"] && Split(k, Join(["*--*"])) == ["*"]
  {
    AroundComment(k);
    NewComment(k);
    assert IsSign('*');
    hide Raw;
    FinishOfTrimmed(k, ["*--*"]);
    FinishOfTrimmed(k, ["*"]);
  }

  lemma AroundComment(k: SaneClasses)
    ensures Raw(k, "*-/**/-*", 0, "") == ["*--*"]
  {
    hide Raw;
    CommentStep(k);
    RawEnd(k, "*--*");
    SignStep(k, "*-/**/-*", '*', "-/**/-*", "", "*");
    SignStep(k, "-/**/-*", '-', "/**/-*", "*", "*-");
    SignStep(k, "-*", '-', "*", "*-", "*--");
    SignStep(k, "*", '*', "", "*--", "*--*");
  }

  lemma RawEnd(k: SaneClasses, cur: string)
    ensures Raw(k, "", 0, cur) == [cur]
  {
  }

  lemma CommentStep(k: SaneClasses)
    ensures Raw(k, "/**/-*", 0, "*-") == Raw(k, "-*", 0, "*-")
  {
    assert BlockFrom("/**/-*", 2) == 4 && "/**/-*"[4..] == "-*";
  }

  lemma NewComment(k: SaneClasses)
    ensures Raw(k, "*--*", 0, "") == ["*"]
  {
    LineStep(k);
    hide Raw;
    SignStep(k, "*--*", '*', "--*", "", "*");
  }

  lemma LineStep(k: SaneClasses)
    ensures Raw(k, "--*", 0, "*") == ["*"]
  {
    assert IndexOf("--*", '\n') == 3 && "--*"[3..] == "";
  }

  lemma SignStep(k: SaneClasses, s: string, c: char, rest: string, cur: string, next: string)
    requires c in {'*', '-'} && s == [c] + rest && !StartsComment(s) && next == cur + [c]
    ensures Raw(k, s, 0, cur) == Raw(k, rest, 0, next)
  {
    assert IsSign(c) && IsSign('_');
    assert s[1..] == rest && s[..1] == [c];
  }
}
