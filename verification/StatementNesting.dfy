/** Bodies as SQL nests them, held against the counter of the splitter: where a semicolon should end a statement and where it does. For texts without comments. */
module StatementNesting {
  import opened Common
  import opened StatementSplit
  import opened StatementSplitFacts

  // ---- the words of a text ----

  /** What of a text matters for its nesting: its words and its semicolons outside strings. */
  datatype Item = Word(text: string) | Semicolon | Other

  function ItemOf(k: SaneClasses, s: string): Item
    requires s != ""
  {
    if s[0] == ';' then Semicolon
    else if s[0] != '\'' && !StartsComment(s) && StartsWord(k, s[0]) then Word(s[..WordLen(k, s)])
    else Other
  }

  function Items(k: SaneClasses, s: string): seq<Item>
    decreases |s|
  {
    if s == "" then [] else (if k.white(s[0]) then [] else [ItemOf(k, s)]) + Items(k, s[TokenLen(k, s)..])
  }

  predicate Is(k: SaneClasses, t: Item, keyword: string) { t.Word? && k.upper(t.text) == keyword }

  /** A BEGIN before these begins a transaction and no body. */
  predicate EndsOrWork(k: SaneClasses, rest: seq<Item>)
  {
    rest == [] || rest[0].Semicolon? || (Is(k, rest[0], "WORK") && rest[0].text != "" && k.alpha(rest[0].text[0]))
  }

  predicate NextIs(k: SaneClasses, rest: seq<Item>, keywords: set<string>) { rest != [] && rest[0].Word? && k.upper(rest[0].text) in keywords }

  const SUBS := {"IF", "WHILE", "LOOP", "REPEAT", "CASE"}

  predicate OpensBody(k: SaneClasses, t: Item, rest: seq<Item>) { Is(k, t, "BEGIN") && !EndsOrWork(k, rest) }

  predicate PlainEnd(k: SaneClasses, t: Item, rest: seq<Item>) { Is(k, t, "END") && !NextIs(k, rest, SUBS) }

  // ---- nesting ----

  datatype Open = Body | Case

  /** What is open after the first `i` items, the innermost first. BEGIN and CASE open; END closes the innermost; END CASE closes a CASE statement, END IF and
      the like close nothing that is counted here; a semicolon outside all bodies ends the statement. The words in `names` are names of something. */
  function Nest(k: SaneClasses, ts: seq<Item>, names: set<nat>, i: nat): seq<Open>
    requires i <= |ts|
  {
    if i == 0 then []
    else
      var open, t, rest := Nest(k, ts, names, i - 1), ts[i - 1], ts[i..];
      if i - 1 in names then open
      else if OpensBody(k, t, rest) then [Body] + open
      else if Is(k, t, "CASE") then if i > 1 && Is(k, ts[i - 2], "END") && i - 2 !in names then open else [Case] + open
      else if Is(k, t, "END") then
        if NextIs(k, rest, {"CASE"}) then if open != [] && open[0] == Case then open[1..] else open
        else if NextIs(k, rest, SUBS) || open == [] then open
        else open[1..]
      else if t.Semicolon? && Bodies(open) == 0 then []
      else open
  }

  function Bodies(open: seq<Open>): nat { if open == [] then 0 else (if open[0] == Body then 1 else 0) + Bodies(open[1..]) }

  lemma BodiesFirst(o: Open, open: seq<Open>)
    ensures Bodies([o] + open) == (if o == Body then 1 else 0) + Bodies(open)
  {
    assert ([o] + open)[1..] == open;
  }

  /** The counter of the splitter after the first `i` items: it knows no CASE and no names. */
  function Counter(k: SaneClasses, ts: seq<Item>, i: nat): nat
    requires i <= |ts|
  {
    if i == 0 then 0 else Counted(k, ts[i - 1], ts[i..], Counter(k, ts, i - 1))
  }

  function Counted(k: SaneClasses, t: Item, rest: seq<Item>, d: nat): nat
  {
    if OpensBody(k, t, rest) then d + 1 else if PlainEnd(k, t, rest) && d > 0 then d - 1 else d
  }

  // ---- exactly when the counter is the nesting ----

  /** The counter takes the word for what it is not: a BEGIN that is a name, or, inside a body, an END that is a name or closes a CASE expression. */
  predicate Misread(k: SaneClasses, ts: seq<Item>, names: set<nat>, i: nat)
    requires i < |ts|
  {
    (OpensBody(k, ts[i], ts[i + 1..]) && i in names) || LostEnd(k, ts, names, i)
  }

  predicate LostEnd(k: SaneClasses, ts: seq<Item>, names: set<nat>, i: nat)
    requires i < |ts|
  {
    var open := Nest(k, ts, names, i);
    PlainEnd(k, ts[i], ts[i + 1..]) && Bodies(open) > 0 && (i in names || open[0] == Case)
  }

  /** What a word does to the number of bodies. */
  lemma NestStep(k: SaneClasses, ts: seq<Item>, names: set<nat>, i: nat)
    requires i < |ts|
    ensures var t, rest, was, now := ts[i], ts[i + 1..], Bodies(Nest(k, ts, names, i)), Bodies(Nest(k, ts, names, i + 1));
      && (OpensBody(k, t, rest) ==> now == if i in names then was else was + 1)
      && (PlainEnd(k, t, rest) ==> now == if was > 0 && !LostEnd(k, ts, names, i) then was - 1 else was)
      && (!OpensBody(k, t, rest) && !PlainEnd(k, t, rest) ==> now == was)
      && (LostEnd(k, ts, names, i) ==> PlainEnd(k, t, rest) && was > 0)
  {
    var open := Nest(k, ts, names, i);
    BodiesFirst(Body, open);
    BodiesFirst(Case, open);
    if open != [] {
      assert open == [open[0]] + open[1..];
      BodiesFirst(open[0], open[1..]);
    }
  }

  ghost predicate Agree(k: SaneClasses, ts: seq<Item>, names: set<nat>, i: nat)
    requires i <= |ts|
  {
    Counter(k, ts, i) == Bodies(Nest(k, ts, names, i))
  }

  lemma {:induction false} AgreeUpTo(k: SaneClasses, ts: seq<Item>, names: set<nat>, n: nat)
    requires n <= |ts|
    ensures (forall i :: 0 <= i <= n ==> Agree(k, ts, names, i)) <==> forall i :: 0 <= i < n ==> !Misread(k, ts, names, i)
  {
    if n > 0 {
      AgreeUpTo(k, ts, names, n - 1);
      if Agree(k, ts, names, n - 1) {
        AgreeStep(k, ts, names, n - 1);
      }
      assert (forall i :: 0 <= i <= n ==> Agree(k, ts, names, i)) <==> (forall i :: 0 <= i <= n - 1 ==> Agree(k, ts, names, i)) && Agree(k, ts, names, n);
      assert (forall i :: 0 <= i < n ==> !Misread(k, ts, names, i)) <==>
             (forall i :: 0 <= i < n - 1 ==> !Misread(k, ts, names, i)) && !Misread(k, ts, names, n - 1);
    }
  }

  lemma AgreeStep(k: SaneClasses, ts: seq<Item>, names: set<nat>, i: nat)
    requires i < |ts| && Agree(k, ts, names, i)
    ensures Agree(k, ts, names, i + 1) <==> !Misread(k, ts, names, i)
  {
    NestStep(k, ts, names, i);
    NeverBoth(k, ts[i], ts[i + 1..]);
    hide Nest, Bodies, OpensBody, PlainEnd;
  }

  lemma NeverBoth(k: SaneClasses, t: Item, rest: seq<Item>)
    ensures !(OpensBody(k, t, rest) && PlainEnd(k, t, rest))
  {
  }

  /** For every text and whatever words in it are names: the counter is the nesting of bodies everywhere exactly when no BEGIN that is a name opens and no END
      that is a name or closes a CASE expression stands in a body. */
  lemma AgreeEverywhere(k: SaneClasses, ts: seq<Item>, names: set<nat>)
    ensures (forall i :: 0 <= i <= |ts| ==> Agree(k, ts, names, i)) <==> forall i :: 0 <= i < |ts| ==> !Misread(k, ts, names, i)
  {
    AgreeUpTo(k, ts, names, |ts|);
  }

  // ---- exactly when it is at the semicolons ----

  /** In the same outermost body an END was lost before. */
  ghost predicate Behind(k: SaneClasses, ts: seq<Item>, names: set<nat>, i: nat)
    requires i <= |ts|
  {
    exists j :: 0 <= j < i && LostEnd(k, ts, names, j) && InBodies(k, ts, names, j, i)
  }

  ghost predicate InBodies(k: SaneClasses, ts: seq<Item>, names: set<nat>, j: nat, i: nat)
    requires j <= i <= |ts|
  {
    forall m :: j < m <= i ==> Bodies(Nest(k, ts, names, m)) > 0
  }

  lemma BehindStep(k: SaneClasses, ts: seq<Item>, names: set<nat>, i: nat)
    requires i < |ts|
    ensures Behind(k, ts, names, i + 1) <==> Bodies(Nest(k, ts, names, i + 1)) > 0 && (Behind(k, ts, names, i) || LostEnd(k, ts, names, i))
  {
    hide LostEnd, Nest, Bodies;
    if Behind(k, ts, names, i) && Bodies(Nest(k, ts, names, i + 1)) > 0 {
      var j :| 0 <= j < i && LostEnd(k, ts, names, j) && InBodies(k, ts, names, j, i);
      assert InBodies(k, ts, names, j, i + 1);
    }
    if LostEnd(k, ts, names, i) && Bodies(Nest(k, ts, names, i + 1)) > 0 {
      assert InBodies(k, ts, names, i, i + 1);
    }
    if Behind(k, ts, names, i + 1) {
      var j :| 0 <= j < i + 1 && LostEnd(k, ts, names, j) && InBodies(k, ts, names, j, i + 1);
      assert j < i ==> InBodies(k, ts, names, j, i);
    }
  }

  ghost predicate NoNamedBegin(k: SaneClasses, ts: seq<Item>, names: set<nat>)
  {
    forall i :: 0 <= i < |ts| && OpensBody(k, ts[i], ts[i + 1..]) ==> i !in names
  }

  lemma BehindByOne(opens: bool, ends: bool, lost: bool, was: nat, now: nat, counted: nat, next: nat, behind: bool)
    requires !(opens && ends) && (lost ==> ends && was > 0)
    requires now == if opens then was + 1 else if ends && was > 0 && !lost then was - 1 else was
    requires next == if opens then counted + 1 else if ends && counted > 0 then counted - 1 else counted
    requires counted <= was && (counted == was <==> !behind)
    ensures next <= now && (next == now <==> !(now > 0 && (behind || lost)))
  {
  }

  lemma {:induction false} NeverAbove(k: SaneClasses, ts: seq<Item>, names: set<nat>, i: nat)
    requires i <= |ts| && NoNamedBegin(k, ts, names)
    ensures Counter(k, ts, i) <= Bodies(Nest(k, ts, names, i)) && (Agree(k, ts, names, i) <==> !Behind(k, ts, names, i))
  {
    if i == 0 {
      assert Bodies([]) == 0;
    } else {
      var m := i - 1;
      var t, rest := ts[m], ts[m + 1..];
      NeverAbove(k, ts, names, m);
      BehindStep(k, ts, names, m);
      NestStep(k, ts, names, m);
      NeverBoth(k, t, rest);
      hide Nest, Bodies, OpensBody, PlainEnd, LostEnd, Behind;
      BehindByOne(OpensBody(k, t, rest), PlainEnd(k, t, rest), LostEnd(k, ts, names, m), Bodies(Nest(k, ts, names, m)), Bodies(Nest(k, ts, names, i)),
                  Counter(k, ts, m), Counter(k, ts, i), Behind(k, ts, names, m));
    }
  }

  /** Where no BEGIN is a name: the counter is the nesting at every semicolon exactly when no semicolon stands in a body in which an END was lost before. */
  lemma AgreeAtSemicolons(k: SaneClasses, ts: seq<Item>, names: set<nat>)
    requires NoNamedBegin(k, ts, names)
    ensures (forall i :: 0 <= i < |ts| && ts[i].Semicolon? ==> Agree(k, ts, names, i)) <==>
            forall i :: 0 <= i < |ts| && ts[i].Semicolon? ==> !Behind(k, ts, names, i)
  {
    hide Agree, Behind;
    forall i | 0 <= i < |ts| ensures Agree(k, ts, names, i) <==> !Behind(k, ts, names, i) {
      NeverAbove(k, ts, names, i);
    }
  }

  // ---- the counter over the words is the one of the splitter ----

  /** What follows the blanks of a text is its first item. */
  lemma {:induction false} FirstItem(k: SaneClasses, s: string)
    ensures var j := SkipWhite(k, s);
      if j == |s| then Items(k, s) == [] else Items(k, s) != [] && Items(k, s)[0] == ItemOf(k, s[j..])
  {
    if s != "" && k.white(s[0]) {
      BlankToken(k, s, 0);
      FirstItem(k, s[1..]);
      assert SkipWhite(k, s) < |s| ==> s[1..][SkipWhite(k, s[1..])..] == s[SkipWhite(k, s)..];
    } else {
      assert s[0..] == s;
    }
  }

  lemma Letter(k: SaneClasses, s: string)
    requires s != "" && (k.alpha(s[0]) || s[0] == '_')
    ensures ItemOf(k, s) == Word(s[..WordLen(k, s)]) && WordLen(k, s) > 0
  {
    assert IsSign('#') && IsSign('-') && IsSign('/') && IsSign('\'') && IsSign(';');
  }

  lemma PeekIs(k: SaneClasses, s: string)
    ensures IsTransaction(k, s) == EndsOrWork(k, Items(k, s)) && NextIsSub(k, s) == NextIs(k, Items(k, s), SUBS)
  {
    hide Items, WordLen;
    FirstItem(k, s);
    var j := SkipWhite(k, s);
    var t := s[j..];
    if j < |s| && (k.alpha(t[0]) || t[0] == '_') {
      Letter(k, t);
      assert IsSign(';') && t[..WordLen(k, t)][0] == t[0];
    } else if j < |s| {
      assert !ItemOf(k, t).Word?;
    }
  }

  /** The counter moves with a token as with its item. */
  lemma DepthIs(k: SaneClasses, s: string, depth: nat)
    requires s != "" && !StartsComment(s)
    ensures NextDepth(k, s, depth) == if k.white(s[0]) then depth else Counted(k, ItemOf(k, s), Items(k, s[TokenLen(k, s)..]), depth)
  {
    if k.white(s[0]) {
      BlankToken(k, s, depth);
    } else if s[0] != '\'' && StartsWord(k, s[0]) {
      Letter(k, s);
      PeekIs(k, s[WordLen(k, s)..]);
    }
  }

  lemma {:induction false} DepthIsCounter(k: SaneClasses, s: string, ts: seq<Item>, i: nat)
    requires CommentFree(k, s) && i <= |ts| && Items(k, s) == ts[i..]
    ensures EndDepth(k, s, Counter(k, ts, i)) == Counter(k, ts, |ts|)
    decreases |s|
  {
    hide TokenLen, NextDepth, StartsComment, ItemOf, Counted;
    if s != "" {
      DepthIs(k, s, Counter(k, ts, i));
      var rest := s[TokenLen(k, s)..];
      if k.white(s[0]) {
        DepthIsCounter(k, rest, ts, i);
      } else {
        assert ts[i..][0] == ItemOf(k, s) && ts[i + 1..] == ts[i..][1..] == Items(k, rest);
        DepthIsCounter(k, rest, ts, i + 1);
      }
    }
  }

  // ---- the words before a semicolon ----

  /** A text outside strings and the semicolon behind it: its items, the semicolon, the items of the rest. */
  lemma {:induction false} ItemsBefore(k: SaneClasses, a: string, y: string)
    requires CommentFree(k, a + (";" + y)) && Quotes(a) % 2 == 0
    ensures CommentFree(k, a) && Items(k, a + (";" + y)) == Items(k, a) + ([Semicolon] + Items(k, y))
    decreases |a|
  {
    hide TokenLen, NextDepth, StartsComment, Terminated, Quotes;
    var b := ";" + y;
    if a == "" {
      assert a + b == b;
      SemicolonItem(k, y);
    } else {
      CommentBefore(k, a, b);
      assert (a + b)[0] == a[0];
      if a[0] == '\'' && !Terminated(a) {
        OddWhenOpen(k, a);
      }
      TokenBefore(k, a, b, 0);
      TokenQuotes(k, a);
      var n := TokenLen(k, a);
      QuotesAppend(a[..n], a[n..]);
      assert a[..n] + a[n..] == a;
      ItemsBefore(k, a[n..], y);
      ItemBefore(k, a, b);
      hide ItemOf;
      if !k.white(a[0]) {
        Regroup([ItemOf(k, a)], Items(k, a[n..]), [Semicolon] + Items(k, y));
      }
    }
  }

  lemma ItemBefore(k: SaneClasses, a: string, b: string)
    requires a != "" && Breaks(k, b)
    ensures ItemOf(k, a + b) == ItemOf(k, a)
  {
    CommentBefore(k, a, b);
    assert (a + b)[0] == a[0];
    if StartsWord(k, a[0]) {
      KeywordBefore(k, a, b, 0);
    }
  }

  lemma SemicolonItem(k: SaneClasses, y: string)
    ensures Items(k, ";" + y) == [Semicolon] + Items(k, y) && (CommentFree(k, y) ==> CommentFree(k, ";" + y))
  {
    SemicolonToken(k, ";" + y);
    assert (";" + y)[1..] == y && IsSign(';') && !k.white(';');
  }

  /** A semicolon ahead reads as the end of the text: the counter before it does not change. */
  lemma {:induction false} CounterBefore(k: SaneClasses, a: seq<Item>, b: seq<Item>, i: nat)
    requires i <= |a| && b != [] && b[0].Semicolon?
    ensures Counter(k, a + b, i) == Counter(k, a, i)
  {
    if i > 0 {
      CounterBefore(k, a, b, i - 1);
      assert (a + b)[i..] == a[i..] + b;
      assert a[i..] != [] ==> (a[i..] + b)[0] == a[i..][0];
    }
  }

  /** Where among the words of a text the semicolon at `p` stands. */
  function Before(k: SaneClasses, s: string, p: nat): nat
    requires p <= |s|
  {
    |Items(k, s[..p])|
  }

  lemma DepthAtSemicolon(k: SaneClasses, s: string, p: nat)
    requires CommentFree(k, s) && p < |s| && s[p] == ';' && Quotes(s[..p]) % 2 == 0
    ensures var ts, i := Items(k, s), Before(k, s, p);
      i < |ts| && ts[i] == Semicolon && EndDepth(k, s[..p], 0) == Counter(k, ts, i)
  {
    var a, y := s[..p], s[p + 1..];
    assert s == a + (";" + y);
    ItemsBefore(k, a, y);
    var b := [Semicolon] + Items(k, y);
    CounterBefore(k, Items(k, a), b, |Items(k, a)|);
    assert Items(k, a)[0..] == Items(k, a);
    DepthIsCounter(k, a, Items(k, a), 0);
  }

  /** Where the splitter cuts, over the words of the text: at the semicolons outside strings where its counter is 0. */
  lemma CutsByCounter(k: SaneClasses, s: string, p: nat)
    requires CommentFree(k, s) && p < |s| && s[p] == ';'
    ensures Quotes(s[..p]) % 2 == 0 ==> Before(k, s, p) < |Items(k, s)|
    ensures IsCut(Raw(k, s, 0, ""), p) <==> Quotes(s[..p]) % 2 == 0 && Counter(k, Items(k, s), Before(k, s, p)) == 0
  {
    CutsOfText(k, s, p);
    if Quotes(s[..p]) % 2 == 0 {
      DepthAtSemicolon(k, s, p);
    }
  }

  /** A text without comments in which no word is misread: no semicolon in a string or in a body cuts, and every other one does. */
  lemma CutsAtStatementEnds(k: SaneClasses, s: string, names: set<nat>, p: nat)
    requires CommentFree(k, s) && p < |s| && s[p] == ';'
    requires forall i :: 0 <= i < |Items(k, s)| ==> !Misread(k, Items(k, s), names, i)
    ensures Quotes(s[..p]) % 2 == 0 ==> Before(k, s, p) < |Items(k, s)|
    ensures IsCut(Raw(k, s, 0, ""), p) <==> Quotes(s[..p]) % 2 == 0 && Bodies(Nest(k, Items(k, s), names, Before(k, s, p))) == 0
  {
    hide Misread, Raw, IsCut;
    CutsByCounter(k, s, p);
    AgreeEverywhere(k, Items(k, s), names);
    if Quotes(s[..p]) % 2 == 0 {
      assert Agree(k, Items(k, s), names, Before(k, s, p));
    }
  }

  // ---- where it goes wrong ----

  /** Letters are letters, a blank is a blank, and the words below have the capitals they have. */
  ghost predicate Usual(k: SaneClasses)
  {
    && (forall c :: 'A' <= c <= 'Z' || 'a' <= c <= 'z' ==> k.alpha(c)) && k.white(' ')
    && (forall w :: w in {"BEGIN", "CASE", "END", "SELECT", "FROM"} ==> k.upper(w) == w) && k.upper("begin") == "BEGIN" && k.upper("t") == "T"
  }

  predicate Letters(w: string) { w != "" && forall i :: 0 <= i < |w| ==> 'A' <= w[i] <= 'Z' || 'a' <= w[i] <= 'z' }

  ghost predicate Reads(k: SaneClasses, s: string, ts: seq<Item>) { CommentFree(k, s) && Items(k, s) == ts }

  /** A word in front: its item in front. */
  lemma WordFront(k: SaneClasses, w: string, rest: string, ts: seq<Item>)
    requires Usual(k) && Letters(w) && rest != "" && rest[0] in {' ', ';'} && Reads(k, rest, ts)
    ensures Reads(k, w + rest, [Word(w)] + ts)
  {
    var s := w + rest;
    assert IsSign(';') && IsSign('_') && !InWord(k, rest[0]);
    assert forall i :: 0 <= i < |w| ==> s[i] == w[i] && InWord(k, s[i]);
    assert s[|w|] == rest[0];
    WordStops(k, s, |w|);
    assert s[..|w|] == w && s[|w|..] == rest && s[0] == w[0];
  }

  lemma {:induction false} WordStops(k: SaneClasses, s: string, n: nat)
    requires n < |s| && (forall i :: 0 <= i < n ==> InWord(k, s[i])) && !InWord(k, s[n])
    ensures WordLen(k, s) == n
  {
    if n > 0 {
      assert forall i :: 0 <= i < n - 1 ==> s[1..][i] == s[i + 1];
      WordStops(k, s[1..], n - 1);
    }
  }

  lemma LastWord(k: SaneClasses, w: string)
    requires Usual(k) && Letters(w)
    ensures Reads(k, w, [Word(w)])
  {
    assert forall i :: 0 <= i < |w| ==> InWord(k, w[i]);
    assert WordLen(k, w) == |w| && w[..|w|] == w && w[|w|..] == "";
    Letter(k, w);
  }

  lemma WordAndBlank(k: SaneClasses, w: string, rest: string, ts: seq<Item>)
    requires Usual(k) && Letters(w) && Reads(k, rest, ts)
    ensures Reads(k, w + (" " + rest), [Word(w)] + ts)
  {
    BlankToken(k, " " + rest, 0);
    assert (" " + rest)[1..] == rest;
    WordFront(k, w, " " + rest, ts);
  }

  /** Two texts without comments and the semicolon between them, the first outside strings. */
  lemma {:induction false} FreeJoin(k: SaneClasses, a: string, y: string)
    requires CommentFree(k, a) && CommentFree(k, y) && '\'' !in a
    ensures CommentFree(k, a + (";" + y))
    decreases |a|
  {
    hide TokenLen, NextDepth, StartsComment, Terminated;
    var b := ";" + y;
    if a == "" {
      assert a + b == b;
      SemicolonItem(k, y);
    } else {
      assert a[0] != '\'';
      TokenBefore(k, a, b, 0);
      FreeJoin(k, a[TokenLen(k, a)..], y);
    }
  }

  /** A semicolon behind a text without strings: whether it cuts, and what is open. */
  lemma AtSemicolon(k: SaneClasses, a: string, y: string, names: set<nat>)
    requires CommentFree(k, a) && CommentFree(k, y) && '\'' !in a
    ensures var s := a + (";" + y);
      && CommentFree(k, s) && s[|a|] == ';' && Before(k, s, |a|) == |Items(k, a)| < |Items(k, s)|
      && (IsCut(Raw(k, s, 0, ""), |a|) <==> Counter(k, Items(k, a), |Items(k, a)|) == 0)
      && Nest(k, Items(k, s), names, |Items(k, a)|) == Nest(k, Items(k, a), names, |Items(k, a)|)
  {
    hide Items, CommentFree, Raw, IsCut;
    var s := a + (";" + y);
    FreeJoin(k, a, y);
    NoQuotes(a);
    assert s[..|a|] == a && s[|a| + 1..] == y;
    CutsByCounter(k, s, |a|);
    ItemsBefore(k, a, y);
    CounterBefore(k, Items(k, a), [Semicolon] + Items(k, y), |Items(k, a)|);
    NestBefore(k, Items(k, a), [Semicolon] + Items(k, y), names, |Items(k, a)|);
  }

  lemma {:induction false} NestBefore(k: SaneClasses, a: seq<Item>, b: seq<Item>, names: set<nat>, i: nat)
    requires i <= |a| && b != [] && b[0].Semicolon?
    ensures Nest(k, a + b, names, i) == Nest(k, a, names, i)
  {
    if i > 0 {
      NestBefore(k, a, b, names, i - 1);
      assert (a + b)[i..] == a[i..] + b;
      assert a[i..] != [] ==> (a[i..] + b)[0] == a[i..][0];
      assert i > 1 ==> (a + b)[i - 2] == a[i - 2];
    }
  }

  const OPEN_BODY := "BEGIN" + (" " + ("CASE" + (" " + "END")))

  /** The END of a CASE closes the body: in "BEGIN CASE END;" and any text behind it the semicolon cuts, though the body is still open. */
  lemma CaseCutsBody(k: SaneClasses, y: string)
    requires Usual(k) && CommentFree(k, y)
    ensures var s := OPEN_BODY + (";" + y);
      && CommentFree(k, s) && s[|OPEN_BODY|] == ';' && IsCut(Raw(k, s, 0, ""), |OPEN_BODY|)
      && Before(k, s, |OPEN_BODY|) < |Items(k, s)| && Bodies(Nest(k, Items(k, s), {}, Before(k, s, |OPEN_BODY|))) == 1
  {
    hide Reads, Items, CommentFree, Raw, IsCut, Nest, Counter;
    LastWord(k, "END");
    WordAndBlank(k, "CASE", "END", [Word("END")]);
    WordAndBlank(k, "BEGIN", "CASE" + (" " + "END"), [Word("CASE")] + [Word("END")]);
    ReadsIs(k, OPEN_BODY, [Word("BEGIN")] + ([Word("CASE")] + [Word("END")]));
    AtSemicolon(k, OPEN_BODY, y, {});
    CaseNest(k, Items(k, OPEN_BODY));
  }

  lemma ReadsIs(k: SaneClasses, s: string, ts: seq<Item>)
    requires Reads(k, s, ts)
    ensures CommentFree(k, s) && Items(k, s) == ts
  {
  }

  lemma CaseNest(k: SaneClasses, ts: seq<Item>)
    requires Usual(k) && ts == [Word("BEGIN"), Word("CASE"), Word("END")]
    ensures Counter(k, ts, 3) == 0 && Bodies(Nest(k, ts, {}, 3)) == 1
  {
    assert Counter(k, ts, 1) == 1 && Counter(k, ts, 2) == 1;
    assert Nest(k, ts, {}, 1) == [Body] && Nest(k, ts, {}, 2) == [Case, Body] && Nest(k, ts, {}, 3) == [Body];
  }

  const FROM_BEGIN := "SELECT" + (" " + ("begin" + (" " + ("FROM" + (" " + "t")))))

  /** A column called begin opens a body: in "SELECT begin FROM t;" and any text behind it the semicolon does not cut, though no body is open. */
  lemma NameStopsCutting(k: SaneClasses, y: string)
    requires Usual(k) && CommentFree(k, y)
    ensures var s := FROM_BEGIN + (";" + y);
      && CommentFree(k, s) && s[|FROM_BEGIN|] == ';' && !IsCut(Raw(k, s, 0, ""), |FROM_BEGIN|)
      && Before(k, s, |FROM_BEGIN|) < |Items(k, s)| && Bodies(Nest(k, Items(k, s), {1}, Before(k, s, |FROM_BEGIN|))) == 0
  {
    hide Reads, Items, CommentFree, Raw, IsCut, Nest, Counter;
    LastWord(k, "t");
    WordAndBlank(k, "FROM", "t", [Word("t")]);
    WordAndBlank(k, "begin", "FROM" + (" " + "t"), [Word("FROM")] + [Word("t")]);
    WordAndBlank(k, "SELECT", "begin" + (" " + ("FROM" + (" " + "t"))), [Word("begin")] + ([Word("FROM")] + [Word("t")]));
    ReadsIs(k, FROM_BEGIN, [Word("SELECT")] + ([Word("begin")] + ([Word("FROM")] + [Word("t")])));
    AtSemicolon(k, FROM_BEGIN, y, {1});
    NameNest(k, Items(k, FROM_BEGIN));
  }

  lemma NameNest(k: SaneClasses, ts: seq<Item>)
    requires Usual(k) && ts == [Word("SELECT"), Word("begin"), Word("FROM"), Word("t")]
    ensures Counter(k, ts, 4) == 1 && Bodies(Nest(k, ts, {1}, 4)) == 0
  {
    assert Counter(k, ts, 1) == 0 && Counter(k, ts, 2) == 1 && Counter(k, ts, 3) == 1;
    assert Nest(k, ts, {1}, 1) == [] && Nest(k, ts, {1}, 2) == [] && Nest(k, ts, {1}, 3) == [];
  }
}
