/** The UNION that stands for an OR: where a WHERE clause is cut, and that the parts select the same rows. */
module OrRewrite {
  import opened Common

  /** The tokens of a clause. `Masked` is the AND of a BETWEEN that the splitter has hidden (written `__AND__` while it works). */
  datatype Token = Open | Close | Or | And | Masked | Word(text: string)

  // ---- the functions on text ----

  function Turn(t: Token, depth: int): int { if t == Open then depth + 1 else if t == Close then depth - 1 else depth }

  /** Where the depth, `depth` before `i`, comes back to 0 at a closing parenthesis; -1: nowhere. */
  function MatchFrom(ts: seq<Token>, i: nat, depth: int): (m: int)
    requires i <= |ts|
    ensures m == -1 || i <= m < |ts|
    decreases |ts| - i
  {
    if i == |ts| then -1
    else if ts[i] == Close && depth == 1 then i
    else MatchFrom(ts, i + 1, Turn(ts[i], depth))
  }

  /** `_matching_paren` */
  method MatchingParen(ts: seq<Token>, start: nat) returns (m: int)
    requires start <= |ts|
    ensures m == MatchFrom(ts, start, 0)
  {
    var depth := 0;
    for i := start to |ts|
      invariant MatchFrom(ts, start, 0) == MatchFrom(ts, i, depth)
    {
      if ts[i] == Open {
        depth := depth + 1;
      } else if ts[i] == Close {
        depth := depth - 1;
        if depth == 0 {
          return i;
        }
      }
    }
    m := -1;
  }

  function Count(ts: seq<Token>, t: Token): nat { multiset(ts)[t] }

  /** The test of `_unparen`: one pair of parentheses around everything. */
  predicate Enclosed(ts: seq<Token>)
  {
    ts != [] && ts[0] == Open && ts[|ts| - 1] == Close && Count(ts, Open) == Count(ts, Close) && MatchFrom(ts, 0, 0) == |ts| - 1
  }

  function Unparen(ts: seq<Token>): seq<Token>
    decreases |ts|
  {
    if Enclosed(ts) && |ts| >= 2 then Unparen(ts[1..|ts| - 1]) else ts
  }

  /** `_unparen` */
  method UnparenLoop(ts: seq<Token>) returns (r: seq<Token>)
    ensures r == Unparen(ts)
  {
    r := ts;
    while r != [] && r[0] == Open && r[|r| - 1] == Close && Count(r, Open) == Count(r, Close)
      invariant Unparen(r) == Unparen(ts)
      decreases |r|
    {
      var m := MatchingParen(r, 0);
      if m != |r| - 1 {
        break;
      }
      assert |r| >= 2;
      r := r[1..|r| - 1];
    }
  }

  function Unmask(ts: seq<Token>): (r: seq<Token>)
    ensures |r| == |ts|
  {
    seq(|ts|, i requires 0 <= i < |ts| => if ts[i] == Masked then And else ts[i])
  }

  /** The pieces between the `word`s that no parenthesis holds; `cur` is the piece begun. */
  function Pieces(ts: seq<Token>, word: Token, depth: int, cur: seq<Token>): (ps: seq<seq<Token>>)
    ensures |ps| >= 1
    decreases |ts|
  {
    if ts == [] then [cur]
    else
      var d := Turn(ts[0], depth);
      if d == 0 && ts[0] == word then [cur] + Pieces(ts[1..], word, d, []) else Pieces(ts[1..], word, d, cur + [ts[0]])
  }

  /** The pieces that are not empty, with their AND back. */
  function Kept(ps: seq<seq<Token>>): seq<seq<Token>>
  {
    if ps == [] then [] else (if ps[0] != [] then [Unmask(ps[0])] else []) + Kept(ps[1..])
  }

  function SplitTopLevel(ts: seq<Token>, word: Token): seq<seq<Token>> { Kept(Pieces(ts, word, 0, [])) }

  /** `_split_top_level`, after the AND of each BETWEEN has been masked. */
  method SplitLoop(ts: seq<Token>, word: Token) returns (parts: seq<seq<Token>>)
    ensures parts == SplitTopLevel(ts, word)
  {
    var all: seq<seq<Token>>, depth, cur := [], 0, [];
    assert ts[0..] == ts;
    for i := 0 to |ts|
      invariant all + Pieces(ts[i..], word, depth, cur) == Pieces(ts, word, 0, [])
    {
      assert ts[i..][1..] == ts[i + 1..];
      if ts[i] == Open {
        depth := depth + 1;
      } else if ts[i] == Close {
        depth := depth - 1;
      }
      if depth == 0 && ts[i] == word {
        Regroup(all, [cur], Pieces(ts[i + 1..], word, depth, []));
        all := all + [cur];
        cur := [];
      } else {
        cur := cur + [ts[i]];
      }
    }
    parts := KeepLoop(all + [cur]);
  }

  method KeepLoop(all: seq<seq<Token>>) returns (parts: seq<seq<Token>>)
    ensures parts == Kept(all)
  {
    hide Unmask, Kept;
    parts := [];
    assert all[0..] == all;
    NothingKept();
    for k := 0 to |all|
      invariant parts + Kept(all[k..]) == Kept(all)
    {
      KeptFirst(all, k);
      if all[k] != [] {
        Regroup(parts, [Unmask(all[k])], Kept(all[k + 1..]));
        parts := parts + [Unmask(all[k])];
      }
    }
    assert all[|all|..] == [];
  }

  lemma NothingKept()
    ensures Kept([]) == []
  {
  }

  lemma KeptFirst(all: seq<seq<Token>>, k: nat)
    requires k < |all|
    ensures Kept(all[k..]) == if all[k] != [] then [Unmask(all[k])] + Kept(all[k + 1..]) else Kept(all[k + 1..])
  {
    assert all[k..][1..] == all[k + 1..] && all[k..][0] == all[k];
    assert [] + Kept(all[k + 1..]) == Kept(all[k + 1..]);
  }

  /** The branches of the UNION, or nothing: the outer parentheses go, the rest must split at two ORs or more and at no AND. */
  function Branches(clause: seq<Token>): Option<seq<seq<Token>>>
  {
    var inner := Unparen(clause);
    var branches := SplitTopLevel(inner, Or);
    if |branches| < 2 || |SplitTopLevel(inner, And)| != 1 then None else Some(branches)
  }

  /** `_or_rewrite` from where the WHERE clause has been found in a plain SELECT over one table. */
  method OrRewriteClause(clause: seq<Token>) returns (r: Option<seq<seq<Token>>>)
    ensures r == Branches(clause)
  {
    var inner := UnparenLoop(clause);
    var branches := SplitLoop(inner, Or);
    var again := UnparenLoop(clause);
    var ands := SplitLoop(again, And);
    if |branches| < 2 || |ands| != 1 {
      return None;
    }
    r := Some(branches);
  }

  // ---- what a clause says ----

  /** SQL's three truth values. */
  datatype Truth = True | False | Unknown

  function Or3(a: Truth, b: Truth): Truth { if a == True || b == True then True else if a == False && b == False then False else Unknown }

  function And3(a: Truth, b: Truth): Truth { if a == False || b == False then False else if a == True && b == True then True else Unknown }

  function Not3(a: Truth): Truth { match a case True => False case False => True case Unknown => Unknown }

  /** A condition as SQL reads it: OR binds least, then AND, then NOT. A test is any other text: a comparison, an IN list, a BETWEEN (whose AND may be
      masked or not), a CASE, which may hold an OR of its own outside parentheses. */
  datatype Cond = Last(term: Term) | Either(term: Term, rest: Cond)
  datatype Term = Only(factor: Factor) | Both(factor: Factor, more: Term)
  datatype Factor = Test(tokens: seq<Token>) | Group(inner: Cond) | Not(negated: Factor)

  function PrintCond(c: Cond): seq<Token>
  {
    match c case Last(t) => PrintTerm(t) case Either(t, rest) => PrintTerm(t) + [Or] + PrintCond(rest)
  }

  function PrintTerm(t: Term): seq<Token>
  {
    match t case Only(f) => PrintFactor(f) case Both(f, more) => PrintFactor(f) + [And] + PrintTerm(more)
  }

  function PrintFactor(f: Factor): seq<Token>
  {
    match f
    case Test(ts) => ts
    case Group(c) => [Open] + PrintCond(c) + [Close]
    case Not(g) => [Word("NOT")] + PrintFactor(g)
  }

  /** The truth of a condition for a row, given the truth of each test. */
  function EvalCond(c: Cond, row: seq<Token> -> Truth): Truth
  {
    match c case Last(t) => EvalTerm(t, row) case Either(t, rest) => Or3(EvalTerm(t, row), EvalCond(rest, row))
  }

  function EvalTerm(t: Term, row: seq<Token> -> Truth): Truth
  {
    match t case Only(f) => EvalFactor(f, row) case Both(f, more) => And3(EvalFactor(f, row), EvalTerm(more, row))
  }

  function EvalFactor(f: Factor, row: seq<Token> -> Truth): Truth
  {
    match f
    case Test(ts) => row(Unmask(ts))
    case Group(c) => EvalCond(c, row)
    case Not(g) => Not3(EvalFactor(g, row))
  }

  // ---- parentheses ----

  /** From `depth` on, no closing parenthesis takes the depth below `floor`, and the text ends at `depth`. */
  ghost predicate Balanced(ts: seq<Token>, depth: int, floor: int, end: int)
  {
    if ts == [] then depth == end else Turn(ts[0], depth) >= floor && Balanced(ts[1..], Turn(ts[0], depth), floor, end)
  }

  /** No `word` where the depth is 0. */
  ghost predicate Quiet(ts: seq<Token>, word: Token, depth: int)
  {
    ts == [] || (!(Turn(ts[0], depth) == 0 && ts[0] == word) && Quiet(ts[1..], word, Turn(ts[0], depth)))
  }

  ghost predicate Whole(ts: seq<Token>) { ts != [] && Balanced(ts, 0, 0, 0) }

  /** A test is whole and is not itself in parentheses. */
  ghost predicate TestOk(ts: seq<Token>) { Whole(ts) && !Enclosed(ts) }

  ghost predicate CondOk(c: Cond)
  {
    match c case Last(t) => TermOk(t) case Either(t, rest) => TermOk(t) && CondOk(rest)
  }

  ghost predicate TermOk(t: Term)
  {
    match t case Only(f) => FactorOk(f) case Both(f, more) => FactorOk(f) && TermOk(more)
  }

  ghost predicate FactorOk(f: Factor)
  {
    match f case Test(ts) => TestOk(ts) case Group(c) => CondOk(c) case Not(g) => FactorOk(g)
  }

  /** No test outside groups holds an OR outside parentheses. */
  ghost predicate CondCalm(c: Cond)
  {
    match c case Last(t) => TermCalm(t) case Either(t, rest) => TermCalm(t) && CondCalm(rest)
  }

  ghost predicate TermCalm(t: Term)
  {
    match t case Only(f) => FactorCalm(f) case Both(f, more) => FactorCalm(f) && TermCalm(more)
  }

  ghost predicate FactorCalm(f: Factor)
  {
    match f case Test(ts) => Quiet(ts, Or, 0) case Group(_) => true case Not(g) => FactorCalm(g)
  }

  lemma {:induction false} BalancedAppend(a: seq<Token>, b: seq<Token>, depth: int, floor: int, mid: int, end: int)
    requires Balanced(a, depth, floor, mid) && Balanced(b, mid, floor, end)
    ensures Balanced(a + b, depth, floor, end)
  {
    if a == [] {
      assert a + b == b;
    } else {
      assert (a + b)[1..] == a[1..] + b;
      BalancedAppend(a[1..], b, Turn(a[0], depth), floor, mid, end);
    }
  }

  lemma {:induction false} BalancedDeeper(a: seq<Token>, depth: int, floor: int, end: int)
    requires Balanced(a, depth, floor, end)
    ensures Balanced(a, depth + 1, floor + 1, end + 1)
  {
    if a != [] {
      BalancedDeeper(a[1..], Turn(a[0], depth), floor, end);
    }
  }

  /** Between parentheses every `word` is deeper than 0. */
  lemma {:induction false} DeepIsQuiet(a: seq<Token>, word: Token, depth: int, end: int)
    requires Balanced(a, depth, 1, end)
    ensures Quiet(a, word, depth)
  {
    if a != [] {
      DeepIsQuiet(a[1..], word, Turn(a[0], depth), end);
    }
  }

  lemma {:induction false} QuietAppend(a: seq<Token>, b: seq<Token>, word: Token, depth: int, floor: int, mid: int)
    requires Quiet(a, word, depth) && Balanced(a, depth, floor, mid) && Quiet(b, word, mid)
    ensures Quiet(a + b, word, depth)
  {
    if a == [] {
      assert a + b == b;
    } else {
      assert (a + b)[1..] == a[1..] + b;
      QuietAppend(a[1..], b, word, Turn(a[0], depth), floor, mid);
    }
  }

  lemma {:induction false} CountOf(a: seq<Token>, depth: int, floor: int, end: int)
    requires Balanced(a, depth, floor, end)
    ensures Count(a, Open) - Count(a, Close) == end - depth
  {
    if a != [] {
      CountOf(a[1..], Turn(a[0], depth), floor, end);
      assert a == [a[0]] + a[1..];
    }
  }

  /** A parenthesized text is whole, quiet and enclosed. */
  lemma GroupText(inner: seq<Token>)
    requires Whole(inner)
    ensures Whole([Open] + inner + [Close]) && (forall word :: word != Open && word != Close ==> Quiet([Open] + inner + [Close], word, 0))
    ensures Enclosed([Open] + inner + [Close])
  {
    var ts := [Open] + inner + [Close];
    assert ts == [Open] + (inner + [Close]);
    BalancedDeeper(inner, 0, 0, 0);
    BalancedFloor(inner, 1, 1, 0, 1);
    assert [Close][1..] == [];
    assert Balanced([Close], 1, 0, 0);
    BalancedAppend(inner, [Close], 1, 0, 1, 0);
    assert ts[1..] == inner + [Close];
    forall word | word != Open && word != Close ensures Quiet(ts, word, 0) {
      DeepIsQuiet(inner, word, 1, 1);
      assert Quiet([Close], word, 1);
      QuietAppend(inner, [Close], word, 1, 1, 1);
    }
    CountOf(ts, 0, 0, 0);
    MatchPasses(ts, 1, inner, 1);
  }

  lemma {:induction false} BalancedFloor(a: seq<Token>, depth: int, floor: int, lower: int, end: int)
    requires Balanced(a, depth, floor, end) && lower <= floor
    ensures Balanced(a, depth, lower, end)
  {
    if a != [] {
      BalancedFloor(a[1..], Turn(a[0], depth), floor, lower, end);
    }
  }

  /** The search for the closing parenthesis passes over text that never comes back to depth 0. */
  lemma {:induction false} MatchPasses(ts: seq<Token>, i: nat, a: seq<Token>, depth: int)
    requires i <= |ts| && a <= ts[i..] && Balanced(a, depth, 1, 1) && depth >= 1
    ensures MatchFrom(ts, i, depth) == MatchFrom(ts, i + |a|, 1)
    decreases |a|
  {
    if a != [] {
      assert ts[i] == ts[i..][0] == a[0];
      assert a[1..] <= ts[i + 1..] by {
        assert ts[i + 1..] == ts[i..][1..];
      }
      MatchPasses(ts, i + 1, a[1..], Turn(a[0], depth));
    }
  }

  /** The parenthesis that opens a text closes within its first whole part. */
  lemma {:induction false} MatchWithin(ts: seq<Token>, i: nat, a: seq<Token>, depth: int)
    requires i <= |ts| && a <= ts[i..] && depth >= 1 && Balanced(a, depth, 0, 0)
    ensures i <= MatchFrom(ts, i, depth) < i + |a|
    decreases |a|
  {
    assert a != [];
    assert ts[i] == ts[i..][0] == a[0];
    if !(a[0] == Close && depth == 1) {
      assert a[1..] <= ts[i + 1..] by {
        assert ts[i + 1..] == ts[i..][1..];
      }
      MatchWithin(ts, i + 1, a[1..], Turn(a[0], depth));
    }
  }

  lemma NotEnclosed(a: seq<Token>, b: seq<Token>)
    requires Whole(a) && b != []
    ensures !Enclosed(a + b)
  {
    var ts := a + b;
    if ts[0] == Open {
      assert a[1..] <= ts[1..] by {
        assert ts[1..] == a[1..] + b;
      }
      MatchWithin(ts, 1, a[1..], 1);
    }
  }

  // ---- printed conditions ----

  /** A printed condition is whole. */
  lemma {:induction false} CondIsWhole(c: Cond)
    requires CondOk(c)
    ensures Whole(PrintCond(c))
    decreases c
  {
    match c
    case Last(t) => TermIsWhole(t);
    case Either(t, rest) =>
      TermIsWhole(t);
      CondIsWhole(rest);
      BetweenWholes(PrintTerm(t), Or, PrintCond(rest));
  }

  lemma {:induction false} TermIsWhole(t: Term)
    requires TermOk(t)
    ensures Whole(PrintTerm(t))
    decreases t
  {
    match t
    case Only(f) => FactorIsWhole(f);
    case Both(f, more) =>
      FactorIsWhole(f);
      TermIsWhole(more);
      BetweenWholes(PrintFactor(f), And, PrintTerm(more));
  }

  lemma {:induction false} FactorIsWhole(f: Factor)
    requires FactorOk(f)
    ensures Whole(PrintFactor(f))
    decreases f
  {
    match f
    case Test(ts) =>
    case Group(c) =>
      CondIsWhole(c);
      GroupText(PrintCond(c));
    case Not(g) =>
      FactorIsWhole(g);
      assert ([Word("NOT")] + PrintFactor(g))[1..] == PrintFactor(g);
  }

  /** How many ORs stand where the depth is 0. */
  function Ors(ts: seq<Token>, depth: int): nat
  {
    if ts == [] then 0 else (if Turn(ts[0], depth) == 0 && ts[0] == Or then 1 else 0) + Ors(ts[1..], Turn(ts[0], depth))
  }

  lemma {:induction false} QuietHasNone(ts: seq<Token>, depth: int)
    ensures Quiet(ts, Or, depth) <==> Ors(ts, depth) == 0
  {
    if ts != [] {
      QuietHasNone(ts[1..], Turn(ts[0], depth));
    }
  }

  lemma {:induction false} OrsAppend(a: seq<Token>, b: seq<Token>, depth: int, floor: int, mid: int)
    requires Balanced(a, depth, floor, mid)
    ensures Ors(a + b, depth) == Ors(a, depth) + Ors(b, mid)
  {
    if a == [] {
      assert a + b == b;
    } else {
      assert (a + b)[1..] == a[1..] + b;
      OrsAppend(a[1..], b, Turn(a[0], depth), floor, mid);
    }
  }

  lemma OrsAround(a: seq<Token>, t: Token, b: seq<Token>)
    requires Whole(a) && t != Open && t != Close
    ensures Ors(a + [t] + b, 0) == Ors(a, 0) + (if t == Or then 1 else 0) + Ors(b, 0)
  {
    OrsAppend(a, [t] + b, 0, 0, 0);
    assert a + ([t] + b) == a + [t] + b && ([t] + b)[1..] == b;
  }

  /** A calm term is one without an OR outside parentheses. */
  lemma {:induction false} CalmTerm(t: Term)
    requires TermOk(t)
    ensures Ors(PrintTerm(t), 0) == 0 <==> TermCalm(t)
    decreases t
  {
    match t
    case Only(f) => CalmFactor(f);
    case Both(f, more) =>
      CalmFactor(f);
      CalmTerm(more);
      FactorIsWhole(f);
      OrsAround(PrintFactor(f), And, PrintTerm(more));
  }

  lemma {:induction false} CalmFactor(f: Factor)
    requires FactorOk(f)
    ensures Ors(PrintFactor(f), 0) == 0 <==> FactorCalm(f)
    decreases f
  {
    match f
    case Test(ts) => QuietHasNone(ts, 0);
    case Group(c) =>
      CondIsWhole(c);
      GroupText(PrintCond(c));
      QuietHasNone(PrintFactor(f), 0);
    case Not(g) =>
      CalmFactor(g);
      assert ([Word("NOT")] + PrintFactor(g))[1..] == PrintFactor(g);
  }

  /** The ORs of a condition are those between its terms, and those of its tests when it is not calm. */
  lemma {:induction false} CondOrs(c: Cond)
    requires CondOk(c)
    ensures Ors(PrintCond(c), 0) >= |Terms(c)| - 1 && (Ors(PrintCond(c), 0) == |Terms(c)| - 1 <==> CondCalm(c))
    decreases c
  {
    match c
    case Last(t) => CalmTerm(t);
    case Either(t, rest) =>
      CalmTerm(t);
      CondOrs(rest);
      TermIsWhole(t);
      OrsAround(PrintTerm(t), Or, PrintCond(rest));
  }

  lemma BetweenWholes(a: seq<Token>, t: Token, b: seq<Token>)
    requires Whole(a) && Whole(b) && t != Open && t != Close
    ensures Whole(a + [t] + b)
  {
    assert ([t] + b)[1..] == b;
    BalancedAppend(a, [t] + b, 0, 0, 0, 0);
    assert a + ([t] + b) == a + [t] + b;
  }

  // ---- the cut ----

  lemma {:induction false} PiecesPass(a: seq<Token>, b: seq<Token>, word: Token, depth: int, mid: int, cur: seq<Token>)
    requires Quiet(a, word, depth) && Balanced(a, depth, 0, mid)
    ensures Pieces(a + b, word, depth, cur) == Pieces(b, word, mid, cur + a)
    decreases |a|
  {
    if a == [] {
      assert a + b == b && cur + a == cur;
    } else {
      assert (a + b)[1..] == a[1..] + b;
      assert cur + [a[0]] + a[1..] == cur + a;
      PiecesPass(a[1..], b, word, Turn(a[0], depth), mid, cur + [a[0]]);
    }
  }

  /** The terms of a condition, as the splitter gives them. */
  function Terms(c: Cond): (ts: seq<Term>)
    ensures |ts| >= 1
  {
    match c case Last(t) => [t] case Either(t, rest) => [t] + Terms(rest)
  }

  lemma KeptOne(p: seq<Token>)
    requires p != []
    ensures Kept([p]) == [Unmask(p)]
  {
    assert [p][1..] == [];
  }

  function TermTexts(ts: seq<Term>): seq<seq<Token>> { seq(|ts|, i requires 0 <= i < |ts| => Unmask(PrintTerm(ts[i]))) }

  lemma {:induction false} CalmSplits(c: Cond)
    requires CondOk(c) && CondCalm(c)
    ensures SplitTopLevel(PrintCond(c), Or) == TermTexts(Terms(c))
  {
    match c
    case Last(t) =>
      CalmText(t);
      PiecesPass(PrintTerm(t), [], Or, 0, 0, []);
      assert PrintTerm(t) + [] == PrintTerm(t) && [] + PrintTerm(t) == PrintTerm(t);
      assert Pieces(PrintCond(c), Or, 0, []) == [PrintTerm(t)];
      KeptOne(PrintTerm(t));
    case Either(t, rest) =>
      CalmText(t);
      CalmSplits(rest);
      var tail := [Or] + PrintCond(rest);
      PiecesPass(PrintTerm(t), tail, Or, 0, 0, []);
      assert PrintCond(c) == PrintTerm(t) + tail && [] + PrintTerm(t) == PrintTerm(t);
      assert tail[1..] == PrintCond(rest);
      var more := Pieces(PrintCond(rest), Or, 0, []);
      assert Pieces(PrintCond(c), Or, 0, []) == [PrintTerm(t)] + more;
      assert ([PrintTerm(t)] + more)[1..] == more;
      assert TermTexts([t] + Terms(rest)) == [Unmask(PrintTerm(t))] + TermTexts(Terms(rest));
  }

  lemma CalmText(t: Term)
    requires TermOk(t) && TermCalm(t)
    ensures Whole(PrintTerm(t)) && Quiet(PrintTerm(t), Or, 0)
  {
    TermIsWhole(t);
    CalmTerm(t);
    QuietHasNone(PrintTerm(t), 0);
  }

  function Size(ps: seq<seq<Token>>): nat { if ps == [] then 0 else |ps[0]| + Size(ps[1..]) }

  /** Every cut costs an OR. */
  lemma {:induction false} PiecesSize(ts: seq<Token>, depth: int, cur: seq<Token>)
    ensures Size(Pieces(ts, Or, depth, cur)) + Ors(ts, depth) == |ts| + |cur|
    decreases |ts|
  {
    if ts != [] {
      var d := Turn(ts[0], depth);
      if d == 0 && ts[0] == Or {
        PiecesSize(ts[1..], d, []);
        assert ([cur] + Pieces(ts[1..], Or, d, []))[1..] == Pieces(ts[1..], Or, d, []);
      } else {
        PiecesSize(ts[1..], d, cur + [ts[0]]);
      }
    } else {
      assert [cur][1..] == [];
    }
  }

  lemma {:induction false} KeptSize(ps: seq<seq<Token>>)
    ensures Size(Kept(ps)) == Size(ps)
  {
    if ps != [] {
      KeptSize(ps[1..]);
      assert ([Unmask(ps[0])] + Kept(ps[1..]))[1..] == Kept(ps[1..]);
      assert [] + Kept(ps[1..]) == Kept(ps[1..]);
    }
  }

  lemma {:induction false} TermsSize(c: Cond)
    ensures Size(TermTexts(Terms(c))) + |Terms(c)| - 1 == |PrintCond(c)|
  {
    match c
    case Last(t) =>
      assert TermTexts([t])[1..] == [];
    case Either(t, rest) =>
      TermsSize(rest);
      assert TermTexts([t] + Terms(rest)) == [Unmask(PrintTerm(t))] + TermTexts(Terms(rest));
      assert ([Unmask(PrintTerm(t))] + TermTexts(Terms(rest)))[1..] == TermTexts(Terms(rest));
  }

  /** A condition is cut into its top-level disjuncts, in order, exactly when no test outside groups holds an OR outside parentheses. */
  lemma SplitsIntoTerms(c: Cond)
    requires CondOk(c)
    ensures SplitTopLevel(PrintCond(c), Or) == TermTexts(Terms(c)) <==> CondCalm(c)
  {
    if CondCalm(c) {
      CalmSplits(c);
    }
    CondOrs(c);
    PiecesSize(PrintCond(c), 0, []);
    KeptSize(Pieces(PrintCond(c), Or, 0, []));
    TermsSize(c);
    hide PrintCond, TermTexts, Pieces, Kept, Ors, Size, CondCalm;
  }

  const CASE_FRONT := Word("CASE WHEN a = 1")
  const CASE_BACK := Word("b = 2 THEN 1 ELSE 0 END = 1")

  lemma WordPieces(w: Token, rest: seq<Token>, word: Token, cur: seq<Token>)
    requires w.Word? && !word.Word? && word != Open && word != Close
    ensures Pieces([w] + rest, word, 0, cur) == Pieces(rest, word, 0, cur + [w])
    ensures Balanced(rest, 0, 0, 0) ==> Balanced([w] + rest, 0, 0, 0)
  {
    assert ([w] + rest)[1..] == rest;
  }

  lemma OrPieces(rest: seq<Token>, cur: seq<Token>)
    ensures Pieces([Or] + rest, Or, 0, cur) == [cur] + Pieces(rest, Or, 0, [])
    ensures Pieces([Or] + rest, And, 0, cur) == Pieces(rest, And, 0, cur + [Or])
    ensures Balanced(rest, 0, 0, 0) ==> Balanced([Or] + rest, 0, 0, 0)
  {
    assert ([Or] + rest)[1..] == rest;
  }

  const CASE_TEST := [CASE_FRONT] + ([Or] + ([CASE_BACK] + []))

  /** A CASE with an OR in it is cut in two, and neither part is a condition. */
  lemma CaseIsCut()
    ensures var c := Last(Only(Test(CASE_TEST))); CondOk(c) && !CondCalm(c) && Branches(PrintCond(c)) == Some([[CASE_FRONT], [CASE_BACK]])
  {
    CaseShape();
    hide Pieces, Balanced;
    var c, ts := Last(Only(Test(CASE_TEST))), CASE_TEST;
    assert PrintCond(c) == PrintTerm(c.term) == ts;
    assert Unparen(ts) == ts;
    KeptOne([CASE_BACK]);
    KeptOne(ts);
    assert [[CASE_FRONT], [CASE_BACK]][1..] == [[CASE_BACK]];
    assert Unmask([CASE_FRONT]) == [CASE_FRONT] && Unmask([CASE_BACK]) == [CASE_BACK];
    assert Kept([[CASE_FRONT], [CASE_BACK]]) == [Unmask([CASE_FRONT])] + Kept([[CASE_BACK]]);
    assert SplitTopLevel(ts, Or) == [[CASE_FRONT], [CASE_BACK]] && SplitTopLevel(ts, And) == [Unmask(ts)];
    assert TermOk(c.term) == FactorOk(c.term.factor) == TestOk(ts);
    assert TermTexts(Terms(c)) == [Unmask(ts)];
    SplitsIntoTerms(c);
  }

  lemma CaseShape()
    ensures Pieces(CASE_TEST, Or, 0, []) == [[CASE_FRONT], [CASE_BACK]] && Pieces(CASE_TEST, And, 0, []) == [CASE_TEST]
    ensures Balanced(CASE_TEST, 0, 0, 0)
  {
    WordPieces(CASE_BACK, [], Or, []);
    WordPieces(CASE_BACK, [], And, [CASE_FRONT] + [Or]);
    OrPieces([CASE_BACK] + [], [CASE_FRONT]);
    WordPieces(CASE_FRONT, [Or] + ([CASE_BACK] + []), Or, []);
    WordPieces(CASE_FRONT, [Or] + ([CASE_BACK] + []), And, []);
    assert [] + [CASE_FRONT] == [CASE_FRONT] && [] + [CASE_BACK] == [CASE_BACK];
    assert [CASE_FRONT] + [Or] + [CASE_BACK] == CASE_TEST;
  }

  /** The condition without the parentheses around all of it. */
  function Strip(c: Cond): Cond
  {
    if IsGroup(c) then Strip(c.term.factor.inner) else c
  }

  /** A condition that is nothing but a group. */
  predicate IsGroup(c: Cond) { c.Last? && c.term.Only? && c.term.factor.Group? }

  lemma GroupShape(c: Cond)
    requires IsGroup(c)
    ensures PrintCond(c) == [Open] + PrintCond(c.term.factor.inner) + [Close]
    ensures CondOk(c) == CondOk(c.term.factor.inner)
    ensures forall row: seq<Token> -> Truth :: EvalCond(c, row) == EvalCond(c.term.factor.inner, row)
  {
    var f := c.term.factor;
    assert PrintTerm(c.term) == PrintFactor(f) == [Open] + PrintCond(f.inner) + [Close];
    assert TermOk(c.term) == FactorOk(f) == CondOk(f.inner);
    forall row: seq<Token> -> Truth ensures EvalCond(c, row) == EvalCond(f.inner, row) {
      assert EvalTerm(c.term, row) == EvalFactor(f, row) == EvalCond(f.inner, row);
    }
  }

  lemma {:induction false} UnparenStrips(c: Cond)
    requires CondOk(c)
    ensures Unparen(PrintCond(c)) == PrintCond(Strip(c)) && CondOk(Strip(c))
    decreases c
  {
    if IsGroup(c) {
      GroupShape(c);
      var inner := PrintCond(c.term.factor.inner);
      CondIsWhole(c.term.factor.inner);
      GroupText(inner);
      var ts := PrintCond(c);
      assert ts[1..|ts| - 1] == inner;
      UnparenStrips(c.term.factor.inner);
    } else {
      OnlyGroupsAreEnclosed(c);
    }
  }

  lemma OnlyGroupsAreEnclosed(c: Cond)
    requires CondOk(c) && !IsGroup(c)
    ensures !Enclosed(PrintCond(c))
  {
    match c
    case Either(t, rest) =>
      TermIsWhole(t);
      NotEnclosed(PrintTerm(t), [Or] + PrintCond(rest));
      assert PrintTerm(t) + ([Or] + PrintCond(rest)) == PrintCond(c);
    case Last(t) =>
      if t.Both? {
        FactorIsWhole(t.factor);
        NotEnclosed(PrintFactor(t.factor), [And] + PrintTerm(t.more));
        assert PrintFactor(t.factor) + ([And] + PrintTerm(t.more)) == PrintTerm(t);
      } else {
        assert PrintTerm(t) == PrintFactor(t.factor) && FactorOk(t.factor);
      }
  }

  lemma {:induction false} StripKeepsTruth(c: Cond, row: seq<Token> -> Truth)
    ensures EvalCond(Strip(c), row) == EvalCond(c, row)
  {
    if IsGroup(c) {
      GroupShape(c);
      StripKeepsTruth(c.term.factor.inner, row);
    }
  }

  lemma {:induction false} TrueWhenSomeTermIs(c: Cond, row: seq<Token> -> Truth)
    ensures EvalCond(c, row) == True <==> exists i :: 0 <= i < |Terms(c)| && EvalTerm(Terms(c)[i], row) == True
  {
    if c.Either? {
      TrueWhenSomeTermIs(c.rest, row);
      assert Terms(c)[0] == c.term && Terms(c)[1..] == Terms(c.rest);
      if EvalTerm(c.term, row) == True {
        assert EvalTerm(Terms(c)[0], row) == True;
      } else if EvalCond(c.rest, row) == True {
        var j :| 0 <= j < |Terms(c.rest)| && EvalTerm(Terms(c.rest)[j], row) == True;
        assert Terms(c)[j + 1] == Terms(c.rest)[j];
      } else {
        forall i | 0 <= i < |Terms(c)| ensures EvalTerm(Terms(c)[i], row) != True {
          if i > 0 {
            assert Terms(c)[i] == Terms(c.rest)[i - 1];
            assert EvalTerm(Terms(c.rest)[i - 1], row) != True;
          }
        }
      }
    } else {
      assert Terms(c)[0] == c.term;
    }
  }

  /** The branches are the disjuncts of the condition without the parentheses around it, exactly when it is calm. */
  lemma BranchesAreTerms(c: Cond)
    requires CondOk(c) && Branches(PrintCond(c)).Some?
    ensures Branches(PrintCond(c)).value == TermTexts(Terms(Strip(c))) <==> CondCalm(Strip(c))
  {
    UnparenStrips(c);
    SplitsIntoTerms(Strip(c));
  }

  /** Then, for every row, the condition is true exactly when some branch is. */
  lemma BranchesKeepTruth(c: Cond) returns (terms: seq<Term>)
    requires CondOk(c) && CondCalm(Strip(c)) && Branches(PrintCond(c)).Some?
    ensures Branches(PrintCond(c)).value == TermTexts(terms) && |terms| >= 2
    ensures forall row: seq<Token> -> Truth ::
      EvalCond(c, row) == True <==> exists i :: 0 <= i < |terms| && EvalTerm(terms[i], row) == True
  {
    BranchesAreTerms(c);
    terms := Terms(Strip(c));
    assert |TermTexts(terms)| == |Branches(PrintCond(c)).value| >= 2;
    forall row: seq<Token> -> Truth
      ensures EvalCond(c, row) == True <==> exists i :: 0 <= i < |terms| && EvalTerm(terms[i], row) == True
    {
      StripKeepsTruth(c, row);
      TrueWhenSomeTermIs(Strip(c), row);
    }
  }

  // ---- the rows ----

  /** The distinct outputs of the rows for which a term is true. */
  ghost function SelectTerm<Row, Out>(rows: set<Row>, out: Row -> Out, truth: Row -> (seq<Token> -> Truth), t: Term): set<Out>
  {
    set r | r in rows && EvalTerm(t, truth(r)) == True :: out(r)
  }

  /** The distinct outputs of the rows for which a condition is true. */
  ghost function SelectCond<Row, Out>(rows: set<Row>, out: Row -> Out, truth: Row -> (seq<Token> -> Truth), c: Cond): set<Out>
  {
    set r | r in rows && EvalCond(c, truth(r)) == True :: out(r)
  }

  ghost function Union<Row, Out>(rows: set<Row>, out: Row -> Out, truth: Row -> (seq<Token> -> Truth), terms: seq<Term>): set<Out>
  {
    if terms == [] then {} else SelectTerm(rows, out, truth, terms[0]) + Union(rows, out, truth, terms[1..])
  }

  lemma {:induction false} UnionHolds<Row, Out>(rows: set<Row>, out: Row -> Out, truth: Row -> (seq<Token> -> Truth), terms: seq<Term>, x: Out)
    ensures x in Union(rows, out, truth, terms) <==>
            exists i, r :: 0 <= i < |terms| && r in rows && EvalTerm(terms[i], truth(r)) == True && out(r) == x
  {
    if terms != [] {
      UnionHolds(rows, out, truth, terms[1..], x);
      if i, r :| 0 <= i < |terms| && r in rows && EvalTerm(terms[i], truth(r)) == True && out(r) == x {
        if i > 0 {
          assert terms[1..][i - 1] == terms[i];
        }
      }
      if j, r :| 0 <= j < |terms[1..]| && r in rows && EvalTerm(terms[1..][j], truth(r)) == True && out(r) == x {
        assert terms[j + 1] == terms[1..][j];
      }
    }
  }

  /** The UNION of the branches has the same distinct rows as the OR: for every table, every output columns and every truth of the tests. */
  lemma UnionSelectsTheSame<Row, Out>(c: Cond, rows: set<Row>, out: Row -> Out, truth: Row -> (seq<Token> -> Truth)) returns (terms: seq<Term>)
    requires CondOk(c) && CondCalm(Strip(c)) && Branches(PrintCond(c)).Some?
    ensures Branches(PrintCond(c)).value == TermTexts(terms)
    ensures Union(rows, out, truth, terms) == SelectCond(rows, out, truth, c)
  {
    terms := BranchesKeepTruth(c);
    var whole := SelectCond(rows, out, truth, c);
    forall x | x in whole ensures x in Union(rows, out, truth, terms) {
      UnionHolds(rows, out, truth, terms, x);
      var r :| r in rows && EvalCond(c, truth(r)) == True && out(r) == x;
      var i :| 0 <= i < |terms| && EvalTerm(terms[i], truth(r)) == True;
    }
    forall x | x in Union(rows, out, truth, terms) ensures x in whole {
      UnionHolds(rows, out, truth, terms, x);
      var i, r :| 0 <= i < |terms| && r in rows && EvalTerm(terms[i], truth(r)) == True && out(r) == x;
      assert EvalCond(c, truth(r)) == True;
    }
  }
}
