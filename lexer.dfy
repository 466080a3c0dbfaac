/**
 * The tokenizer of calc.go (`Tokenize`): one pass over the input characters
 * with a list of emitted tokens and one pending token `cur`.
 */
module Lexer {

  /** `length1operatorsInfix`: + - * / ^ & % = | */
  predicate IsInfixChar(c: char)
  {
    c == '+' || c == '-' || c == '*' || c == '/' || c == '^' || c == '&' || c == '%' || c == '=' || c == '|'
  }

  /** `length1operatorsPrefix`: ~ */
  predicate IsPrefixChar(c: char) { c == '~' }

  /** Characters that always form a one-character token of their own. */
  predicate IsSingleChar(c: char)
  {
    c == '(' || c == ')' || IsInfixChar(c) || IsPrefixChar(c)
  }

  predicate IsSpace(c: char) { c == ' ' || c == '\r' || c == '\n' }

  /** Characters that may double up into a two-character operator. */
  predicate IsDoubling(c: char) { c == '>' || c == '<' || c == '*' }

  /** `length2operators` */
  predicate IsLength2Operator(s: string) { s == "<<" || s == ">>" }

  /** The loop state of `Tokenize`: emitted tokens and pending text. */
  datatype LexState = LexState(tokens: seq<string>, cur: string)

  const Start := LexState([], "")

  /** Emit `cur` if it is not empty. */
  function Flush(tokens: seq<string>, cur: string): seq<string>
  {
    if |cur| > 0 then tokens + [cur] else tokens
  }

  /** One iteration of the character loop. */
  function Step(st: LexState, c: char): LexState
  {
    var n := |st.tokens|;
    if n > 0 && st.tokens[n - 1] == "*" && c == '*' then
      LexState(st.tokens[..n - 1] + ["**"], st.cur)
    else if IsSingleChar(c) then
      LexState(Flush(st.tokens, st.cur) + [[c]], "")
    else if IsSpace(c) then
      LexState(Flush(st.tokens, st.cur), "")
    else if IsDoubling(c) then
      if st.cur == [c] then LexState(st.tokens + [st.cur + [c]], "")
      else LexState(Flush(st.tokens, st.cur), [c])
    else
      var cur := st.cur + [c];
      if IsLength2Operator(cur) then LexState(st.tokens + [cur], "") else LexState(st.tokens, cur)
  }

  /** The loop run over the characters `s`, from state `st`. */
  function Run(st: LexState, s: string): LexState
    decreases |s|
  {
    if s == [] then st else Run(Step(st, s[0]), s[1..])
  }

  /** One pass emits at most two tokens and never takes back an emitted
      one; the only change to an emitted token is a `*` that a following
      `*` turns into `**`. */
  lemma StepKeepsEmitted(st: LexState, c: char)
    ensures var r := Step(st, c);
      IsStarMerge(st, c) ==>
        |r.tokens| == |st.tokens| && r.tokens[..|st.tokens| - 1] == st.tokens[..|st.tokens| - 1]
        && r.tokens[|st.tokens| - 1] == "**" && r.cur == st.cur
    ensures var r := Step(st, c);
      !IsStarMerge(st, c) ==>
        |st.tokens| <= |r.tokens| <= |st.tokens| + 2 && r.tokens[..|st.tokens|] == st.tokens
  {
  }

  /** The loop never drops an emitted token, and every token emitted before
      it, except possibly the last, stays in its place. */
  lemma {:induction false} RunKeepsEmitted(st: LexState, s: string)
    ensures |Run(st, s).tokens| >= |st.tokens|
    ensures forall i :: 0 <= i < |st.tokens| - 1 ==> Run(st, s).tokens[i] == st.tokens[i]
    decreases |s|
  {
    if s != [] {
      var next := Step(st, s[0]);
      StepKeepsEmitted(st, s[0]);
      RunKeepsEmitted(next, s[1..]);
      assert forall i :: 0 <= i < |st.tokens| - 1 ==> next.tokens[i] == st.tokens[i];
    }
  }

  /** Tokens never are empty and never hold a space, CR or LF. */
  predicate IsToken(t: string)
  {
    |t| > 0 && forall c <- t :: !IsSpace(c)
  }

  predicate WellFormed(st: LexState)
  {
    (forall t <- st.tokens :: IsToken(t)) && (forall c <- st.cur :: !IsSpace(c))
  }

  /** The tokens of `input`, as `Tokenize` returns them. */
  function Tokens(input: string): (r: seq<string>)
    ensures forall t <- r :: IsToken(t)
    ensures multiset(Concat(r)) == multiset(NonSpace(input))
  {
    var st := Run(Start, input);
    RunWellFormed(Start, input);
    RunKeepsCharacters(Start, input);
    assert Concat(Flush(st.tokens, st.cur)) == Flat(st) by {
      if |st.cur| > 0 {
        ConcatAppend(st.tokens, [st.cur]);
      }
    }
    Flush(st.tokens, st.cur)
  }

  method Tokenize(input: string) returns (tokens: seq<string>)
    ensures tokens == Tokens(input)
  {
    tokens := [];
    var cur := "";
    for i := 0 to |input|
      invariant Run(LexState(tokens, cur), input[i..]) == Run(Start, input)
    {
      var c := input[i];
      assert input[i..][1..] == input[i + 1..];
      var numTokens := |tokens|;
      if numTokens > 0 && tokens[numTokens - 1] == "*" && c == '*' {
        tokens := tokens[..numTokens - 1] + ["**"];
        continue;
      }
      if c == '(' || c == ')' || IsInfixChar(c) || IsPrefixChar(c) {
        if |cur| > 0 {
          tokens := tokens + [cur];
          cur := "";
        }
        tokens := tokens + [[c]];
        continue;
      }
      if c == ' ' || c == '\r' || c == '\n' {
        if |cur| > 0 {
          tokens := tokens + [cur];
          cur := "";
        }
      } else if c == '>' || c == '<' || c == '*' {
        if cur == [c] {
          tokens := tokens + [cur + [c]];
          cur := "";
          continue;
        }
        if |cur| > 0 {
          tokens := tokens + [cur];
        }
        cur := [c];
      } else {
        cur := cur + [c];
        if IsLength2Operator(cur) {
          tokens := tokens + [cur];
          cur := "";
        }
      }
    }
    // calc.go:110 only trims the slice's capacity.
    if cur != "" {
      tokens := tokens + [cur];
    }
  }

  // -----------------------------------------------------------------------
  // No character is lost or duplicated
  // -----------------------------------------------------------------------

  function Concat(ts: seq<string>): string
  {
    if ts == [] then "" else ts[0] + Concat(ts[1..])
  }

  /** The input with spaces, CRs and LFs removed. */
  function NonSpace(s: string): string
  {
    if s == [] then "" else (if IsSpace(s[0]) then "" else [s[0]]) + NonSpace(s[1..])
  }

  /** Everything emitted or pending, in order. */
  function Flat(st: LexState): string
  {
    Concat(st.tokens) + st.cur
  }

  lemma {:induction false} ConcatAppend(a: seq<string>, b: seq<string>)
    ensures Concat(a + b) == Concat(a) + Concat(b)
    decreases |a|
  {
    if a == [] {
      assert a + b == b;
    } else {
      assert (a + b)[1..] == a[1..] + b;
      ConcatAppend(a[1..], b);
    }
  }

  lemma FlushFlat(tokens: seq<string>, cur: string)
    ensures Concat(Flush(tokens, cur)) == Concat(tokens) + cur
  {
    if |cur| > 0 {
      ConcatAppend(tokens, [cur]);
    }
  }

  /** Every step but one appends the new character (if it is not a space)
      to the emitted-and-pending text; the exception is a `*` merged into an
      emitted `*` while text is pending, which keeps the same characters in
      another order. */
  lemma StepFlat(st: LexState, c: char)
    ensures multiset(Flat(Step(st, c))) == multiset(Flat(st)) + multiset(if IsSpace(c) then "" else [c])
    ensures !IsStarMerge(st, c) || st.cur == "" ==>
      Flat(Step(st, c)) == Flat(st) + (if IsSpace(c) then "" else [c])
  {
    if IsStarMerge(st, c) {
      StepFlatMerge(st, c);
    } else {
      StepFlatAppend(st, c);
    }
  }

  lemma StepFlatMerge(st: LexState, c: char)
    requires IsStarMerge(st, c)
    ensures Flat(Step(st, c)) == Concat(st.tokens) + "*" + st.cur
  {
    var n := |st.tokens|;
    var front := st.tokens[..n - 1];
    assert st.tokens == front + ["*"];
    ConcatAppend(front, ["*"]);
    ConcatAppend(front, ["**"]);
    assert Concat(["**"]) == "**";
    assert Concat(["*"]) == "*";
  }

  lemma StepFlatAppend(st: LexState, c: char)
    requires !IsStarMerge(st, c)
    ensures Flat(Step(st, c)) == Flat(st) + (if IsSpace(c) then "" else [c])
  {
    if IsSingleChar(c) {
      FlushFlat(st.tokens, st.cur);
      ConcatAppend(Flush(st.tokens, st.cur), [[c]]);
      assert Concat([[c]]) == [c];
    } else if IsSpace(c) {
      FlushFlat(st.tokens, st.cur);
    } else if IsDoubling(c) {
      if st.cur == [c] {
        ConcatAppend(st.tokens, [st.cur + [c]]);
        assert Concat([st.cur + [c]]) == st.cur + [c];
      } else {
        FlushFlat(st.tokens, st.cur);
      }
    } else {
      var cur := st.cur + [c];
      if IsLength2Operator(cur) {
        ConcatAppend(st.tokens, [cur]);
        assert Concat([cur]) == cur;
      }
    }
  }

  /** The step that merges `*` into an emitted `*` token. */
  predicate IsStarMerge(st: LexState, c: char)
  {
    |st.tokens| > 0 && st.tokens[|st.tokens| - 1] == "*" && c == '*'
  }

  lemma {:induction false} RunKeepsCharacters(st: LexState, s: string)
    ensures multiset(Flat(Run(st, s))) == multiset(Flat(st)) + multiset(NonSpace(s))
    decreases |s|
  {
    if s != [] {
      StepFlat(st, s[0]);
      RunKeepsCharacters(Step(st, s[0]), s[1..]);
    }
  }

  lemma StepWellFormed(st: LexState, c: char)
    requires WellFormed(st)
    ensures WellFormed(Step(st, c))
  {
    var n := |st.tokens|;
    if IsStarMerge(st, c) {
      assert forall t <- st.tokens[..n - 1] :: t in st.tokens;
    }
  }

  lemma {:induction false} RunWellFormed(st: LexState, s: string)
    requires WellFormed(st)
    ensures WellFormed(Run(st, s))
    decreases |s|
  {
    if s != [] {
      StepWellFormed(st, s[0]);
      RunWellFormed(Step(st, s[0]), s[1..]);
    }
  }
}

/** Laws of the tokenizer: how it splits operator chains, how a leading
    `_ans_` is split off, and when it keeps the characters in order. */
module LexerLaws {
  import opened Lexer

  /** A character that only ever extends the pending token. */
  predicate IsWordChar(c: char)
  {
    !IsSingleChar(c) && !IsSpace(c) && !IsDoubling(c)
  }

  predicate IsWord(w: string)
  {
    |w| > 0 && forall c <- w :: IsWordChar(c)
  }

  /** A token the lexer emits whole from its characters. */
  predicate IsSymbol(t: string)
  {
    (|t| == 1 && IsSingleChar(t[0])) || t == "<<" || t == ">>"
  }

  predicate IsLexeme(t: string) { IsWord(t) || IsSymbol(t) }

  /** A run of spaces, CRs and LFs (possibly empty). */
  predicate IsGap(g: string) { forall c <- g :: IsSpace(c) }

  lemma {:induction false} RunAppend(st: LexState, a: string, b: string)
    ensures Run(st, a + b) == Run(Run(st, a), b)
    decreases |a|
  {
    if a == [] {
      assert a + b == b;
    } else {
      assert (a + b)[0] == a[0];
      assert (a + b)[1..] == a[1..] + b;
      RunAppend(Step(st, a[0]), a[1..], b);
    }
  }

  lemma RunOne(st: LexState, c: char)
    ensures Run(st, [c]) == Step(st, c)
  {
    assert [c][1..] == [];
  }

  /** Running from `st` over `c` and then `s` is running from the state
      after `c` over `s`. */
  lemma RunCons(st: LexState, c: char, s: string, r: LexState)
    requires Run(Step(st, c), s) == r
    ensures Run(st, [c] + s) == r
  {
    assert ([c] + s)[1..] == s;
  }

  /** Word characters accumulate in the pending token. */
  lemma {:induction false} RunWord(ts: seq<string>, cur: string, w: string)
    requires forall c <- w :: IsWordChar(c)
    ensures Run(LexState(ts, cur), w) == LexState(ts, cur + w)
    decreases |w|
  {
    if w == [] {
      assert cur + w == cur;
    } else {
      assert w[0] in w;
      assert !IsLength2Operator(cur + [w[0]]) by {
        var s := cur + [w[0]];
        assert s[|s| - 1] == w[0];
      }
      assert Step(LexState(ts, cur), w[0]) == LexState(ts, cur + [w[0]]);
      assert forall c <- w[1..] :: c in w;
      RunWord(ts, cur + [w[0]], w[1..]);
      assert cur + [w[0]] + w[1..] == cur + w;
    }
  }

  /** A symbol flushes the pending token and is emitted on its own,
      unless it is a `*` that lands on an emitted `*`. */
  lemma RunSymbol(ts: seq<string>, cur: string, op: string)
    requires IsSymbol(op)
    requires forall c <- cur :: IsWordChar(c)
    requires op == "*" ==> ts == [] || ts[|ts| - 1] != "*"
    ensures Run(LexState(ts, cur), op) == LexState(Flush(ts, cur) + [op], "")
  {
    if |op| == 1 {
      assert op == [op[0]];
      RunOne(LexState(ts, cur), op[0]);
    } else {
      var c := op[0];
      assert op == [c] + [c];
      RunAppend(LexState(ts, cur), [c], [c]);
      RunOne(LexState(ts, cur), c);
      if |cur| == 1 {
        assert cur[0] in cur;
      }
      var mid := LexState(Flush(ts, cur), [c]);
      assert Step(LexState(ts, cur), c) == mid;
      RunOne(mid, c);
    }
  }

  /** A gap flushes the pending token. */
  lemma {:induction false} RunGap(ts: seq<string>, cur: string, g: string)
    requires IsGap(g)
    ensures Run(LexState(ts, cur), g) == (if g == "" then LexState(ts, cur) else LexState(Flush(ts, cur), ""))
    decreases |g|
  {
    if g != [] {
      assert g[0] in g;
      assert forall c <- g[1..] :: c in g;
      RunGap(Flush(ts, cur), "", g[1..]);
    }
  }

  datatype Link = Link(op: string, operand: string)

  /** The tokens `first op1 x1 op2 x2 ...`. */
  function ChainTokens(first: string, links: seq<Link>): (r: seq<string>)
    ensures |r| == 2 * |links| + 1
  {
    if links == [] then [first]
    else
      var last := links[|links| - 1];
      ChainTokens(first, links[..|links| - 1]) + [last.op, last.operand]
  }

  // -----------------------------------------------------------------------
  // Lexing undoes writing the tokens out
  // -----------------------------------------------------------------------

  /** The lexemes `ts` written out with the gap `gaps[i]` after `ts[i]`. */
  function Interleave(ts: seq<string>, gaps: seq<string>): string
    requires |ts| >= 1 && |gaps| == |ts| - 1
    decreases |ts|, 1
  {
    ts[0] + Tail(ts, gaps)
  }

  /** Everything after the first lexeme. */
  function Tail(ts: seq<string>, gaps: seq<string>): string
    requires |ts| >= 1 && |gaps| == |ts| - 1
    decreases |ts|, 0
  {
    if |ts| == 1 then "" else gaps[0] + Interleave(ts[1..], gaps[1..])
  }

  /** Writing out a lexeme and a gap in front of written-out lexemes. */
  lemma InterleaveStep(t: string, g: string, ts: seq<string>, gaps: seq<string>, text: string)
    requires |ts| >= 1 && |gaps| == |ts| - 1 && Interleave(ts, gaps) == text
    ensures Interleave([t] + ts, [g] + gaps) == t + g + text
  {
    assert ([t] + ts)[1..] == ts && ([g] + gaps)[1..] == gaps;
  }

  /** Lexemes that the lexer gives back unchanged: every neighbouring pair
      is `Joinable`. */
  predicate Separable(ts: seq<string>, gaps: seq<string>)
  {
    |ts| >= 1 && |gaps| == |ts| - 1
    && (forall i :: 0 <= i < |ts| ==> IsLexeme(ts[i]))
    && (forall i :: 0 <= i < |gaps| ==> IsGap(gaps[i]))
    && (forall i :: 0 <= i < |gaps| ==> Joinable(ts, gaps, i))
  }

  /** The lexemes `ts[i]` and `ts[i + 1]` with the gap `gaps[i]` between
      them are lexed apart: no `*` after a `*`, no two words without a gap,
      and no `*` right after a word that follows a `*` (that `*` merges
      into the first one). */
  predicate Joinable(ts: seq<string>, gaps: seq<string>, i: int)
    requires |gaps| == |ts| - 1 && 0 <= i < |gaps|
  {
    && !(ts[i] == "*" && ts[i + 1] == "*")
    && (gaps[i] == "" ==> !(IsWord(ts[i]) && IsWord(ts[i + 1])))
    && (i > 0 && IsWord(ts[i]) && gaps[i] == "" && ts[i + 1] == "*" ==> ts[i - 1] != "*")
  }

  /** A word, an operator and a word are separable whatever the gaps. */
  lemma SeparableTriple(a: string, op: string, b: string, g1: string, g2: string)
    requires IsWord(a) && IsSymbol(op) && IsWord(b) && IsGap(g1) && IsGap(g2)
    ensures Separable([a, op, b], [g1, g2])
    ensures Tail([a, op, b], [g1, g2]) == g1 + op + g2 + b
    ensures Interleave([a, op, b], [g1, g2]) == a + g1 + op + g2 + b
  {
    var ts, gaps := [a, op, b], [g1, g2];
    assert !IsWord(op) by { assert op[0] in op; }
    assert IsLexeme(ts[0]) && IsLexeme(ts[1]) && IsLexeme(ts[2]);
    assert Joinable(ts, gaps, 0) && Joinable(ts, gaps, 1);
    TripleText(a, op, b, g1, g2);
  }

  lemma TripleText(a: string, op: string, b: string, g1: string, g2: string)
    ensures Tail([a, op, b], [g1, g2]) == g1 + op + g2 + b
    ensures Interleave([a, op, b], [g1, g2]) == a + g1 + op + g2 + b
  {
    assert Interleave([b], []) == b by { assert b + "" == b; }
    InterleaveStep(op, g2, [b], [], b);
    assert [op] + [b] == [op, b] && [g2] + [] == [g2];
    InterleaveStep(a, g1, [op, b], [g2], op + g2 + b);
    assert [a] + [op, b] == [a, op, b] && [g1] + [g2] == [g1, g2];
    assert [a, op, b][1..] == [op, b] && [g1, g2][1..] == [g2];
  }

  /** The state right after the lexeme `x`, with `done` emitted before it. */
  function After(done: seq<string>, x: string): LexState
  {
    if IsWord(x) then LexState(done, x) else LexState(done + [x], "")
  }

  lemma FlushAfter(done: seq<string>, x: string)
    requires IsLexeme(x)
    ensures Flush(After(done, x).tokens, After(done, x).cur) == done + [x]
  {
  }

  lemma StartLexeme(x: string)
    requires IsLexeme(x)
    ensures Run(Start, x) == After([], x)
  {
    if IsWord(x) {
      RunWord([], "", x);
      assert "" + x == x;
    } else {
      RunSymbol([], "", x);
    }
  }

  /** One gap and the next lexeme `y` after the lexeme `x`. */
  lemma RunNext(done: seq<string>, x: string, g: string, y: string)
    requires IsLexeme(x) && IsLexeme(y) && IsGap(g)
    requires !(x == "*" && y == "*")
    requires g == "" ==> !(IsWord(x) && IsWord(y))
    requires IsWord(x) && g == "" && y == "*" ==> done == [] || done[|done| - 1] != "*"
    ensures Run(After(done, x), g + y) == After(done + [x], y)
  {
    var st := After(done, x);
    var mid := if g == "" then st else LexState(done + [x], "");
    assert forall c <- mid.cur :: IsWordChar(c);
    assert IsWord(y) ==> mid == LexState(done + [x], "");
    assert y == "*" ==> mid.tokens == [] || mid.tokens[|mid.tokens| - 1] != "*";
    calc {
      Run(st, g + y);
      { RunAppend(st, g, y); }
      Run(Run(st, g), y);
      { RunGap(st.tokens, st.cur, g); }
      Run(mid, y);
      { if IsWord(y) {
          RunWord(done + [x], "", y);
          assert "" + y == y;
        } else {
          RunSymbol(mid.tokens, mid.cur, y);
          assert Flush(mid.tokens, mid.cur) == done + [x];
        }
      }
      After(done + [x], y);
    }
  }

  lemma SeparableTail(ts: seq<string>, gaps: seq<string>)
    requires Separable(ts, gaps) && |ts| > 1
    ensures Separable(ts[1..], gaps[1..])
  {
    var rest, restGaps := ts[1..], gaps[1..];
    forall i | 0 <= i < |rest|
      ensures IsLexeme(rest[i])
    {
      assert rest[i] == ts[i + 1];
    }
    forall i | 0 <= i < |restGaps|
      ensures IsGap(restGaps[i]) && Joinable(rest, restGaps, i)
    {
      assert Joinable(ts, gaps, i + 1);
      assert rest[i] == ts[i + 1] && rest[i + 1] == ts[i + 2] && restGaps[i] == gaps[i + 1];
      assert i > 0 ==> rest[i - 1] == ts[i];
    }
  }

  lemma SeparableHead(ts: seq<string>, gaps: seq<string>)
    requires Separable(ts, gaps) && |ts| > 1
    ensures IsLexeme(ts[0]) && IsLexeme(ts[1]) && IsGap(gaps[0])
    ensures !(ts[0] == "*" && ts[1] == "*")
    ensures gaps[0] == "" ==> !(IsWord(ts[0]) && IsWord(ts[1]))
    ensures |ts| > 2 && IsWord(ts[1]) && gaps[1] == "" && ts[2] == "*" ==> ts[0] != "*"
  {
    assert Joinable(ts, gaps, 0);
    if |ts| > 2 {
      assert Joinable(ts, gaps, 1);
    }
  }

  lemma {:induction false} RunTail(done: seq<string>, ts: seq<string>, gaps: seq<string>)
    requires Separable(ts, gaps)
    requires |ts| > 1 && IsWord(ts[0]) && gaps[0] == "" && ts[1] == "*" ==> done == [] || done[|done| - 1] != "*"
    ensures Run(After(done, ts[0]), Tail(ts, gaps)) == After(done + ts[..|ts| - 1], ts[|ts| - 1])
    decreases |ts|
  {
    if |ts| == 1 {
      assert done + ts[..0] == done;
    } else {
      var rest, next := ts[1..], done + [ts[0]];
      RunTailStep(done, ts, gaps);
      calc {
        Run(After(done, ts[0]), Tail(ts, gaps));
        { TailFirst(ts, gaps); }
        Run(After(done, ts[0]), (gaps[0] + ts[1]) + Tail(rest, gaps[1..]));
        { RunNextThen(done, ts[0], gaps[0], ts[1], Tail(rest, gaps[1..])); }
        Run(After(next, ts[1]), Tail(rest, gaps[1..]));
        { assert rest[0] == ts[1]; RunTail(next, rest, gaps[1..]); }
        After(next + rest[..|rest| - 1], rest[|rest| - 1]);
        { assert next + rest[..|rest| - 1] == done + ts[..|ts| - 1]; }
        After(done + ts[..|ts| - 1], ts[|ts| - 1]);
      }
    }
  }

  /** Before the second lexeme of a tail: the remainder is separable, the
      lexemes so far are all emitted, and the first gap's conditions hold. */
  lemma RunTailStep(done: seq<string>, ts: seq<string>, gaps: seq<string>)
    requires Separable(ts, gaps) && |ts| > 1
    requires IsWord(ts[0]) && gaps[0] == "" && ts[1] == "*" ==> done == [] || done[|done| - 1] != "*"
    ensures Separable(ts[1..], gaps[1..])
    ensures |ts[1..]| > 1 && IsWord(ts[1..][0]) && gaps[1..][0] == "" && ts[1..][1] == "*" ==>
      done + [ts[0]] == [] || (done + [ts[0]])[|done + [ts[0]]| - 1] != "*"
    ensures IsLexeme(ts[0]) && IsLexeme(ts[1]) && IsGap(gaps[0])
    ensures !(ts[0] == "*" && ts[1] == "*")
    ensures gaps[0] == "" ==> !(IsWord(ts[0]) && IsWord(ts[1]))
    ensures done + [ts[0]] + ts[1..][..|ts| - 2] == done + ts[..|ts| - 1]
  {
    SeparableHead(ts, gaps);
    SeparableTail(ts, gaps);
    assert ts[..|ts| - 1] == [ts[0]] + ts[1..][..|ts| - 2];
  }

  /** The first gap and the second lexeme head the tail. */
  lemma TailFirst(ts: seq<string>, gaps: seq<string>)
    requires |ts| > 1 && |gaps| == |ts| - 1
    ensures Tail(ts, gaps) == (gaps[0] + ts[1]) + Tail(ts[1..], gaps[1..])
  {
    var more := Tail(ts[1..], gaps[1..]);
    assert Tail(ts, gaps) == gaps[0] + (ts[1] + more);
  }

  /** `RunNext` followed by more text. */
  lemma RunNextThen(done: seq<string>, x: string, g: string, y: string, more: string)
    requires IsLexeme(x) && IsLexeme(y) && IsGap(g)
    requires !(x == "*" && y == "*")
    requires g == "" ==> !(IsWord(x) && IsWord(y))
    requires IsWord(x) && g == "" && y == "*" ==> done == [] || done[|done| - 1] != "*"
    ensures Run(After(done, x), (g + y) + more) == Run(After(done + [x], y), more)
  {
    RunAppend(After(done, x), g + y, more);
    RunNext(done, x, g, y);
  }

  /** The lexer gives back the lexemes it is shown, whatever the gaps. */
  lemma TokensOfInterleave(ts: seq<string>, gaps: seq<string>)
    requires Separable(ts, gaps)
    ensures Tokens(Interleave(ts, gaps)) == ts
  {
    assert IsLexeme(ts[0]);
    StartLexeme(ts[0]);
    RunTail([], ts, gaps);
    RunAppend(Start, ts[0], Tail(ts, gaps));
    assert [] + ts[..|ts| - 1] == ts[..|ts| - 1];
    assert IsLexeme(ts[|ts| - 1]);
    FlushAfter(ts[..|ts| - 1], ts[|ts| - 1]);
    assert ts[..|ts| - 1] + [ts[|ts| - 1]] == ts;
  }

  /** Two written-out runs of lexemes joined by a gap. */
  lemma {:induction false} InterleaveConcat(a: seq<string>, ga: seq<string>, g: string, b: seq<string>, gb: seq<string>)
    requires |a| >= 1 && |ga| == |a| - 1 && |b| >= 1 && |gb| == |b| - 1
    ensures Interleave(a + b, ga + [g] + gb) == Interleave(a, ga) + g + Interleave(b, gb)
    decreases |a|
  {
    var ts, gaps := a + b, ga + [g] + gb;
    assert ts[0] == a[0];
    if |a| == 1 {
      assert ts[1..] == b && gaps[0] == g && gaps[1..] == gb;
      assert Interleave(a, ga) == a[0] by { assert a[0] + "" == a[0]; }
    } else {
      assert ts[1..] == a[1..] + b && gaps[0] == ga[0];
      assert gaps[1..] == ga[1..] + [g] + gb;
      InterleaveConcat(a[1..], ga[1..], g, b, gb);
    }
  }

  /** Two separable runs joined by a gap stay separable when the two
      lexemes meeting at the gap are joinable. */
  lemma SeparableConcat(a: seq<string>, ga: seq<string>, g: string, b: seq<string>, gb: seq<string>)
    requires Separable(a, ga) && Separable(b, gb) && IsGap(g)
    requires !(a[|a| - 1] == "*" && b[0] == "*")
    requires g == "" ==> !(IsWord(a[|a| - 1]) && IsWord(b[0]))
    requires |a| > 1 && IsWord(a[|a| - 1]) && g == "" && b[0] == "*" ==> a[|a| - 2] != "*"
    requires |b| > 1 && IsWord(b[0]) && gb[0] == "" && b[1] == "*" ==> a[|a| - 1] != "*"
    ensures Separable(a + b, ga + [g] + gb)
  {
    var ts, gaps := a + b, ga + [g] + gb;
    assert ts[|a| - 1] == a[|a| - 1] && ts[|a|] == b[0] && gaps[|a| - 1] == g;
    assert |a| > 1 ==> ts[|a| - 2] == a[|a| - 2];
    assert |b| > 1 ==> ts[|a| + 1] == b[1] && gaps[|a|] == gb[0];
    forall i | 0 <= i < |ts|
      ensures IsLexeme(ts[i])
    {
      if i >= |a| {
        assert ts[i] == b[i - |a|];
      }
    }
    forall i | 0 <= i < |gaps|
      ensures IsGap(gaps[i]) && Joinable(ts, gaps, i)
    {
      if i < |a| - 1 {
        assert Joinable(a, ga, i);
        assert gaps[i] == ga[i] && ts[i] == a[i] && ts[i + 1] == a[i + 1];
        assert i > 0 ==> ts[i - 1] == a[i - 1];
      } else if i > |a| {
        var j := i - |a|;
        assert Joinable(b, gb, j);
        assert ts[i] == b[j] && ts[i + 1] == b[j + 1] && ts[i - 1] == b[j - 1] && gaps[i] == gb[j];
      } else if i == |a| {
        assert Joinable(b, gb, 0);
        assert IsGap(gb[0]);
      }
    }
  }

  // -----------------------------------------------------------------------
  // A leading `_ans_`
  // -----------------------------------------------------------------------

  function Prepend(p: seq<string>, st: LexState): LexState
  {
    LexState(p + st.tokens, st.cur)
  }

  /** Emitted tokens in front of the state do not take part in a step,
      unless a `*` could merge into the last of them. */
  lemma StepPrefix(p: seq<string>, st: LexState, c: char)
    requires p == [] || p[|p| - 1] != "*"
    ensures Step(Prepend(p, st), c) == Prepend(p, Step(st, c))
  {
    var n, q := |st.tokens|, p + st.tokens;
    if n > 0 && st.tokens[n - 1] == "*" && c == '*' {
      assert q[|q| - 1] == "*";
      assert q[..|q| - 1] + ["**"] == p + (st.tokens[..n - 1] + ["**"]);
    } else {
      assert !(|q| > 0 && q[|q| - 1] == "*" && c == '*') by {
        if n > 0 {
          assert q[|q| - 1] == st.tokens[n - 1];
        }
      }
      StepPrefixPlain(p, st, c);
    }
  }

  /** `StepPrefix` when no `*` merges, neither with nor without `p`. */
  lemma StepPrefixPlain(p: seq<string>, st: LexState, c: char)
    requires !(|st.tokens| > 0 && st.tokens[|st.tokens| - 1] == "*" && c == '*')
    requires var q := p + st.tokens; !(|q| > 0 && q[|q| - 1] == "*" && c == '*')
    ensures Step(Prepend(p, st), c) == Prepend(p, Step(st, c))
  {
    FlushPrefix(p, st.tokens, st.cur);
    if !IsSingleChar(c) && !IsSpace(c) {
      AppendPrefix(p, st.tokens, st.cur + [c]);
    }
  }

  lemma FlushPrefix(p: seq<string>, ts: seq<string>, cur: string)
    ensures Flush(p + ts, cur) == p + Flush(ts, cur)
    ensures forall x :: Flush(p + ts, cur) + [x] == p + (Flush(ts, cur) + [x])
  {
    assert p + ts + [cur] == p + (ts + [cur]);
  }

  lemma AppendPrefix(p: seq<string>, ts: seq<string>, x: string)
    ensures p + ts + [x] == p + (ts + [x])
  {
  }

  lemma {:induction false} RunPrefix(p: seq<string>, st: LexState, s: string)
    requires p == [] || p[|p| - 1] != "*"
    ensures Run(Prepend(p, st), s) == Prepend(p, Run(st, s))
    decreases |s|
  {
    if s != [] {
      StepPrefix(p, st, s[0]);
      RunPrefix(p, Step(st, s[0]), s[1..]);
    }
  }

  /** Text that starts with an operator character: what `handleInput`
      puts `_ans_` in front of. */
  predicate StartsWithOperator(s: string)
  {
    |s| > 0 && (IsInfixChar(s[0]) || s[0] == '<' || s[0] == '>')
  }

  /** After a pending word, an operator character flushes it. */
  lemma RunAfterPendingWord(w: string, s: string)
    requires IsWord(w) && StartsWithOperator(s)
    ensures Run(LexState([], w), s) == Prepend([w], Run(Start, s))
  {
    var c := s[0];
    assert s == [c] + s[1..];
    RunAppend(LexState([], w), [c], s[1..]);
    RunAppend(Start, [c], s[1..]);
    RunOne(LexState([], w), c);
    RunOne(Start, c);
    if |w| == 1 {
      assert w[0] in w;
    }
    assert Step(LexState([], w), c) == Prepend([w], Step(Start, c));
    assert w != "*" by {
      assert w[0] in w;
    }
    RunPrefix([w], Step(Start, c), s[1..]);
  }

  /** `_ans_` in front of an operator becomes a token of its own, and the
      rest is split as if it stood alone. */
  lemma TokensAfterAns(s: string)
    requires StartsWithOperator(s)
    ensures Tokens("_ans_" + s) == ["_ans_"] + Tokens(s)
  {
    RunWord([], "", "_ans_");
    assert "" + "_ans_" == "_ans_";
    RunAppend(Start, "_ans_", s);
    RunAfterPendingWord("_ans_", s);
    var st := Run(Start, s);
    if |st.cur| > 0 {
      assert ["_ans_"] + st.tokens + [st.cur] == ["_ans_"] + (st.tokens + [st.cur]);
    }
  }

  // -----------------------------------------------------------------------
  // Order of characters
  // -----------------------------------------------------------------------

  /** Without `*` the tokens spell the input with its spaces removed. */
  lemma {:induction false} RunInOrder(st: LexState, s: string)
    requires '*' !in s
    ensures Flat(Run(st, s)) == Flat(st) + NonSpace(s)
    decreases |s|
  {
    if s != [] {
      StepFlat(st, s[0]);
      assert '*' !in s[1..] by {
        assert forall c <- s[1..] :: c in s;
      }
      RunInOrder(Step(st, s[0]), s[1..]);
      assert NonSpace(s) == (if IsSpace(s[0]) then "" else [s[0]]) + NonSpace(s[1..]);
    }
  }

  lemma TokensInOrder(s: string)
    requires '*' !in s
    ensures Concat(Tokens(s)) == NonSpace(s)
  {
    RunInOrder(Start, s);
    var st := Run(Start, s);
    FlushFlat(st.tokens, st.cur);
  }
}
