/**
 * Worked examples: lines typed into a fresh calculator and what they
 * evaluate to, following the expectations in tcalc_test.go and
 * calc_test.go. Each is derived from the general theorems (the lexer
 * gives back separable lexemes, an operator chain is folded from the
 * left) rather than by unfolding the lexer on the text.
 */
module Examples {
  import opened Wrappers
  import opened Int64
  import opened Text
  import opened Lexer
  import opened LexerLaws
  import opened Parser
  import opened Evaluator
  import opened Draw
  import opened Tcalc
  import ExampleLines

  const Fresh := Session(map[], 0, None)

  /** A one-digit literal evaluates to its digit. */
  lemma DigitLeaf(d: char, vars: map<string, int64>, ans: int64)
    requires '0' <= d <= '9'
    ensures LeafValue([d], vars, ans) == d as int - '0' as int
  {
    assert [d][..0] == [];
    assert AllDigits([d]);
    assert BaseValue([d], 10) == d as int - '0' as int;
  }

  /** A one-digit leaf evaluates to its digit and assigns nothing. */
  lemma DigitEval(d: char, vars: map<string, int64>, ans: int64)
    requires '0' <= d <= '9'
    ensures Evaluate(Leaf([d]), vars, ans) == Evaluation(Value(d as int - '0' as int), vars)
  {
    assert [d][0] == d;
    DigitLeaf(d, vars, ans);
  }

  /** A chain of one link folds to the operator applied to both operands. */
  lemma FoldOne(first: string, link: Link, vars: map<string, int64>, ans: int64)
    requires IsChain(first, [link])
    ensures IsBinaryToken(link.op)
    ensures FoldChain(first, [link], vars, ans) == Apply(link.op, LeafValue(first, vars, ans), LeafValue(link.operand, vars, ans))
  {
    assert link in [link];
    assert [link][..0] == [];
  }

  /** A word, an operator and a word with the same gap on both sides:
      the lexemes of a one-link chain. */
  lemma OneLinkTokens(a: string, op: string, b: string, g: string, text: string)
    requires IsWord(a) && IsSymbol(op) && IsWord(b) && IsGap(g)
    requires text == a + g + op + g + b
    ensures ChainTokens(a, [Link(op, b)]) == [a, op, b]
    ensures Separable([a, op, b], [g, g])
    ensures Interleave([a, op, b], [g, g]) == text
  {
    assert [Link(op, b)][..0] == [];
    SeparableTriple(a, op, b, g, g);
  }

  /** Two links, every lexeme set off by one space. */
  lemma TwoLinkTokens(a: string, op1: string, b: string, op2: string, c: string, text: string)
    requires IsWord(a) && IsSymbol(op1) && IsWord(b) && IsSymbol(op2) && IsWord(c)
    requires text == a + " " + (op1 + " " + (b + " " + (op2 + " " + c)))
    ensures ChainTokens(a, [Link(op1, b), Link(op2, c)]) == [a, op1, b, op2, c]
    ensures Separable([a, op1, b, op2, c], [" ", " ", " ", " "])
    ensures Interleave([a, op1, b, op2, c], [" ", " ", " ", " "]) == text
  {
    assert [Link(op1, b), Link(op2, c)][..1] == [Link(op1, b)];
    assert [Link(op1, b)][..0] == [];
    assert ChainTokens(a, [Link(op1, b)]) == [a, op1, b];
    var ts, gaps := [a, op1, b, op2, c], [" ", " ", " ", " "];
    assert a[0] in a && b[0] in b && c[0] in c;
    assert a != "*" && b != "*" && c != "*";
    forall i | 0 <= i < |ts|
      ensures IsLexeme(ts[i])
    {
    }
    forall i | 0 <= i < |gaps|
      ensures IsGap(gaps[i]) && Joinable(ts, gaps, i)
    {
    }
    TwoLinkText(a, op1, b, op2, c);
  }

  lemma TwoLinkText(a: string, op1: string, b: string, op2: string, c: string)
    ensures Interleave([a, op1, b, op2, c], [" ", " ", " ", " "]) == a + " " + (op1 + " " + (b + " " + (op2 + " " + c)))
  {
    assert Interleave([c], []) == c;
    InterleaveStep(op2, " ", [c], [], c);
    assert [op2] + [c] == [op2, c] && [" "] + [] == [" "];
    InterleaveStep(b, " ", [op2, c], [" "], op2 + " " + c);
    assert [b] + [op2, c] == [b, op2, c] && [" "] + [" "] == [" ", " "];
    InterleaveStep(op1, " ", [b, op2, c], [" ", " "], b + " " + (op2 + " " + c));
    assert [op1] + [b, op2, c] == [op1, b, op2, c] && [" "] + [" ", " "] == [" ", " ", " "];
    InterleaveStep(a, " ", [op1, b, op2, c], [" ", " ", " "], op1 + " " + (b + " " + (op2 + " " + c)));
    assert [a] + [op1, b, op2, c] == [a, op1, b, op2, c] && [" "] + [" ", " ", " "] == [" ", " ", " ", " "];
  }

  lemma OnePlusThreePlusTwoValue()
    ensures IsChain("1", [Link("+", "3"), Link("+", "2")])
    ensures FoldChain("1", [Link("+", "3"), Link("+", "2")], map[], 0) == Value(6)
  {
    var links := [Link("+", "3"), Link("+", "2")];
    assert IsChain("1", links);
    assert links[..1] == [Link("+", "3")];
    calc {
      FoldChain("1", links, map[], 0);
      { FoldOne("1", Link("+", "3"), map[], 0); DigitLeaf('1', map[], 0); DigitLeaf('3', map[], 0); }
      Apply("+", Add(1, 3), LeafValue("2", map[], 0));
      { DigitLeaf('2', map[], 0); }
      Apply("+", 4, 2);
      Value(6);
    }
  }

  /** "1 + 3 + 2" gives 6. */
  lemma OnePlusThreePlusTwo()
    ensures Execute(Fresh, "1 + 3 + 2") == Execution(Ok, Session(map[], 6, None))
  {
    TwoLinkTokens("1", "+", "3", "+", "2", "1 + 3 + 2");
    OnePlusThreePlusTwoValue();
    ExecuteChain(Fresh, "1", [Link("+", "3"), Link("+", "2")], [" ", " ", " ", " "]);
  }

  lemma SpacedProductValue()
    ensures IsChain("2", [Link("*", "3"), Link("*", "4")])
    ensures FoldChain("2", [Link("*", "3"), Link("*", "4")], map[], 0) == Value(24)
  {
    var links := [Link("*", "3"), Link("*", "4")];
    assert IsChain("2", links);
    assert links[..1] == [Link("*", "3")];
    FoldOne("2", Link("*", "3"), map[], 0);
    DigitLeaf('2', map[], 0);
    DigitLeaf('3', map[], 0);
    DigitLeaf('4', map[], 0);
    assert Apply("*", 2, 3) == Value(6);
    assert FoldChain("2", links[..1], map[], 0) == Value(6);
    assert Apply("*", 6, 4) == Value(24);
  }

  /** "2 * 3 * 4" gives 24: with spaces between them the two `*` stay apart
      (compare "2*3*4" below). */
  lemma SpacedProduct()
    ensures Execute(Fresh, "2 * 3 * 4") == Execution(Ok, Session(map[], 24, None))
  {
    TwoLinkTokens("2", "*", "3", "*", "4", "2 * 3 * 4");
    SpacedProductValue();
    ExecuteChain(Fresh, "2", [Link("*", "3"), Link("*", "4")], [" ", " ", " ", " "]);
  }

  lemma ShiftLeftValue()
    ensures IsChain("1", [Link("<<", "5")])
    ensures FoldChain("1", [Link("<<", "5")], map[], 0) == Value(32)
  {
    assert IsChain("1", [Link("<<", "5")]);
    calc {
      FoldChain("1", [Link("<<", "5")], map[], 0);
      { FoldOne("1", Link("<<", "5"), map[], 0); DigitLeaf('1', map[], 0); DigitLeaf('5', map[], 0); }
      Apply("<<", 1, 5);
      Value(Shl(1, 5));
      { assert Pow2(5) == 32; }
      Value(32);
    }
  }

  /** "1 << 5" gives 32. */
  lemma ShiftLeft()
    ensures Execute(Fresh, "1 << 5") == Execution(Ok, Session(map[], 32, None))
  {
    OneLinkTokens("1", "<<", "5", " ", "1 << 5");
    ShiftLeftValue();
    ExecuteChain(Fresh, "1", [Link("<<", "5")], [" ", " "]);
  }

  lemma ShiftRightValue()
    ensures IsChain("2", [Link(">>", "1")])
    ensures FoldChain("2", [Link(">>", "1")], map[], 0) == Value(1)
  {
    assert IsChain("2", [Link(">>", "1")]);
    calc {
      FoldChain("2", [Link(">>", "1")], map[], 0);
      { FoldOne("2", Link(">>", "1"), map[], 0); DigitLeaf('2', map[], 0); DigitLeaf('1', map[], 0); }
      Apply(">>", 2, 1);
      Value(Shr(2, 1));
      { assert Pow2(1) == 2; }
      Value(1);
    }
  }

  /** "2>>1" gives 1. */
  lemma ShiftRight()
    ensures Execute(Fresh, "2>>1") == Execution(Ok, Session(map[], 1, None))
  {
    OneLinkTokens("2", ">>", "1", "", "2>>1");
    ShiftRightValue();
    ExecuteChain(Fresh, "2", [Link(">>", "1")], ["", ""]);
  }

  lemma AndBitsValue()
    ensures IsChain("1", [Link("&", "2")])
    ensures FoldChain("1", [Link("&", "2")], map[], 0) == Value(0)
  {
    assert IsChain("1", [Link("&", "2")]);
    calc {
      FoldChain("1", [Link("&", "2")], map[], 0);
      { FoldOne("1", Link("&", "2"), map[], 0); DigitLeaf('1', map[], 0); DigitLeaf('2', map[], 0); }
      Apply("&", 1, 2);
      Value(And(1, 2));
      { assert BitwiseNat(AndOp, 0, 1) == 0; assert BitwiseNat(AndOp, 1, 2) == 0; }
      Value(0);
    }
  }

  /** "1&2" gives 0. */
  lemma AndBits()
    ensures Execute(Fresh, "1&2") == Execution(Ok, Session(map[], 0, None))
  {
    OneLinkTokens("1", "&", "2", "", "1&2");
    AndBitsValue();
    ExecuteChain(Fresh, "1", [Link("&", "2")], ["", ""]);
  }

  lemma OrBitsValue()
    ensures IsChain("1", [Link("|", "2")])
    ensures FoldChain("1", [Link("|", "2")], map[], 0) == Value(3)
  {
    assert IsChain("1", [Link("|", "2")]);
    calc {
      FoldChain("1", [Link("|", "2")], map[], 0);
      { FoldOne("1", Link("|", "2"), map[], 0); DigitLeaf('1', map[], 0); DigitLeaf('2', map[], 0); }
      Apply("|", 1, 2);
      Value(Or(1, 2));
      { assert BitwiseNat(OrOp, 0, 1) == 1; assert BitwiseNat(OrOp, 1, 2) == 3; }
      Value(3);
    }
  }

  /** "1|2" gives 3. */
  lemma OrBits()
    ensures Execute(Fresh, "1|2") == Execution(Ok, Session(map[], 3, None))
  {
    OneLinkTokens("1", "|", "2", "", "1|2");
    OrBitsValue();
    ExecuteChain(Fresh, "1", [Link("|", "2")], ["", ""]);
  }

  lemma XorDisjointValue()
    ensures IsChain("1", [Link("^", "2")])
    ensures FoldChain("1", [Link("^", "2")], map[], 0) == Value(3)
  {
    assert IsChain("1", [Link("^", "2")]);
    calc {
      FoldChain("1", [Link("^", "2")], map[], 0);
      { FoldOne("1", Link("^", "2"), map[], 0); DigitLeaf('1', map[], 0); DigitLeaf('2', map[], 0); }
      Apply("^", 1, 2);
      Value(Xor(1, 2));
      { assert BitwiseNat(XorOp, 0, 1) == 1; assert BitwiseNat(XorOp, 1, 2) == 3; }
      Value(3);
    }
  }

  /** "1^2" gives 3. */
  lemma XorDisjoint()
    ensures Execute(Fresh, "1^2") == Execution(Ok, Session(map[], 3, None))
  {
    OneLinkTokens("1", "^", "2", "", "1^2");
    XorDisjointValue();
    ExecuteChain(Fresh, "1", [Link("^", "2")], ["", ""]);
  }

  lemma XorOverlapValue()
    ensures IsChain("1", [Link("^", "3")])
    ensures FoldChain("1", [Link("^", "3")], map[], 0) == Value(2)
  {
    assert IsChain("1", [Link("^", "3")]);
    calc {
      FoldChain("1", [Link("^", "3")], map[], 0);
      { FoldOne("1", Link("^", "3"), map[], 0); DigitLeaf('1', map[], 0); DigitLeaf('3', map[], 0); }
      Apply("^", 1, 3);
      Value(Xor(1, 3));
      { assert BitwiseNat(XorOp, 0, 1) == 1; assert BitwiseNat(XorOp, 1, 3) == 2; }
      Value(2);
    }
  }

  /** "1^3" gives 2. */
  lemma XorOverlap()
    ensures Execute(Fresh, "1^3") == Execution(Ok, Session(map[], 2, None))
  {
    OneLinkTokens("1", "^", "3", "", "1^3");
    XorOverlapValue();
    ExecuteChain(Fresh, "1", [Link("^", "3")], ["", ""]);
  }

  /** "!1" is one unknown name, which reads as 0. */
  lemma UnknownName()
    ensures Execute(Fresh, "!1") == Execution(Ok, Session(map[], 0, None))
  {
    assert Interleave(["!1"], []) == "!1";
    assert !AllDigits("!1") by { assert !IsDigit("!1"[0]); }
    ExecuteChain(Fresh, "!1", [], []);
  }

  lemma ComplementTokens()
    ensures Tokens("~1") == ["~", "1"]
  {
    assert !IsWord("~") by { assert "~"[0] in "~"; }
    assert Separable(["~", "1"], [""]);
    assert Interleave(["~", "1"], [""]) == "~1";
    TokensOfInterleave(["~", "1"], [""]);
  }

  lemma ComplementTree()
    ensures Parse(["~", "1"]) == ParseOk(Node("~", Nil, Leaf("1")))
  {
  }

  lemma ComplementValue()
    ensures Evaluate(Node("~", Nil, Leaf("1")), map[], 0) == Evaluation(Value(-2), map[])
  {
    DigitEval('1', map[], 0);
  }

  /** "~1" gives -2: the prefix operator flips every bit. */
  lemma Complement()
    ensures Execute(Fresh, "~1") == Execution(Ok, Session(map[], -2, None))
  {
    ComplementTokens();
    ComplementTree();
    ComplementValue();
  }

  lemma OperatorPairTokens()
    ensures Tokens("0+-1") == ["0", "+", "-", "1"]
  {
    ExampleLines.OperatorPairSeparable("0", "+", "-", "1");
    ExampleLines.OperatorPairText();
    TokensOfInterleave(["0", "+", "-", "1"], ["", "", ""]);
  }

  lemma OperatorPairTree()
    ensures Parse(["0", "+", "-", "1"]) == ParseOk(Node("-", Node("+", Leaf("0"), Nil), Leaf("1")))
  {
  }

  lemma OperatorPairValue()
    ensures Evaluate(Node("-", Node("+", Leaf("0"), Nil), Leaf("1")), map[], 0).out == Failure(InvalidOperator)
  {
    DigitEval('0', map[], 0);
  }

  /** "0+-1" is an error: `+` is left without a right operand, so a
      negative literal cannot follow an operator. The answer is kept. */
  lemma OperatorPair()
    ensures Execute(Fresh, "0+-1") == Execution(Failed(InvalidOperator), Session(map[], 0, Some(InvalidOperator)))
  {
    OperatorPairTokens();
    OperatorPairTree();
    OperatorPairValue();
  }

  lemma TildeAfterPlusTokens()
    ensures Tokens("1+~2") == ["1", "+", "~", "2"]
  {
    ExampleLines.OperatorPairSeparable("1", "+", "~", "2");
    ExampleLines.TildeAfterPlusText();
    TokensOfInterleave(["1", "+", "~", "2"], ["", "", ""]);
  }

  lemma TildeAfterPlusTree()
    ensures Parse(["1", "+", "~", "2"]) == ParseOk(Node("+", Leaf("1"), Leaf("2")))
  {
    var ts := ["1", "+", "~", "2"];
    assert !IsInfixToken("~") && !IsInfixToken("2") && !IsInfixToken("1") && IsInfixToken("+");
    assert ParseFrom(ts, 4, Node("+", Leaf("1"), Leaf("2"))) == Parsed(Node("+", Leaf("1"), Leaf("2")));
    assert ParseFrom(ts, 3, Node("+", Leaf("1"), Leaf("~"))) == ParseFrom(ts, 4, Node("+", Leaf("1"), Leaf("2")));
    assert ParseFrom(ts, 2, Node("+", Leaf("1"), Nil)) == ParseFrom(ts, 3, Node("+", Leaf("1"), Leaf("~")));
    assert ParseFrom(ts, 1, Leaf("1")) == ParseFrom(ts, 2, Node("+", Leaf("1"), Nil));
  }

  lemma TildeAfterPlusValue()
    ensures Evaluate(Node("+", Leaf("1"), Leaf("2")), map[], 0) == Evaluation(Value(3), map[])
  {
    DigitEval('1', map[], 0);
    DigitEval('2', map[], 0);
  }

  /** "1+~2" gives 3, not 1 + ~2: `~` lands as the right operand of `+`
      and the `2` after it replaces it. */
  lemma TildeAfterPlus()
    ensures Execute(Fresh, "1+~2") == Execution(Ok, Session(map[], 3, None))
  {
    TildeAfterPlusTokens();
    TildeAfterPlusTree();
    TildeAfterPlusValue();
  }

  lemma PlusAfterShiftTokens()
    ensures Tokens("1<<+2") == ["1", "<<", "+", "2"]
  {
    ExampleLines.OperatorPairSeparable("1", "<<", "+", "2");
    ExampleLines.PlusAfterShiftText();
    TokensOfInterleave(["1", "<<", "+", "2"], ["", "", ""]);
  }

  lemma PlusAfterShiftTree()
    ensures Parse(["1", "<<", "+", "2"]) == ParseOk(Node("+", Node("<<", Leaf("1"), Nil), Leaf("2")))
  {
    var ts := ["1", "<<", "+", "2"];
    var shift := Node("<<", Leaf("1"), Nil);
    assert !IsInfixToken("<<") && !IsInfixToken("2") && !IsInfixToken("1") && IsInfixToken("+");
    assert ParseFrom(ts, 4, Node("+", shift, Leaf("2"))) == Parsed(Node("+", shift, Leaf("2")));
    assert ParseFrom(ts, 3, Node("+", shift, Nil)) == ParseFrom(ts, 4, Node("+", shift, Leaf("2")));
    assert ParseFrom(ts, 2, shift) == ParseFrom(ts, 3, Node("+", shift, Nil));
    assert ParseFrom(ts, 1, Leaf("1")) == ParseFrom(ts, 2, shift);
  }

  lemma PlusAfterShiftValue()
    ensures Evaluate(Node("+", Node("<<", Leaf("1"), Nil), Leaf("2")), map[], 0) == Evaluation(Panic, map[])
  {
    DigitEval('1', map[], 0);
    assert Evaluate(Node("<<", Leaf("1"), Nil), map[], 0) == Evaluation(Panic, map[]);
  }

  /** "1<<+2" is a run-time panic: the shift is left without a count, and
      evaluating the missing count panics. The session is unchanged. */
  lemma PlusAfterShift()
    ensures Execute(Fresh, "1<<+2") == Execution(Crashed, Fresh)
  {
    PlusAfterShiftTokens();
    PlusAfterShiftTree();
    PlusAfterShiftValue();
    assert Parse(Tokens("1<<+2")) == ParseOk(Node("+", Node("<<", Leaf("1"), Nil), Leaf("2")));
  }

  lemma AssignmentTokens()
    ensures Tokens("x=1") == ["x", "=", "1"]
  {
    SeparableTriple("x", "=", "1", "", "");
    assert "x" + "" + "=" + "" + "1" == "x=1";
    TokensOfInterleave(["x", "=", "1"], ["", ""]);
  }

  lemma AssignmentTree()
    ensures Parse(["x", "=", "1"]) == ParseOk(Assign("x", Leaf("1")))
  {
    var ts := ["x", "=", "1"];
    assert ts[2..] == ["1"];
    assert ParseFrom(["1"], 0, Nil) == Parsed(Leaf("1"));
    assert ParseFrom(ts, 1, Leaf("x")) == Parsed(Assign("x", Leaf("1")));
  }

  lemma AssignmentValue()
    ensures Evaluate(Assign("x", Leaf("1")), map[], 0) == Evaluation(Value(1), map["x" := 1])
  {
    DigitEval('1', map[], 0);
  }

  /** "x=1" stores 1 under x and makes it the answer. */
  lemma Assignment()
    ensures Execute(Fresh, "x=1") == Execution(Ok, Session(map["x" := 1], 1, None))
  {
    AssignmentTokens();
    AssignmentTree();
    AssignmentValue();
  }

  /** `a op b` with two words. */
  function Pair(a: string, op: string, b: string): Expr
  {
    Binary(Single(Word(a)), op, Word(b))
  }

  lemma PairTokens(a: string, op: string, b: string)
    requires IsOperand(a) && IsBinaryToken(op) && IsOperand(b)
    ensures TermOk(Group(Pair(a, op, b)))
    ensures TermTokens(Group(Pair(a, op, b))) == ["(", a, op, b, ")"]
  {
    assert ExprTokens(Single(Word(a))) == [a];
    assert TermTokens(Word(b)) == [b];
    assert ExprTokens(Pair(a, op, b)) == [a] + [op] + [b];
    assert TermTokens(Group(Pair(a, op, b))) == ["("] + ([a] + [op] + [b]) + [")"];
    assert ExprOk(Single(Word(a)));
  }

  /** `1 * (3 + 2)` */
  const TimesSum := Binary(Single(Word("1")), "*", Group(Pair("3", "+", "2")))

  lemma TimesSumTokens()
    ensures ExprOk(TimesSum)
    ensures ExprTokens(TimesSum) == ExampleLines.TimesSum
  {
    PairTokens("3", "+", "2");
  }

  lemma TimesSumValue()
    ensures ExprValue(TimesSum, map[], 0) == Value(5)
  {
    DigitLeaf('1', map[], 0);
    DigitLeaf('3', map[], 0);
    DigitLeaf('2', map[], 0);
    assert Apply("+", 3, 2) == Value(5);
    assert Apply("*", 1, 5) == Value(5);
  }

  /** "1 * (3 + 2)" gives 5: a parenthesised group is evaluated first. */
  lemma TimesGroup()
    ensures Execute(Fresh, "1 * (3 + 2)") == Execution(Ok, Session(map[], 5, None))
  {
    TimesSumTokens();
    ExampleLines.TimesSumSeparable();
    ExampleLines.TimesSumText();
    TimesSumValue();
    ExecuteGrouped(Fresh, TimesSum, ExampleLines.TimesSumGaps);
  }

  /** `1 * (3 + 2) * (5 + 6)` */
  const TwoGroups := Binary(TimesSum, "*", Group(Pair("5", "+", "6")))

  lemma TwoGroupsTokens()
    ensures ExprOk(TwoGroups)
    ensures ExprTokens(TwoGroups) == ExampleLines.TimesSum + ExampleLines.RightGroup
  {
    TimesSumTokens();
    PairTokens("5", "+", "6");
  }

  lemma TwoGroupsValue()
    ensures ExprValue(TwoGroups, map[], 0) == Value(55)
  {
    TimesSumValue();
    DigitLeaf('5', map[], 0);
    DigitLeaf('6', map[], 0);
    assert Apply("+", 5, 6) == Value(11);
    assert Apply("*", 5, 11) == Value(55);
  }

  /** "1 * (3 + 2)*(5+6)" gives 55: each group is evaluated on its own and
      the products are taken from the left. */
  lemma TwoGroupsExample()
    ensures Execute(Fresh, "1 * (3 + 2)*(5+6)") == Execution(Ok, Session(map[], 55, None))
  {
    TwoGroupsTokens();
    ExampleLines.TwoGroupsSeparable();
    ExampleLines.TwoGroupsText();
    TwoGroupsValue();
    ExecuteGrouped(Fresh, TwoGroups, ExampleLines.TimesSumGaps + [""] + ExampleLines.RightGroupGaps);
  }

  /** `2 * (3 + 2) - 1` */
  const NestedBody := Binary(Binary(Single(Word("2")), "*", Group(Pair("3", "+", "2"))), "-", Word("1"))

  /** `(2 * (3 + 2) - 1) + 1 / 1 * 3`: a group holding a group. */
  const NestedThenChain := Binary(Binary(Binary(Single(Group(NestedBody)), "+", Word("1")), "/", Word("1")), "*", Word("3"))

  lemma NestedBodyTokens()
    ensures ExprOk(NestedBody)
    ensures ExprTokens(NestedBody) == ["2", "*"] + ExampleLines.SumGroup + ["-", "1"]
  {
    PairTokens("3", "+", "2");
  }

  lemma NestedTokens()
    ensures ExprOk(NestedThenChain)
    ensures ExprTokens(NestedThenChain) == ExampleLines.Nested
  {
    NestedBodyTokens();
    var inner := ["("] + (["2", "*"] + ExampleLines.SumGroup + ["-", "1"]) + [")"];
    assert TermTokens(Group(NestedBody)) == inner;
    assert ExprTokens(NestedThenChain) == inner + ["+", "1"] + ["/", "1"] + ["*", "3"];
  }

  lemma NestedValue()
    ensures ExprValue(NestedThenChain, map[], 0) == Value(30)
  {
    DigitLeaf('1', map[], 0);
    DigitLeaf('2', map[], 0);
    DigitLeaf('3', map[], 0);
    assert Apply("+", 3, 2) == Value(5);
    assert Apply("*", 2, 5) == Value(10);
    assert Apply("-", 10, 1) == Value(9);
    assert Apply("+", 9, 1) == Value(10);
    assert Apply("/", 10, 1) == Value(10);
    assert Apply("*", 10, 3) == Value(30);
  }

  /** "(2 * (3 + 2) - 1)+ 1 / 1*3" gives 30: the nested group gives 9, and
      then 9 + 1, / 1 and * 3 are applied from the left. */
  lemma NestedExample()
    ensures Execute(Fresh, "(2 * (3 + 2) - 1)+ 1 / 1*3") == Execution(Ok, Session(map[], 30, None))
  {
    NestedTokens();
    ExampleLines.NestedSeparable();
    ExampleLines.NestedText();
    NestedValue();
    ExecuteGrouped(Fresh, NestedThenChain, ExampleLines.NestedGaps);
  }

  /** "3*4" after "2*": the second `*` lands on the emitted one. */
  lemma ProductRunTail()
    ensures Run(LexState(["2", "*"], ""), "3*4") == LexState(["2", "**"], "34")
  {
    var done := LexState(["2", "**"], "34");
    assert Run(LexState(["2", "**"], "3"), "4") == done by {
      assert "3" + ['4'] == "34";
      assert !IsLength2Operator("34") by { assert "34"[0] == '3'; }
      RunCons(LexState(["2", "**"], "3"), '4', "", done);
    }
    assert Run(LexState(["2", "*"], "3"), "*4") == done by {
      assert Step(LexState(["2", "*"], "3"), '*') == LexState(["2", "**"], "3");
      RunCons(LexState(["2", "*"], "3"), '*', "4", done);
    }
    assert Step(LexState(["2", "*"], ""), '3') == LexState(["2", "*"], "3");
    RunCons(LexState(["2", "*"], ""), '3', "*4", done);
  }

  lemma ProductRun()
    ensures Run(Start, "2*3*4") == LexState(["2", "**"], "34")
  {
    ProductRunTail();
    ProductRunHead(LexState(["2", "**"], "34"));
  }

  lemma ProductRunHead(r: LexState)
    requires Run(LexState(["2", "*"], ""), "3*4") == r
    ensures Run(Start, "2*3*4") == r
  {
    ProductRunSecond(r);
    assert Step(Start, '2') == LexState([], "2");
    RunCons(Start, '2', "*3*4", r);
  }

  lemma ProductRunSecond(r: LexState)
    requires Run(LexState(["2", "*"], ""), "3*4") == r
    ensures Run(LexState([], "2"), "*3*4") == r
  {
    assert Step(LexState([], "2"), '*') == LexState(["2", "*"], "");
    RunCons(LexState([], "2"), '*', "3*4", r);
  }

  lemma ProductTokens()
    ensures Tokens("2*3*4") == ["2", "**", "34"]
  {
    ProductRun();
  }

  lemma ProductTree()
    ensures Parse(["2", "**", "34"]) == ParseOk(Node("**", Leaf("2"), Leaf("34")))
    ensures Evaluate(Node("**", Leaf("2"), Leaf("34")), map[], 0).out == Failure(InvalidOperator)
  {
    ProductParse();
    ProductValue();
  }

  lemma ProductParse()
    ensures Parse(["2", "**", "34"]) == ParseOk(Node("**", Leaf("2"), Leaf("34")))
  {
  }

  lemma ProductValue()
    ensures Evaluate(Node("**", Leaf("2"), Leaf("34")), map[], 0).out == Failure(InvalidOperator)
  {
  }

  /** "2*3*4" is an error rather than 24: the second `*` joins the first
      one, which was emitted already, into `**` while "3" is still pending,
      so the tokens are 2, ** and 34, and `**` is not an operator the
      evaluator knows. */
  lemma ThreeFactors()
    ensures Tokens("2*3*4") == ["2", "**", "34"]
    ensures Execute(Fresh, "2*3*4") == Execution(Failed(InvalidOperator), Session(map[], 0, Some(InvalidOperator)))
  {
    ProductTokens();
    ProductTree();
  }

  lemma LessRun()
    ensures Run(Start, "1<5") == LexState(["1"], "<5")
  {
    var done := LexState(["1"], "<5");
    assert Run(LexState(["1"], "<"), "5") == done by {
      assert "<" + ['5'] == "<5";
      assert !IsLength2Operator("<5") by { assert "<5"[1] == '5'; }
      RunCons(LexState(["1"], "<"), '5', "", done);
    }
    assert Run(LexState([], "1"), "<5") == done by {
      assert Step(LexState([], "1"), '<') == LexState(["1"], "<");
      RunCons(LexState([], "1"), '<', "5", done);
    }
    assert Step(Start, '1') == LexState([], "1");
    RunCons(Start, '1', "<5", done);
  }

  lemma LessTree()
    ensures Parse(["1", "<5"]) == ParseOk(Node("1", Nil, Leaf("<5")))
  {
    var ts := ["1", "<5"];
    assert !IsInfixToken("<5") by { assert "<5"[0] == '<'; }
    assert !IsInfixToken("1") by { assert "1"[0] == '1'; }
    assert "<5" != "<<" && "<5" != ">>" by { assert "<5"[1] == '5'; }
    assert ParseFrom(ts, 1, Leaf("1")) == ParseFrom(ts, 2, Node("1", Nil, Leaf("<5")));
    assert ParseFrom(ts, 0, Nil) == ParseFrom(ts, 1, Leaf("1"));
  }

  lemma LessValue()
    ensures Evaluate(Node("1", Nil, Leaf("<5")), map[], 0) == Evaluation(Value(1), map[])
  {
    assert !IsInfixChar("1"[0]) && !IsPrefixChar("1"[0]);
    ParseItoa(1);
    assert Itoa(1) == "1";
  }

  /** "1<5" is not a comparison: a single `<` stays in the pending word,
      so the tokens are 1 and <5; the word <5 becomes the right child of
      the leaf 1, which the evaluation of a leaf never reads, and the line
      gives 1. */
  lemma SingleLess()
    ensures Tokens("1<5") == ["1", "<5"]
    ensures Execute(Fresh, "1<5") == Execution(Ok, Session(map[], 1, None))
  {
    LessRun();
    LessTree();
    LessValue();
  }

  /** The click test: column 14 (group 1, place 0) in grid row 5 from the
      bottom selects bit 75. */
  lemma ClickExample()
    ensures BitFromXY(14, 5) == 75
  {
    ClickColumns(4);
    assert ValidClickXs[4] == 14;
    assert IndexOf(ValidClickXs, 14) == 4;
  }

  /** Column 15 lies between two digits and selects bit 0. */
  lemma ClickBetweenDigits()
    ensures BitFromXY(15, 5) == 0
  {
    assert forall i :: 0 <= i < 16 ==> ValidClickXs[i] != 15;
    assert 15 !in ValidClickXs;
  }

  /** The panel lines for 255. */
  lemma PanelExample()
    ensures Ascii(65) == "ascii: A\n"
    ensures DecimalLine(255) == "Decimal: 255\n"
    ensures HexLine(255) == "Hex: ff\n"
  {
    AsciiPrintable(65);
    assert NatToBase(255, 10) == NatToBase(25, 10) + "5";
    assert NatToBase(25, 10) == NatToBase(2, 10) + "5";
    assert NatToBase(255, 16) == NatToBase(15, 16) + "f";
  }

  lemma ContinueLexemes()
    ensures ChainTokens("_ans_", [Link("+", "1")]) == ["_ans_", "+", "1"]
    ensures Separable(["_ans_", "+", "1"], [""] + [""])
    ensures Tail(["_ans_", "+", "1"], [""] + [""]) == "+1"
  {
    assert [""] + [""] == ["", ""];
    assert [Link("+", "1")][..0] == [];
    SeparableTriple("_ans_", "+", "1", "", "");
  }

  lemma ContinueFold()
    ensures IsChain("_ans_", [Link("+", "1")])
    ensures FoldChain("_ans_", [Link("+", "1")], map[], 5) == Value(6)
  {
    assert !AllDigits("_ans_") by { assert !IsDigit("_ans_"[0]); }
    assert IsChain("_ans_", [Link("+", "1")]);
    FoldOne("_ans_", Link("+", "1"), map[], 5);
    assert LeafValue("_ans_", map[], 5) == 5;
    DigitLeaf('1', map[], 5);
    assert LeafValue("1", map[], 5) == 1;
    assert Apply("+", 5, 1) == Value(6);
  }

  lemma ContinueExecute(c: Screen)
    requires c.session == Session(map[], 5, None) && c.input == "+1"
    ensures WithAns(c.input) == "_ans_+1"
    ensures Execute(c.session, "_ans_+1") == ChainExecution(c.session, Value(6))
  {
    ContinueLexemes();
    ContinueFold();
    EnterContinuesFromAns(c, [Link("+", "1")], [""]);
    ContinueText();
  }

  lemma ContinueText()
    ensures "_ans_" + "+1" == "_ans_+1"
  {
  }

  lemma ContinueRecord()
    ensures ReplaceAll("_ans_+1", "_ans_", AnsText(5)) == "5+1"
  {
    assert !Contains("+1", "_ans_");
    RecordOfContinuation("+1", 5);
    assert AnsText(5) == "5";
    assert "_ans_" + "+1" == "_ans_+1";
  }

  /** After "5" was entered, typing "+1" and enter evaluates 5 + 1: the
      answer becomes 6 and the history shows the line as "5+1". */
  lemma ContinueExample(c: Screen)
    requires c.session == Session(map[], 5, None) && c.input == "+1"
    ensures var r := Handle(c, ['\r']);
      && r.reaction == Continue
      && r.after.session == Session(map[], 6, None)
      && r.after.history == c.history + [HistoryRecord("5+1", 6)]
      && r.after.input == ""
  {
    ContinueExecute(c);
    assert ChainExecution(c.session, Value(6)) == Execution(Ok, Session(map[], 6, None));
    ContinueRecord();
  }
}
