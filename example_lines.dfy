/**
 * The lines of the worked examples with parenthesised groups, written out
 * from their lexemes: each short piece is checked to lex back on its own,
 * and the pieces are joined with `SeparableConcat` and `InterleaveConcat`.
 */
module ExampleLines {
  import opened Lexer
  import opened LexerLaws

  /** Symbols are not words. */
  lemma SymbolsAreNotWords()
    ensures !IsWord("(") && !IsWord(")") && !IsWord("*") && !IsWord("+")
  {
    assert "("[0] in "(" && ")"[0] in ")" && "*"[0] in "*" && "+"[0] in "+";
  }

  // -----------------------------------------------------------------------
  // Two operators in a row
  // -----------------------------------------------------------------------

  /** A word, two operators and a word written without spaces lex apart,
      unless both operators are `*`. */
  lemma OperatorPairSeparable(a: string, op1: string, op2: string, b: string)
    requires IsWord(a) && IsSymbol(op1) && IsSymbol(op2) && IsWord(b)
    requires !(op1 == "*" && op2 == "*")
    ensures Separable([a, op1, op2, b], ["", "", ""])
  {
    assert op1[0] in op1 && op2[0] in op2;
  }

  lemma OperatorPairText()
    ensures Interleave(["0", "+", "-", "1"], ["", "", ""]) == "0+-1"
  {
  }

  lemma TildeAfterPlusText()
    ensures Interleave(["1", "+", "~", "2"], ["", "", ""]) == "1+~2"
  {
  }

  lemma PlusAfterShiftText()
    ensures Interleave(["1", "<<", "+", "2"], ["", "", ""]) == "1<<+2"
  {
  }

  // -----------------------------------------------------------------------
  // Pieces
  // -----------------------------------------------------------------------

  /** `(3 + 2)`, which both lines contain. */
  const SumGroup := ["(", "3", "+", "2", ")"]
  const SumGroupGaps := ["", " ", " ", ""]

  lemma SumGroupSeparable()
    ensures Separable(["(", "3", "+", "2", ")"], ["", " ", " ", ""])
  {
    SymbolsAreNotWords();
  }

  lemma SumGroupText()
    ensures Interleave(["(", "3", "+", "2", ")"], ["", " ", " ", ""]) == "(3 + 2)"
  {
  }

  lemma OneTimesSeparable()
    ensures Separable(["1", "*"], [" "])
  {
    SymbolsAreNotWords();
  }

  lemma OneTimesText()
    ensures Interleave(["1", "*"], [" "]) == "1 *"
  {
  }

  const RightGroup := ["*", "(", "5", "+", "6", ")"]
  const RightGroupGaps := ["", "", "", "", ""]

  lemma RightGroupSeparable()
    ensures Separable(["*", "(", "5", "+", "6", ")"], ["", "", "", "", ""])
  {
    SymbolsAreNotWords();
  }

  lemma RightGroupText()
    ensures Interleave(["*", "(", "5", "+", "6", ")"], ["", "", "", "", ""]) == "*(5+6)"
  {
  }

  lemma TwoTimesSeparable()
    ensures Separable(["(", "2", "*"], ["", " "])
  {
    SymbolsAreNotWords();
  }

  lemma TwoTimesText()
    ensures Interleave(["(", "2", "*"], ["", " "]) == "(2 *"
  {
  }

  const MinusOne := ["-", "1", ")", "+"]
  const MinusOneGaps := [" ", "", ""]

  lemma MinusOneSeparable()
    ensures Separable(["-", "1", ")", "+"], [" ", "", ""])
  {
    SymbolsAreNotWords();
  }

  lemma MinusOneText()
    ensures Interleave(["-", "1", ")", "+"], [" ", "", ""]) == "- 1)+"
  {
  }

  const Chain := ["1", "/", "1", "*", "3"]
  const ChainGaps := [" ", " ", "", ""]

  lemma ChainSeparable()
    ensures Separable(["1", "/", "1", "*", "3"], [" ", " ", "", ""])
  {
    SymbolsAreNotWords();
  }

  lemma ChainText()
    ensures Interleave(["1", "/", "1", "*", "3"], [" ", " ", "", ""]) == "1 / 1*3"
  {
  }

  // -----------------------------------------------------------------------
  // "1 * (3 + 2)" and "1 * (3 + 2)*(5+6)"
  // -----------------------------------------------------------------------

  const TimesSum := ["1", "*"] + SumGroup
  const TimesSumGaps := [" "] + [" "] + SumGroupGaps

  lemma TimesSumSeparable()
    ensures Separable(TimesSum, TimesSumGaps)
  {
    OneTimesSeparable();
    SumGroupSeparable();
    SymbolsAreNotWords();
    SeparableConcat(["1", "*"], [" "], " ", SumGroup, SumGroupGaps);
  }

  lemma TimesSumText()
    ensures Interleave(TimesSum, TimesSumGaps) == "1 * (3 + 2)"
  {
    OneTimesText();
    SumGroupText();
    InterleaveConcat(["1", "*"], [" "], " ", SumGroup, SumGroupGaps);
  }

  lemma TwoGroupsSeparable()
    ensures Separable(TimesSum + RightGroup, TimesSumGaps + [""] + RightGroupGaps)
  {
    TimesSumSeparable();
    RightGroupSeparable();
    SymbolsAreNotWords();
    assert TimesSum[|TimesSum| - 1] == ")";
    SeparableConcat(TimesSum, TimesSumGaps, "", RightGroup, RightGroupGaps);
  }

  lemma TwoGroupsText()
    ensures Interleave(TimesSum + RightGroup, TimesSumGaps + [""] + RightGroupGaps) == "1 * (3 + 2)*(5+6)"
  {
    TimesSumText();
    RightGroupText();
    InterleaveConcat(TimesSum, TimesSumGaps, "", RightGroup, RightGroupGaps);
  }

  // -----------------------------------------------------------------------
  // "(2 * (3 + 2) - 1)+ 1 / 1*3"
  // -----------------------------------------------------------------------

  const NestedFront := ["(", "2", "*"] + SumGroup
  const NestedFrontGaps := ["", " "] + [" "] + SumGroupGaps
  const NestedHead := NestedFront + MinusOne
  const NestedHeadGaps := NestedFrontGaps + [" "] + MinusOneGaps
  const Nested := NestedHead + Chain
  const NestedGaps := NestedHeadGaps + [" "] + ChainGaps

  lemma NestedFrontSeparable()
    ensures Separable(NestedFront, NestedFrontGaps)
  {
    TwoTimesSeparable();
    SumGroupSeparable();
    SymbolsAreNotWords();
    SeparableConcat(["(", "2", "*"], ["", " "], " ", SumGroup, SumGroupGaps);
  }

  lemma NestedFrontText()
    ensures Interleave(NestedFront, NestedFrontGaps) == "(2 * (3 + 2)"
  {
    TwoTimesText();
    SumGroupText();
    InterleaveConcat(["(", "2", "*"], ["", " "], " ", SumGroup, SumGroupGaps);
  }

  lemma NestedHeadSeparable()
    ensures Separable(NestedHead, NestedHeadGaps)
  {
    NestedFrontSeparable();
    MinusOneSeparable();
    SymbolsAreNotWords();
    assert NestedFront[|NestedFront| - 1] == ")";
    SeparableConcat(NestedFront, NestedFrontGaps, " ", MinusOne, MinusOneGaps);
  }

  lemma NestedHeadText()
    ensures Interleave(NestedHead, NestedHeadGaps) == "(2 * (3 + 2) - 1)+"
  {
    NestedFrontText();
    MinusOneText();
    InterleaveConcat(NestedFront, NestedFrontGaps, " ", MinusOne, MinusOneGaps);
  }

  lemma NestedSeparable()
    ensures Separable(Nested, NestedGaps)
  {
    NestedHeadSeparable();
    ChainSeparable();
    SymbolsAreNotWords();
    assert NestedHead[|NestedHead| - 1] == "+";
    SeparableConcat(NestedHead, NestedHeadGaps, " ", Chain, ChainGaps);
  }

  lemma NestedText()
    ensures Interleave(Nested, NestedGaps) == "(2 * (3 + 2) - 1)+ 1 / 1*3"
  {
    NestedHeadText();
    ChainText();
    InterleaveConcat(NestedHead, NestedHeadGaps, " ", Chain, ChainGaps);
  }
}
