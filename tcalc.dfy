/**
 * The terminal front end of tcalc.go: the line editor with its history of
 * evaluated lines (`handleInput`), and the mouse clicks on the bit grid
 * that toggle single bits of the answer (`determineBitFromXY` and the click
 * handling of the frame callback).
 */
module Tcalc {
  import opened Wrappers
  import opened Int64
  import opened Text
  import opened Lexer
  import opened LexerLaws
  import opened Parser
  import opened Evaluator
  import opened Draw

  /** One evaluated line: the text shown (with `_ans_` replaced by the
      answer it referred to) and the answer it produced. */
  datatype HistoryRecord = HistoryRecord(evaluated: string, finalValue: int64)

  /** The 1-based screen columns of the 16 digits of a grid row. */
  const ValidClickXs: seq<int> := [5, 7, 9, 11, 14, 16, 18, 20, 23, 25, 27, 29, 32, 34, 36, 38]

  // Keys, as the bytes the terminal delivers.
  const Interrupt := '\U{3}'
  const Backspace := '\U{7F}'
  const HomeKey := "\U{1B}[H"
  const EndKey := "\U{1B}[F"
  const RightKey := "\U{1B}[C"
  const LeftKey := "\U{1B}[D"
  const UpKey := "\U{1B}[A"
  const DownKey := "\U{1B}[B"
  const DeleteKey := "\U{1B}[3~"

  function Max(a: int, b: int): int { if a >= b then a else b }

  function Min(a: int, b: int): int { if a <= b then a else b }

  /** Go's `%` for a positive divisor: the remainder takes the sign of `a`. */
  function GoRem(a: int, n: int): (r: int)
    requires n > 0
    ensures a >= 0 ==> 0 <= r < n
    ensures a < 0 ==> -n < r <= 0
  {
    if a >= 0 then a % n else -((-a) % n)
  }

  /** Go's `%` is what remains after taking away `n` times the quotient
      rounded toward zero. */
  lemma GoRemValue(a: int, n: int)
    requires n > 0
    ensures GoRem(a, n) == a - n * TruncQuot(a, n)
  {
    if a >= 0 {
      assert a == n * (a / n) + a % n;
    } else {
      assert -a == n * ((-a) / n) + (-a) % n;
    }
  }

  // -----------------------------------------------------------------------
  // Line editing
  // -----------------------------------------------------------------------

  /** `before + d + after` around the cursor. */
  function Insert(s: string, i: int, d: string): (r: string)
    requires 0 <= i <= |s|
    ensures |r| == |s| + |d| && r[i..i + |d|] == d
    ensures r[..i] == s[..i] && r[i + |d|..] == s[i..]
  {
    s[..i] + d + s[i..]
  }

  /** Backspace: the character left of the cursor goes, if there is one. */
  function Erase(s: string, i: int): (r: string)
    requires 0 <= i <= |s|
    ensures i == 0 ==> r == s
    ensures i > 0 ==> |r| == |s| - 1 && r[..i - 1] == s[..i - 1] && r[i - 1..] == s[i..]
  {
    s[..Max(0, i - 1)] + s[i..]
  }

  /** Delete: the character under the cursor goes, if there is one. */
  function DeleteAt(s: string, i: int): (r: string)
    requires 0 <= i <= |s|
    ensures i == |s| ==> r == s
    ensures i < |s| ==> |r| == |s| - 1 && r[..i] == s[..i] && r[i..] == s[i + 1..]
  {
    s[..i] + s[Min(|s|, i + 1)..]
  }

  /** Backspace right after typing a character removes it again. */
  lemma EraseInsert(s: string, i: int, ch: char)
    requires 0 <= i <= |s|
    ensures Erase(Insert(s, i, [ch]), i + 1) == s
  {
    var t := Insert(s, i, [ch]);
    assert t[..i] == s[..i];
    assert t[i + 1..] == s[i..];
    assert s[..i] + s[i..] == s;
  }

  /** Delete on a character just typed, after moving back over it, removes it. */
  lemma DeleteInsert(s: string, i: int, ch: char)
    requires 0 <= i <= |s|
    ensures DeleteAt(Insert(s, i, [ch]), i) == s
  {
    var t := Insert(s, i, [ch]);
    assert t[..i] == s[..i];
    assert t[i + 1..] == s[i..];
    assert s[..i] + s[i..] == s;
  }

  // -----------------------------------------------------------------------
  // History navigation
  // -----------------------------------------------------------------------

  /** The record selected by the up arrow: from "none" (-1) or the first
      record it wraps to the last one, otherwise it goes one back. */
  function RecordUp(k: int, n: int): int
  {
    if k == -1 then k + n else if k == 0 then k + n - 1 else k - 1
  }

  /** The record selected by the down arrow: one forward, wrapping. */
  function RecordDown(k: int, n: int): int
    requires n > 0
  {
    GoRem(k + 1, n)
  }

  /** Up and down undo each other on a selected record, and both keep the
      selection inside the history. */
  lemma RecordUpDown(k: int, n: int)
    requires n > 1 && -1 <= k < n
    ensures 0 <= RecordUp(k, n) < n && 0 <= RecordDown(k, n) < n
    ensures k >= 0 ==> RecordDown(RecordUp(k, n), n) == k
    ensures k >= 0 ==> RecordUp(RecordDown(k, n), n) == k
  {
    RemBelowTwice(k + 1, n);
    if k >= 0 {
      RemBelowTwice(RecordUp(k, n) + 1, n);
    }
  }

  /** Go's `%` on a value in [0, 2n) subtracts n at most once. */
  lemma RemBelowTwice(a: int, n: int)
    requires n > 0 && 0 <= a < 2 * n
    ensures GoRem(a, n) == if a < n then a else a - n
  {
    var q := TruncQuot(a, n);
    GoRemValue(a, n);
    assert 0 <= GoRem(a, n) < n && GoRem(a, n) == a - n * q;
    QuotientBelowTwice(a, n, q);
  }

  /** A multiple `n * q` in `(a - n, a]`, for `a` in `[0, 2n)`, is `0` or `n`. */
  lemma QuotientBelowTwice(a: int, n: int, q: int)
    requires n > 0 && 0 <= a < 2 * n && a - n < n * q <= a
    ensures n * q == if a < n then 0 else n
  {
    if q >= 2 {
      assert n * q == 2 * n + n * (q - 2);
    } else if q <= -1 {
      assert n * q == -n + n * (q + 1);
    }
  }

  // -----------------------------------------------------------------------
  // The editor state and one key press
  // -----------------------------------------------------------------------

  /** The escape sequences of the editing keys are pairwise different, so
      at most one branch of the key switch applies. */
  lemma KeysDiffer()
    ensures HomeKey != EndKey && HomeKey != RightKey && HomeKey != LeftKey && HomeKey != UpKey && HomeKey != DownKey && HomeKey != DeleteKey
    ensures EndKey != RightKey && EndKey != LeftKey && EndKey != UpKey && EndKey != DownKey && EndKey != DeleteKey
    ensures RightKey != LeftKey && RightKey != UpKey && RightKey != DownKey && RightKey != DeleteKey
    ensures LeftKey != UpKey && LeftKey != DownKey && LeftKey != DeleteKey
    ensures UpKey != DownKey && UpKey != DeleteKey
    ensures DownKey != DeleteKey
  {
    assert HomeKey[2] == 'H' && EndKey[2] == 'F' && RightKey[2] == 'C' && LeftKey[2] == 'D';
    assert UpKey[2] == 'A' && DownKey[2] == 'B' && |DeleteKey| == 4;
  }

  /** The fields of Go's `config` that `handleInput` reads and writes, as a
      value (the terminal handle is not part of the model). */
  datatype Screen = Screen(
    session: Session,
    input: string,
    index: int,
    bitset: int,
    history: seq<HistoryRecord>,
    curRecord: int)

  /** What a key press leads to: keep running, stop the program, or a
      run-time panic. */
  datatype Reaction = Continue | Quit | Crash

  datatype Handled = Handled(reaction: Reaction, after: Screen)

  /** The configuration `main` starts with. */
  const Initial := Screen(Session(map[], 0, None), "", 0, -1, [HistoryRecord("0", 0)], -1)

  /** The cursor lies within the input and the selected record, if any,
      within the history. */
  predicate Valid(c: Screen)
  {
    0 <= c.index <= |c.input| && -1 <= c.curRecord < |c.history|
  }

  /** A line that starts with an infix operator, or with `<<` or `>>` and
      more, continues from the previous answer. */
  function WithAns(input: string): (r: string)
    ensures r == input || r == "_ans_" + input
    ensures |input| > 0 && IsInfixChar(input[0]) ==> r == "_ans_" + input
    ensures |input| > 2 && IsLength2Operator(input[..2]) ==> r == "_ans_" + input
    ensures r != input ==> StartsWithOperator(input)
    ensures r != input && !IsInfixChar(input[0]) ==> |input| > 2 && IsLength2Operator(input[..2])
  {
    if (|input| > 2 && IsLength2Operator(input[..2])) || (|input| > 0 && IsInfixChar(input[0])) then "_ans_" + input
    else input
  }

  /** The answer as it replaces `_ans_` in the history: negative values are
      parenthesised. */
  function AnsText(ans: int64): (t: string)
    ensures ans >= 0 ==> t == Itoa(ans)
    ensures ans < 0 ==> t == "(" + Itoa(ans) + ")"
  {
    var s := Itoa(ans);
    if s[0] == '-' then "(" + s + ")" else s
  }

  /** Enter: evaluate the line; on success record it in the history and
      clear it, on error clear it and keep the answer. */
  function Submitted(c: Screen): (r: Handled)
    ensures var e := Execute(c.session, WithAns(c.input));
      && (r.reaction.Crash? <==> e.status.Crashed?)
      && !r.reaction.Quit?
      && (r.reaction.Continue? ==> r.after.input == "" && r.after.index == 0 && r.after.curRecord == c.curRecord)
      && (e.status.Failed? ==> r.after.history == c.history && r.after.session.ans == c.session.ans)
      && (e.status.Ok? ==>
            r.after.session == e.after
            && |r.after.history| == |c.history| + 1
            && r.after.history[..|c.history|] == c.history
            && r.after.history[|c.history|].finalValue == e.after.ans
            && r.after.history[|c.history|].evaluated ==
                 if c.input == "" then Itoa(e.after.ans) else ReplaceAll(WithAns(c.input), "_ans_", AnsText(c.session.ans)))
  {
    Recorded(c, Execute(c.session, WithAns(c.input)))
  }

  /** What enter leaves behind once the line `WithAns(c.input)` has been
      executed with outcome `e`. */
  function Recorded(c: Screen, e: Execution): (r: Handled)
    ensures (r.reaction.Crash? <==> e.status.Crashed?) && !r.reaction.Quit?
    ensures r.reaction.Continue? ==> r.after.input == "" && r.after.index == 0 && r.after.curRecord == c.curRecord
    ensures e.status.Failed? ==> r.after.history == c.history && r.after.session == e.after.(ans := c.session.ans)
    ensures e.status.Ok? ==>
      r.after.session == e.after
      && |r.after.history| == |c.history| + 1
      && r.after.history[..|c.history|] == c.history
      && r.after.history[|c.history|].finalValue == e.after.ans
      && r.after.history[|c.history|].evaluated ==
           if c.input == "" then Itoa(e.after.ans) else ReplaceAll(WithAns(c.input), "_ans_", AnsText(c.session.ans))
  {
    var input := WithAns(c.input);
    var evaluated := ReplaceAll(input, "_ans_", AnsText(c.session.ans));
    match e.status
    case Crashed => Handled(Crash, c.(session := e.after, input := input))
    case Failed(_) => Handled(Continue, c.(session := e.after.(ans := c.session.ans), input := "", index := 0))
    case Ok =>
      var record := HistoryRecord(if evaluated == "" then Itoa(e.after.ans) else evaluated, e.after.ans);
      Handled(Continue, c.(session := e.after, input := "", index := 0, history := c.history + [record]))
  }

  /** `handleInput` for the bytes `data` the terminal delivered. */
  function Handle(c: Screen, data: seq<char>): (r: Handled)
    ensures r.reaction.Quit? <==> data == [Interrupt]
    ensures r.after.bitset == c.bitset
    ensures r.reaction.Continue? ==>
      r.after.history == c.history || (|r.after.history| == |c.history| + 1 && r.after.history[..|c.history|] == c.history)
  {
    if |data| == 0 then Handled(Continue, c)
    else if |data| == 1 then Typed(c, data[0])
    else Edited(c, data)
  }

  /** A single byte: interrupt, backspace, enter, or a character typed at
      the cursor (which also leaves history browsing). */
  function Typed(c: Screen, ch: char): (r: Handled)
    ensures r.reaction.Quit? <==> ch == Interrupt
    ensures r.after.bitset == c.bitset
    ensures r.reaction.Continue? ==>
      r.after.history == c.history || (|r.after.history| == |c.history| + 1 && r.after.history[..|c.history|] == c.history)
    ensures ch == Backspace && 0 <= c.index <= |c.input| ==>
      r == Handled(Continue, c.(input := Erase(c.input, c.index), index := Max(c.index - 1, 0)))
    ensures ch == '\r' || ch == '\n' ==> r == Submitted(c)
    ensures ch != Interrupt && ch != Backspace && ch != '\r' && ch != '\n' && 0 <= c.index <= |c.input| ==>
      r == Handled(Continue, c.(curRecord := -1, input := Insert(c.input, c.index, [ch]), index := c.index + 1))
  {
    if ch == Interrupt then Handled(Quit, c)
    else if ch == Backspace then
      if 0 <= c.index <= |c.input| then Handled(Continue, c.(input := Erase(c.input, c.index), index := Max(c.index - 1, 0)))
      else Handled(Crash, c)
    else if ch == '\r' || ch == '\n' then
      var r := Submitted(c);
      assert r.reaction.Continue? && r.after.history != c.history ==> r.after.history[..|c.history|] == c.history;
      r
    else if 0 <= c.index <= |c.input| then Handled(Continue, c.(curRecord := -1, input := Insert(c.input, c.index, [ch]), index := c.index + 1))
    else Handled(Crash, c.(curRecord := -1))
  }

  /** A longer sequence: one of the editing keys, or ignored. */
  function Edited(c: Screen, data: seq<char>): (r: Handled)
    ensures !r.reaction.Quit?
    ensures r.after.bitset == c.bitset && r.after.history == c.history && r.after.session == c.session
    ensures data == HomeKey ==> r == Handled(Continue, c.(index := 0))
    ensures data == EndKey ==> r == Handled(Continue, c.(index := |c.input|))
    ensures data == RightKey ==> r == Handled(Continue, c.(index := Min(c.index + 1, |c.input|)))
    ensures data == LeftKey ==> r == Handled(Continue, c.(index := Max(c.index - 1, 0)))
    ensures data == UpKey ==> r == RecalledUp(c)
    ensures data == DownKey ==> r == RecalledDown(c)
    ensures data == DeleteKey && 0 <= c.index <= |c.input| ==>
      r == Handled(Continue, c.(input := DeleteAt(c.input, c.index)))
    ensures data !in {HomeKey, EndKey, RightKey, LeftKey, UpKey, DownKey, DeleteKey} ==> r == Handled(Continue, c)
  {
    KeysDiffer();
    if data == HomeKey then Handled(Continue, c.(index := 0))
    else if data == EndKey then Handled(Continue, c.(index := |c.input|))
    else if data == RightKey then Handled(Continue, c.(index := Min(c.index + 1, |c.input|)))
    else if data == LeftKey then Handled(Continue, c.(index := Max(c.index - 1, 0)))
    else if data == UpKey then RecalledUp(c)
    else if data == DownKey then RecalledDown(c)
    else if data == DeleteKey then
      if 0 <= c.index <= |c.input| then Handled(Continue, c.(input := DeleteAt(c.input, c.index)))
      else Handled(Crash, c)
    else Handled(Continue, c)
  }

  /** The up key: with more than the initial record, select the previous
      record (cyclically) and put its text on the line. */
  function RecalledUp(c: Screen): (r: Handled)
    ensures !r.reaction.Quit?
    ensures r.after == c || r.after == c.(curRecord := r.after.curRecord, input := r.after.input, index := r.after.index)
    ensures r.reaction.Continue? && r.after != c ==>
      0 <= r.after.curRecord < |c.history| && r.after.input == c.history[r.after.curRecord].evaluated && r.after.index == |r.after.input|
    ensures |c.history| <= 1 ==> r == Handled(Continue, c)
    ensures |c.history| > 1 ==> r.after.curRecord == RecordUp(c.curRecord, |c.history|)
    ensures r.reaction.Crash? <==> |c.history| > 1 && !(0 <= RecordUp(c.curRecord, |c.history|) < |c.history|)
  {
    if |c.history| > 1 then
      var k := RecordUp(c.curRecord, |c.history|);
      if 0 <= k < |c.history| then
        var text := c.history[k].evaluated;
        Handled(Continue, c.(curRecord := k, input := text, index := |text|))
      else Handled(Crash, c.(curRecord := k))
    else Handled(Continue, c)
  }

  /** The down key: select the next record (cyclically); every record but
      the first shows `_ans_` as the answer before it. */
  function RecalledDown(c: Screen): (r: Handled)
    ensures !r.reaction.Quit?
    ensures r.after == c || r.after == c.(curRecord := r.after.curRecord, input := r.after.input, index := r.after.index)
    ensures r.reaction.Continue? && r.after != c ==>
      0 <= r.after.curRecord < |c.history| && r.after.index == |r.after.input|
      && r.after.input == if r.after.curRecord == 0 then c.history[0].evaluated
         else ReplaceFirst(c.history[r.after.curRecord].evaluated, "_ans_", Itoa(c.history[r.after.curRecord - 1].finalValue))
    ensures |c.history| <= 1 ==> r == Handled(Continue, c)
    ensures |c.history| > 1 ==> r.after.curRecord == RecordDown(c.curRecord, |c.history|)
    ensures r.reaction.Crash? <==> |c.history| > 1 && !(0 <= RecordDown(c.curRecord, |c.history|) < |c.history|)
  {
    if |c.history| > 1 then RecallAt(c, RecordDown(c.curRecord, |c.history|))
    else Handled(Continue, c)
  }

  /** Selecting record `k` after a down key: its text, with `_ans_` shown
      as the answer of the record before it, or a crash outside the
      history. */
  function RecallAt(c: Screen, k: int): (r: Handled)
    ensures !r.reaction.Quit? && r.after.curRecord == k
    ensures r.after == c.(curRecord := k, input := r.after.input, index := r.after.index)
    ensures r.reaction.Crash? <==> !(0 <= k < |c.history|)
    ensures r.reaction.Crash? ==> r.after == c.(curRecord := k)
    ensures r.reaction.Continue? ==> r.after.index == |r.after.input|
    ensures r.reaction.Continue? ==>
      r.after.input == if k == 0 then c.history[0].evaluated
                       else ReplaceFirst(c.history[k].evaluated, "_ans_", Itoa(c.history[k - 1].finalValue))
  {
    if 0 <= k < |c.history| then
      var text := if k > 0 then ReplaceFirst(c.history[k].evaluated, "_ans_", Itoa(c.history[k - 1].finalValue))
                  else c.history[k].evaluated;
      Handled(Continue, c.(curRecord := k, input := text, index := |text|))
    else Handled(Crash, c.(curRecord := k))
  }

  /** Every key press keeps the configuration valid, and from a valid one
      the only panic left is one inside the evaluation of a line. */
  lemma HandleValid(c: Screen, data: seq<char>)
    requires Valid(c)
    ensures var r := Handle(c, data);
      && (r.reaction.Crash? <==> (data == ['\r'] || data == ['\n']) && Execute(c.session, WithAns(c.input)).status.Crashed?)
      && (r.reaction.Continue? ==> Valid(r.after))
  {
    if |data| == 1 && (data[0] == '\r' || data[0] == '\n') {
      assert data == ['\r'] || data == ['\n'];
    }
    if data == UpKey || data == DownKey {
      if |c.history| > 1 {
        RecordUpDown(c.curRecord, |c.history|);
      }
    }
  }

  /** Typing a character and pressing backspace gives back the line and the
      cursor as they were. */
  lemma TypeThenBackspace(c: Screen, ch: char)
    requires Valid(c)
    requires ch != Interrupt && ch != Backspace && ch != '\r' && ch != '\n'
    ensures var typed := Handle(c, [ch]);
      && typed.reaction.Continue? && typed.after.input == Insert(c.input, c.index, [ch])
      && var erased := Handle(typed.after, [Backspace]).after;
      erased.input == c.input && erased.index == c.index
  {
    EraseInsert(c.input, c.index, ch);
  }

  /** Typing a character, moving left over it and pressing delete gives back
      the line and the cursor as they were. */
  lemma TypeLeftDelete(c: Screen, ch: char)
    requires Valid(c)
    requires ch != Interrupt && ch != Backspace && ch != '\r' && ch != '\n'
    ensures var typed := Handle(c, [ch]).after;
      var back := Handle(typed, LeftKey).after;
      var deleted := Handle(back, DeleteKey).after;
      deleted.input == c.input && deleted.index == c.index
  {
    DeleteInsert(c.input, c.index, ch);
  }

  /** The record text for a line continuing from the answer: `_ans_` is
      shown as the answer itself. */
  lemma RecordOfContinuation(input: string, ans: int64)
    requires StartsWithOperator(input) && !Contains(input, "_ans_")
    ensures ReplaceAll("_ans_" + input, "_ans_", AnsText(ans)) == AnsText(ans) + input
  {
    var s := "_ans_" + input;
    assert s[0..0 + 5] == "_ans_";
    assert s[5..] == input;
    ReplaceAllAtHead(s, "_ans_", AnsText(ans));
    ReplaceNone(input, "_ans_", AnsText(ans));
  }

  /** The first three tokens of a chain. */
  lemma ChainTokensHead(first: string, links: seq<Link>)
    requires |links| > 0
    ensures ChainTokens(first, links)[..3] == [first, links[0].op, links[0].operand]
    decreases |links|
  {
    if |links| > 1 {
      ChainTokensHead(first, links[..|links| - 1]);
      assert links[..|links| - 1][0] == links[0];
    }
  }

  /** Pressing enter on a line that starts with an operator, such as
      `+ 5 * 2`, evaluates it as a chain from the previous answer. */
  lemma EnterContinuesFromAns(c: Screen, links: seq<Link>, gaps: seq<string>)
    requires |links| > 0 && IsChain("_ans_", links)
    requires Separable(ChainTokens("_ans_", links), [""] + gaps)
    requires c.input == Tail(ChainTokens("_ans_", links), [""] + gaps)
    ensures WithAns(c.input) == "_ans_" + c.input
    ensures LeafValue("_ans_", c.session.variables, c.session.ans) == c.session.ans
    ensures Execute(c.session, WithAns(c.input)) == ChainExecution(c.session, FoldChain("_ans_", links, c.session.variables, c.session.ans))
  {
    var ts, gs := ChainTokens("_ans_", links), [""] + gaps;
    ChainTokensHead("_ans_", links);
    assert ts[0] == "_ans_" && ts[1] == links[0].op && ts[2] == links[0].operand;
    assert links[0] in links;
    assert Interleave(ts, gs) == "_ans_" + c.input;
    var rest := Tail(ts[1..], gs[1..]);
    assert ts[1..][1..] == ts[2..];
    assert rest == gs[1] + Interleave(ts[2..], gs[2..]);
    assert ts[2..][0] == ts[2];
    assert |rest| >= |ts[2]| > 0;
    assert c.input == links[0].op + rest;
    assert !AllDigits("_ans_") by { assert !IsDigit("_ans_"[0]); }
    ExecuteChain(c.session, "_ans_", links, gs);
  }

  // -----------------------------------------------------------------------
  // Clicking the bit grid
  // -----------------------------------------------------------------------

  /** Digit `i` of a grid row (group i / 4, place i % 4) is shown at screen
      column 5 + 9 (i / 4) + 2 (i % 4). */
  lemma ClickColumns(i: nat)
    requires i < 16
    ensures ValidClickXs[i] == 5 + 9 * (i / 4) + 2 * (i % 4)
    ensures IndexOf(ValidClickXs, ValidClickXs[i]) == i
  {
    ClickColumn(i);
    ClickXsIncreasing();
    IndexOfIncreasing(ValidClickXs, i);
  }

  /** The column of digit i, from its group and place. */
  lemma ClickColumn(i: nat)
    requires i < 16
    ensures ValidClickXs[i] == 5 + 9 * (i / 4) + 2 * (i % 4)
  {
    var g, x := i / 4, i % 4;
    assert i == 4 * g + x && g < 4 && x < 4;
    if g == 0 { } else if g == 1 { } else if g == 2 { } else { }
  }

  /** The clickable columns increase from left to right. */
  lemma ClickXsIncreasing()
    ensures forall a :: 0 <= a < |ValidClickXs| - 1 ==> ValidClickXs[a] < ValidClickXs[a + 1]
  {
    var xs := ValidClickXs;
    assert xs[0] < xs[1] < xs[2] < xs[3] < xs[4] < xs[5] < xs[6] < xs[7];
    assert xs[8] < xs[9] < xs[10] < xs[11] < xs[12] < xs[13] < xs[14] < xs[15];
    assert xs[7] < xs[8];
  }

  /** In a sequence that increases from each element to the next, the
      index of an element is its position. */
  lemma IndexOfIncreasing(xs: seq<int>, i: nat)
    requires forall a :: 0 <= a < |xs| - 1 ==> xs[a] < xs[a + 1]
    requires i < |xs|
    ensures IndexOf(xs, xs[i]) == i
  {
    IncreasingBelow(xs, i);
  }

  /** In a sequence that increases from each element to the next, every
      element is larger than all before it. */
  lemma {:induction false} IncreasingBelow(xs: seq<int>, i: nat)
    requires forall a :: 0 <= a < |xs| - 1 ==> xs[a] < xs[a + 1]
    requires i < |xs|
    ensures forall j :: 0 <= j < i ==> xs[j] < xs[i]
    decreases i
  {
    if i > 0 {
      IncreasingBelow(xs, i - 1);
    }
  }

  /** `determineBitFromXY` on a column `x` and a grid row `y` counted from
      the bottom (1 to 4): the bit shown there, or 0 off the digit columns. */
  function BitFromXY(x: int, y: int): (b: int)
    ensures x !in ValidClickXs ==> b == 0
    ensures x in ValidClickXs && 1 <= y <= 4 ==> 0 <= b < 64
  {
    var index := IndexOf(ValidClickXs, x);
    if index != -1 then 15 - index + 16 * (y - 1) else 0
  }

  /** Where bit `b` is clicked: its column and its row from the bottom. */
  function ClickPoint(b: nat): (p: (int, int))
    requires b < 64
    ensures p.0 in ValidClickXs && 1 <= p.1 <= 4
  {
    (ValidClickXs[15 - b % 16], b / 16 + 1)
  }

  /** Division by 16 of `16 q + m`. */
  lemma Split16(a: int, q: int, m: int)
    requires 0 <= m < 16 && a == 16 * q + m
    ensures a / 16 == q && a % 16 == m
  {
  }

  /** Clicking the place of bit `b` selects `b`. */
  lemma ClickPointBit(b: nat)
    requires b < 64
    ensures BitFromXY(ClickPoint(b).0, ClickPoint(b).1) == b
  {
    Split16(b, b / 16, b % 16);
    ClickColumns(15 - b % 16);
  }

  /** Every place on the grid is the place of the bit it selects, so each
      bit has exactly one place. */
  lemma BitClickPoint(x: int, y: int)
    requires x in ValidClickXs && 1 <= y <= 4
    ensures ClickPoint(BitFromXY(x, y) as nat) == (x, y)
  {
    var i := IndexOf(ValidClickXs, x);
    assert 0 <= i < 16 && ValidClickXs[i] == x;
    ClickColumns(i);
    var bit := BitFromXY(x, y);
    assert bit == 16 * (y - 1) + (15 - i);
    Split16(bit, y - 1, 15 - i);
    var p := ClickPoint(bit as nat);
    assert p.0 == ValidClickXs[i];
    assert p.1 == y;
  }

  /** A release at (x, y) lands on a digit of the grid, whose rows are the
      four above the two bottom lines of a terminal `height` rows tall. */
  predicate OnGrid(x: int, y: int, height: int)
  {
    x in ValidClickXs && height - 6 <= y < height - 2
  }

  /** The answer after a left-button release at (x, y). */
  function Toggled(ans: int64, x: int, y: int, height: int): (r: int64)
    ensures !OnGrid(x, y, height) ==> r == ans
  {
    if OnGrid(x, y, height) then
      var b := BitFromXY(x, height - 2 - y);
      ShlOne(b);
      Xor(ans, Shl(1, b))
    else ans
  }

  /** A release on the grid flips exactly the bit it selects; every other
      bit of the answer is kept. */
  lemma ToggledBit(ans: int64, x: int, y: int, height: int)
    requires OnGrid(x, y, height)
    ensures var b := BitFromXY(x, height - 2 - y);
      0 <= b < 64 && forall i :: 0 <= i < 64 ==> Bit(Toggled(ans, x, y, height), i) == (Bit(ans, i) != (i == b))
  {
    var b := BitFromXY(x, height - 2 - y);
    ShlOne(b);
  }

  /** On the grid, the release selects a bit and toggles it. */
  lemma ToggledOnGrid(ans: int64, x: int, y: int, height: int)
    ensures OnGrid(x, y, height) <==> x in ValidClickXs && y < height - 2 && y >= height - 6
    ensures OnGrid(x, y, height) ==> 0 <= BitFromXY(x, height - 2 - y) < 64
    ensures OnGrid(x, y, height) ==> Toggled(ans, x, y, height) == Xor(ans, Shl(1, BitFromXY(x, height - 2 - y)))
    ensures !OnGrid(x, y, height) ==> Toggled(ans, x, y, height) == ans
  {
  }

  /** The character drawn for digit `x` of group `g` of grid row `r`. */
  function Shown(num: int64, r: nat, g: nat, x: nat): char
    requires r < 4 && g < 4 && x < 4
  {
    RowColumn(num, r, g, x);
    RowLine(num, r)[4 + 9 * g + 2 * x]
  }

  /** A grid position (row, group, place) is determined by its bit. */
  lemma GridPlace(r: nat, g: nat, x: nat, r': nat, g': nat, x': nat)
    requires r < 4 && g < 4 && x < 4 && r' < 4 && g' < 4 && x' < 4
    ensures 16 * r + 4 * g + x == 16 * r' + 4 * g' + x' <==> r == r' && g == g' && x == x'
  {
    if 16 * r + 4 * g + x == 16 * r' + 4 * g' + x' {
      Split16(16 * r + 4 * g + x, r, 4 * g + x);
      Split16(16 * r + 4 * g + x, r', 4 * g' + x');
      assert 4 * g + x == 4 * g' + x';
    }
  }

  /** The screen position of the digit of grid row `r`, group `g`, place
      `x` lies on the grid and selects the bit drawn there. */
  lemma ClickTarget(height: int, r: nat, g: nat, x: nat)
    requires r < 4 && g < 4 && x < 4
    ensures var mx, my := ValidClickXs[4 * g + x], height - 6 + r;
      && OnGrid(mx, my, height)
      && mx - 1 == 4 + 9 * g + 2 * x
      && BitFromXY(mx, height - 2 - my) == 63 - (16 * r + 4 * g + x)
  {
    ClickColumns(4 * g + x);
    assert (4 * g + x) / 4 == g && (4 * g + x) % 4 == x;
  }

  /** Clicking the digit of grid row `r`, group `g`, place `x` at its
      1-based screen position (mx, my), with the grid drawn from line
      height - 7 on, flips that digit on the redrawn grid and leaves every
      other digit (r', g', x') as it was. */
  lemma ClickFlipsShownDigit(ans: int64, height: int, mx: int, my: int, r: nat, g: nat, x: nat, r': nat, g': nat, x': nat)
    requires r < 4 && g < 4 && x < 4 && r' < 4 && g' < 4 && x' < 4
    requires mx == ValidClickXs[4 * g + x] && my == height - 6 + r
    ensures OnGrid(mx, my, height) && mx - 1 == 4 + 9 * g + 2 * x
    ensures Shown(Toggled(ans, mx, my, height), r', g', x') != Shown(ans, r', g', x') <==> r' == r && g' == g && x' == x
  {
    ClickTarget(height, r, g, x);
    ShownToggled(ans, mx, my, height, r', g', x');
    GridPlace(r, g, x, r', g', x');
  }

  /** The digit drawn at a grid position after a click changes exactly when
      the clicked bit is the one drawn there. */
  lemma ShownToggled(ans: int64, mx: int, my: int, height: int, r: nat, g: nat, x: nat)
    requires OnGrid(mx, my, height) && r < 4 && g < 4 && x < 4
    ensures Shown(Toggled(ans, mx, my, height), r, g, x) != Shown(ans, r, g, x)
      <==> BitFromXY(mx, height - 2 - my) == 63 - (16 * r + 4 * g + x)
  {
    var i := 63 - (16 * r + 4 * g + x);
    RowColumn(Toggled(ans, mx, my, height), r, g, x);
    RowColumn(ans, r, g, x);
    ToggledBit(ans, mx, my, height);
  }

  // -----------------------------------------------------------------------
  // Go's `config`
  // -----------------------------------------------------------------------

  class Config {
    var state: State
    var input: string
    var index: int
    var bitset: int
    var history: seq<HistoryRecord>
    var curRecord: int

    function Snapshot(): Screen
      reads this, state
    {
      Screen(state.Snapshot(), input, index, bitset, history, curRecord)
    }

    /** The configuration built at start-up. */
    constructor ()
      ensures fresh(state)
      ensures Snapshot() == Initial
    {
      state := new State();
      input := "";
      index := 0;
      bitset := -1;
      history := [HistoryRecord("0", 0)];
      curRecord := -1;
    }

    /** `determineBitFromXY`: the bit at a click, remembered in `bitset`. */
    method DetermineBitFromXY(x: int, y: int) returns (bit: int)
      modifies this`bitset
      ensures bit == BitFromXY(x, y) && bitset == bit
    {
      var index := IndexOf(ValidClickXs, x);
      bit := 0;
      if index != -1 {
        bit := bit + (15 - index);
        bit := bit + 16 * (y - 1);
      }
      bitset := bit;
    }

    /** A left-button release at (x, y) on a terminal `height` rows tall. */
    method Click(x: int, y: int, height: int)
      modifies this`bitset, state`ans
      ensures state.ans == Toggled(old(state.ans), x, y, height)
      ensures bitset == if OnGrid(x, y, height) then BitFromXY(x, height - 2 - y) else old(bitset)
    {
      var ans := state.ans;
      if OnGrid(x, y, height) {
        var bit := DetermineBitFromXY(x, height - 2 - y);
        ToggledOnGrid(ans, x, y, height);
        state.ans := Xor(ans, Shl(1, bit));
        assert state.ans == Toggled(ans, x, y, height);
      }
    }

    /** The enter key. */
    method Submit() returns (reaction: Reaction)
      modifies this, state
      ensures state == old(state)
      ensures Handled(reaction, Snapshot()) == Submitted(old(Snapshot()))
    {
      ghost var c := Snapshot();
      if (|input| > 2 && IsLength2Operator(input[..2])) || (|input| > 0 && IsInfixChar(input[0])) {
        input := "_ans_" + input;
      }
      assert input == WithAns(c.input);
      var record := HistoryRecord(input, 0);
      var ans := state.ans;
      var stringToReplace := Itoa(ans);
      if stringToReplace[0] == '-' {
        stringToReplace := "(" + stringToReplace + ")";
      }
      assert stringToReplace == AnsText(ans);
      record := record.(evaluated := ReplaceAll(record.evaluated, "_ans_", stringToReplace));
      var status := state.Exec(input);
      reaction := Record(c, record, ans, status);
    }

    /** The part of the enter key after the line has run with outcome
        `status`, given the record begun for it and the answer before. */
    method Record(ghost c: Screen, record: HistoryRecord, ans: int64, status: Status) returns (reaction: Reaction)
      requires ans == c.session.ans && input == WithAns(c.input) && index == c.index && bitset == c.bitset
      requires history == c.history && curRecord == c.curRecord
      requires record == HistoryRecord(ReplaceAll(input, "_ans_", AnsText(c.session.ans)), 0)
      modifies this, state
      ensures state == old(state)
      ensures Handled(reaction, Snapshot()) == Recorded(c, Execution(status, old(state.Snapshot())))
    {
      var record := record;
      if status.Crashed? {
        return Crash;
      }
      if status.Failed? {
        input := "";
        index := 0;
        state.ans := ans;
        return Continue;
      }
      record := record.(finalValue := state.ans);
      if record.evaluated == "" {
        record := record.(evaluated := Itoa(record.finalValue));
      }
      history := history + [record];
      input, index := "", 0;
      return Continue;
    }

    /** `handleInput`. */
    method HandleInput(data: seq<char>) returns (reaction: Reaction)
      modifies this, state
      ensures state == old(state)
      ensures Handled(reaction, Snapshot()) == Handle(old(Snapshot()), data)
    {
      if |data| == 0 {
        return Continue;
      }
      if |data| == 1 {
        reaction := Type(data[0]);
      } else {
        reaction := Edit(data);
      }
    }

    /** The single-byte cases of `handleInput`. */
    method Type(ch: char) returns (reaction: Reaction)
      modifies this, state
      ensures state == old(state)
      ensures Handled(reaction, Snapshot()) == Typed(old(Snapshot()), ch)
    {
      if ch == Interrupt {
        return Quit;
      }
      if ch == Backspace {
        if !(0 <= index <= |input|) {
          return Crash;
        }
        var before, after := input[..Max(0, index - 1)], input[index..];
        input := before + after;
        index := Max(index - 1, 0);
        return Continue;
      }
      if ch == '\r' || ch == '\n' {
        reaction := Submit();
        return;
      }
      curRecord := -1;
      if !(0 <= index <= |input|) {
        return Crash;
      }
      var before, after := input[..index], input[index..];
      input := before + [ch] + after;
      index := index + 1;
      return Continue;
    }

    /** The escape-sequence cases of `handleInput`. */
    method Edit(data: seq<char>) returns (reaction: Reaction)
      modifies this`curRecord, this`input, this`index
      ensures Handled(reaction, Snapshot()) == Edited(old(Snapshot()), data)
    {
      KeysDiffer();
      reaction := Continue;
      if data == HomeKey {
        index := 0;
      } else if data == EndKey {
        index := |input|;
      } else if data == RightKey {
        index := Min(index + 1, |input|);
      } else if data == LeftKey {
        index := Max(index - 1, 0);
      } else if data == UpKey {
        reaction := RecallUp();
      } else if data == DownKey {
        reaction := RecallDown();
      } else if data == DeleteKey {
        if !(0 <= index <= |input|) {
          return Crash;
        }
        var before, after := input[..index], input[Min(|input|, index + 1)..];
        input := before + after;
      }
    }

    /** The up key of `handleInput`. */
    method RecallUp() returns (reaction: Reaction)
      modifies this`curRecord, this`input, this`index
      ensures Handled(reaction, Snapshot()) == RecalledUp(old(Snapshot()))
    {
      if |history| > 1 {
        if curRecord == -1 {
          curRecord := curRecord + |history|;
        } else if curRecord == 0 {
          curRecord := curRecord + |history| - 1;
        } else {
          curRecord := curRecord - 1;
        }
        if !(0 <= curRecord < |history|) {
          return Crash;
        }
        input := history[curRecord].evaluated;
        index := |input|;
      }
      return Continue;
    }

    /** The down key of `handleInput`. */
    method RecallDown() returns (reaction: Reaction)
      modifies this`curRecord, this`input, this`index
      ensures Handled(reaction, Snapshot()) == RecalledDown(old(Snapshot()))
    {
      if |history| > 1 {
        var k := RecordDown(curRecord, |history|);
        if !(0 <= k < |history|) {
          curRecord := k;
          return Crash;
        }
        var text := history[k].evaluated;
        if k > 0 {
          text := ReplaceFirst(history[k].evaluated, "_ans_", Itoa(history[k - 1].finalValue));
        }
        curRecord, input, index := k, text, |text|;
      }
      return Continue;
    }
  }
}
