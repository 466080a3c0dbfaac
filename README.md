# tcalc in Dafny

tcalc is a terminal calculator for programmers. The user types an integer
expression on a prompt line and presses Enter. The expression is tokenized,
parsed into a tree and evaluated in signed 64-bit arithmetic. The result
becomes `ans`, and the screen shows it as a character, in decimal, in
hexadecimal and as a 4 x 4 grid of 4-bit groups. Clicking one binary digit of
that grid flips the corresponding bit of `ans`. Enter on an input that
starts with an infix operator continues from the previous answer: `+1` means
`_ans_+1`. Every successful line is recorded in a history, and the arrow
keys walk through it.

This project models that core and proves properties of it:

- `int64.dfy` (module `Int64`): Go's `int64` arithmetic. Results wrap
  modulo 2^64. `/` and `%` truncate toward zero. Shifts are arithmetic.
  The bitwise operators are defined bit by bit on the two's-complement form.
- `text.dfy` (module `Text`): the library routines the program leans on.
  These are decimal and hexadecimal formatting, `strconv.ParseInt` in
  base 10, `strings.Join`, `strings.ReplaceAll`, `strings.Replace` with
  count 1, and `slices.Index`.
- `lexer.dfy` (modules `Lexer`, `LexerLaws`): the tokenizer
  (`state.Tokenize`). It is a step function over a lexer state, plus the
  loop that runs it. Laws say what tokens come out of well-separated input.
- `parser.dfy` (module `Parser`): `Parse`, `parse` and `innerParentheses`.
  Pointers become an immutable `Tree` datatype.
- `evaluator.dfy` (module `Evaluator`): `Eval` and `Exec`. There is a pure
  specification (`Evaluate`, `Execute`) and a `State` class whose methods
  are proved equal to it.
- `draw.dfy` (module `Draw`): the text panels. These are the binary grid
  (`binaryDisplayString`, an in-place fill of a 4 x 4 array of cells), the
  decimal, hexadecimal and character lines, and `displayString`.
- `tcalc.dfy` (module `Tcalc`): the keyboard handler `handleInput`, the
  mouse click on the bit grid and `determineBitFromXY`. A pure `Handle`
  function specifies the handler on a `Screen` value. The `Config` class
  holds the program's mutable state, and its methods are proved to follow
  the specification.
- `examples.dfy` (module `Examples`): the expressions and clicks exercised
  by the repository's tests, worked out through the model.

Behaviour the model keeps as the code has it:

- Go panics are explicit outcomes, not preconditions. They come from
  division by zero, a negative shift count, a missing operand and an
  out-of-range slice or history index. They appear as `Panic` in the
  evaluator and as the `Crash` reaction in the key handler.
- Operators have no precedence. A chain such as `1 + 3 * 2` folds left to
  right (`FoldChain`).
- A `*` that arrives while the last emitted token is `*` is merged into
  that token. So `2*3*4` becomes `2`, `**`, `34`, and evaluation reports
  an invalid operator (`Examples.ThreeFactors`). `**` is never a valid
  operator. With spaces, `2 * 3 * 4` keeps three factors and gives 24
  (`Examples.SpacedProduct`).
- An operator that directly follows another has no single outcome. `0+-1`
  reports an invalid operator (`Examples.OperatorPair`). In `1+~2` the `~`
  becomes a leaf that the `2` then replaces, so the line gives 3
  (`Examples.TildeAfterPlus`). `1<<+2` leaves the shift without a right
  operand, and evaluating it panics (`Examples.PlusAfterShift`).
- A single `<` or `>` followed by a word character stays in the pending
  word. So `1<5` becomes `1`, `<5`, the line is not a comparison, and it
  gives 1 without an error (`Examples.SingleLess`).
- `determineBitFromXY` returns 0, not -1, for a column between two digits
  (`tcalc.go:114-123`). One test (`tcalc_test.go:36-38`) expects -1. The
  model follows the code.

Assumptions:

- Mouse coordinates are 1-based, as terminal mouse reports are. Text
  columns are 0-based.
- Strings are sequences of `char`, and every byte of input is one `char`.
  The runes of non-ASCII input are not decoded.

## Model

| member | source | states |
|---|---|---|
| Int64.Wrap | calc.go:167-172 | the int64 result of an operation is congruent to the exact result modulo 2^64 and equals it when it fits |
| Int64.Add | calc.go:167-168 | `l + r` is congruent to the exact sum modulo 2^64 and equals it when it fits |
| Int64.Sub | calc.go:169-170 | `l - r` is congruent to the exact difference modulo 2^64 and equals it when it fits |
| Int64.Mul | calc.go:171-172 | `l * r` is congruent to the exact product modulo 2^64 and equals it when it fits |
| Int64.Quo | calc.go:173-174 | `l / r` truncates toward zero: its magnitude is the floor of abs(l)/abs(r), its sign is the sign of the exact quotient, and MinInt64 / -1 wraps to MinInt64 |
| Int64.Rem | calc.go:181-182 | `l % r` is smaller in magnitude than r and has the sign of l |
| Int64.Shl | calc.go:209-210 | `l << s` is l times 2^s wrapped to 64 bits, and 0 for a count of 64 or more |
| Int64.And | calc.go:175-176 | bit i of `l & r` is set exactly when bit i is set in both operands |
| Int64.Xor | calc.go:177-178 | bit i of `l ^ r` is set exactly when bit i differs between the operands |
| Int64.Or | calc.go:179-180 | bit i of `l | r` is set exactly when bit i is set in either operand |
| Int64.ToUnsigned | calc.go:173-185 | the unsigned view of an int64 lies in [0, 2^64) and is congruent to it |
| Int64.WrapOfUnsigned | calc.go:173-185 | reinterpreting an unsigned 64-bit value as int64 and back is the identity |
| Int64.Neg | calc.go:146-152 | `-1 * x` is `-x`, except that the most negative int64 maps to itself |
| Int64.QuoRemLaw | calc.go:173-174 | truncated division: a == q*b + r, with abs(r) < abs(b) and r having the sign of a |
| Int64.QuoRemOverflow | calc.go:173-174 | MinInt64 / -1 wraps to MinInt64, and MinInt64 % -1 is 0 |
| Int64.Shr | calc.go:211-212 | `a >> s` is the floor of a / 2^s for every count, so r * 2^s <= a < (r + 1) * 2^s, and it keeps the sign of a |
| Int64.Not | calc.go:193-194 | `^x` (the prefix `~`) flips every one of the 64 bits of x, which makes ~x + x == -1 |
| Int64.BitOfBitwise | calc.go:175-180 | bit i of a&b, a|b and a^b is the AND, OR and XOR of bit i of the operands |
| Int64.ShlOne | tcalc.go:104 | `1 << b` for b < 64 has exactly bit b set |
| Int64.FlipBit | tcalc.go:104 | `a ^ (1 << b)` differs from a in bit b and in no other bit |
| Text.ItoaRoundTrip | draw.go:48-50 | the decimal text of any integer reads back as that integer |
| Text.HexRoundTrip | draw.go:52-54 | the `%x` text of any integer reads back as that integer in base 16 |
| Text.ParseInt64 | calc.go:220-227 | a base-10 parse succeeds exactly on a non-empty run of digits whose value fits in an int64; the value is the decimal value of the digits, leading zeros included, and a numeral without a leading zero is the decimal text of the value it parses to |
| Text.LeadingZero | calc.go:220-227 | a leading zero changes nothing: `0` followed by digits parses as the digits alone, so `007` reads as 7 |
| Text.CanonicalRoundTrip | calc.go:220-227 | decimal digits without a leading zero are the digits that writing their own value produces |
| Text.ParseItoa | calc.go:220-227 | parsing the decimal text of a non-negative int64 gives the number back |
| Text.JoinLength | draw.go:38-41 | joining equal-length parts with a separator has the length of the parts plus one separator between each pair |
| Text.JoinAt | draw.go:38-41 | character c of part i sits at offset i*(len+sep)+c of the joined string |
| Text.ReplaceNone | tcalc.go:150 | without an occurrence of the pattern, replacing all or the first occurrence leaves the text unchanged |
| Text.ReplaceAllAtHead | tcalc.go:150 | replacing all occurrences in a text that starts with the pattern gives the replacement followed by the rest of the text with all its occurrences replaced |
| Text.ReplaceAllSplits | tcalc.go:150 | replacing all occurrences keeps the text before the first one, replaces it, and goes on after it, so occurrences never overlap; a text without the pattern is unchanged |
| Text.ReplaceFirstSplits | tcalc.go:197-200 | replacing once puts the replacement in place of the first occurrence and keeps everything before and after it; a text without the pattern is unchanged |
| Text.IndexOf | tcalc.go:115 | the index is -1 exactly when the value is absent, and otherwise the first position holding it |
| Lexer.StepKeepsEmitted | calc.go:70-108 | one pass of the loop emits at most two tokens and never changes an emitted token, except that a `*` arriving after an emitted `*` turns that token into `**` and emits nothing |
| Lexer.RunKeepsEmitted | calc.go:69-109 | the loop never drops an emitted token, and every token emitted before it except the last stays in its place |
| Lexer.Tokens | calc.go:66-115 | every token is non-empty and space-free, and the tokens hold exactly the non-space characters of the input, as a multiset |
| Lexer.Tokenize | calc.go:66-115 | the loop over the input computes `Tokens` |
| Lexer.RunKeepsCharacters | calc.go:69-109 | each pass of the loop keeps every non-space character it reads, as a multiset |
| Lexer.RunWellFormed | calc.go:69-109 | the loop never emits an empty token or one containing a space |
| Lexer.StepWellFormed | calc.go:70-108 | one pass of the loop keeps every emitted token and the pending word non-empty and space-free |
| LexerLaws.RunTail | calc.go:69-109 | after the first lexeme, the loop over the rest of well-separated input emits every lexeme but the last and leaves the last one pending |
| LexerLaws.RunPrefix | calc.go:69-109 | tokens emitted already do not affect the loop, unless the last of them is a `*` that a following `*` would merge into |
| LexerLaws.RunInOrder | calc.go:69-109 | without `*`, the loop emits the input's non-space characters in order |
| LexerLaws.TokensOfInterleave | calc.go:66-115 | lexemes joined by spaces, with no two words adjacent and no `*` next to `*`, tokenize back to exactly those lexemes |
| LexerLaws.TokensAfterAns | calc.go:66-115 | the `_ans_` prefix that Enter adds becomes one token in front of the input's own tokens |
| LexerLaws.TokensInOrder | calc.go:66-115 | without `*` the tokens concatenate to the input minus its spaces, in order |
| Parser.InnerParentheses | calc.go:292-306 | the loop computes `InnerOf`: the tokens before the `)` that closes the opening parenthesis |
| Parser.InnerOf | calc.go:292-306 | the inner part is no longer than the tokens |
| Parser.CloseFrom | calc.go:292-306 | the index found is the first position where the nesting depth returns to zero, or -1 if there is none |
| Parser.InnerBalanced | calc.go:292-306 | the inner part is balanced, and no prefix of it closes more parentheses than it opens |
| Parser.Parse | calc.go:230-290 | empty input, a leading `=` and an unclosed leading `(` give a nil tree; a successful parse is never nil |
| Parser.UnclosedAnywhere | calc.go:269-273 | a `(` with no `)` after it gives the nil tree for the whole line wherever it stands, as long as no `(`, `=` or empty token comes before it; so `1+(2` ends in the nil error too |
| Parser.ChainParse | calc.go:239-290 | an operand-operator chain parses to the left-leaning tree, with no precedence |
| Parser.ChainStep | calc.go:253-286 | an operator wraps the tree built so far as its left child, and the operand after it fills the right child |
| Parser.ParseShift | calc.go:275-278 | parsing the tail of the tokens from a position at or after its second token is parsing the whole tokens from the matching position |
| Parser.GroupParsed | calc.go:269-280 | at a `(` whose contents are balanced and parse to a tree, parsing goes on after the matching `)` with that tree as the right child of the current node, or as the tree itself when there is none |
| Parser.GroupStep | calc.go:269-280 | a parenthesised expression contributes its own tree to the tree being built, as a single operand does |
| Parser.TermStep | calc.go:269-286 | an operand or a parenthesised group fills the right child of the current node, or becomes the tree when there is none |
| Parser.ExprParse | calc.go:239-290 | the tokens of an expression made of operands, binary operators and groups parse to the tree that applies the operators from left to right, with each group as one operand |
| Parser.GroupParse | calc.go:230-290 | `Parse` of such an expression succeeds with that tree |
| Parser.ChainTail | calc.go:239-290 | parsing the first 2n+1 tokens of a chain of n links reaches the left fold of those links |
| Evaluator.LeafValue | calc.go:220-227 | `_ans_` reads the previous answer, any token the base-10 parse rejects reads its variable or 0 when it is unbound, including an all-digit token too large for an int64, and a numeral that fits reads as its parsed value |
| Evaluator.LeafNumeral | calc.go:220-227 | the decimal text of a non-negative int64 reads back as that number, whatever the variables and the previous answer |
| Evaluator.Infix | calc.go:153-186 | an infix operator panics exactly on division or modulo by zero and fails exactly on an unknown operator |
| Evaluator.Shift | calc.go:199-212 | a shift panics exactly on a negative count, and a right shift keeps the sign |
| Evaluator.Evaluate | calc.go:134-228 | evaluation never removes a variable, changes only variables assigned in the tree, and stores the value of a successful assignment |
| Evaluator.Execute | calc.go:117-132 | Exec updates `ans` only on success, records the error on failure and leaves `err` alone on a panic |
| Evaluator.NegatePrefix | calc.go:146-152 | a `-` without a left operand negates the value of its right operand, with MinInt64 mapped to itself |
| Evaluator.ComplementPrefix | calc.go:187-197 | `~` gives the bitwise complement of its right operand's value |
| Evaluator.MissingRightOperand | calc.go:153-160 | an infix operator without a right operand reports an invalid operator once its left operand has a value |
| Evaluator.PureExpression | calc.go:134-228 | an expression without `=` leaves the variables unchanged |
| Evaluator.Apply | calc.go:153-219 | a binary operator panics exactly on division or modulo by zero and on a negative shift count, and fails exactly on an unknown infix operator |
| Evaluator.FoldChain | calc.go:153-227 | a chain without links is its leaf's value; a chain of `+ - * & ^ |` always gives a value; a panic needs a `/`, `%`, `<<` or `>>`; a failure is an invalid operator and needs an unknown one |
| Evaluator.EvaluateChain | calc.go:153-219 | the tree of a chain evaluates to the left-to-right fold of its operators |
| Evaluator.ChainSemantics | calc.go:230-290 | a chain parses successfully, and its tree evaluates to the left fold |
| Evaluator.ExecuteChain | calc.go:117-132 | executing a well-separated chain is the left fold applied to the session |
| Evaluator.EvaluateTerm | calc.go:134-227 | the tree of an operand or group evaluates to its value and assigns nothing |
| Evaluator.EvaluateExpr | calc.go:134-219 | the tree of an expression with groups evaluates each group on its own and everything else left to right, and assigns nothing |
| Evaluator.ExecuteGrouped | calc.go:117-132 | executing a well-separated line with groups sets ans to that left-to-right value, with groups first, or reports its error |
| Evaluator.State.constructor | calc.go:23-27 | a new state has no variables, ans 0 and no error |
| Evaluator.State.Eval | calc.go:134-228 | the method's result and its variable updates are those of `Evaluate` |
| Evaluator.State.Exec | calc.go:117-132 | the method's status and new state are those of `Execute` |
| Draw.CellBit | draw.go:19-20 | the shift-and-mask expression gives 1 when bit i is set and 0 otherwise, including bit 63 |
| Draw.BitTextDigit | draw.go:19-21 | the cell text for bit i is "1" or "0" |
| Draw.FilledStep | draw.go:22-32 | one pass of the fill loop writes bit 63-t into the cell that the counters j, k, w point at |
| Draw.FilledAll | draw.go:18-33 | after 64 passes every group holds its four bits, most significant first |
| Draw.BitRows | draw.go:15-33 | the array that is filled holds, in row r and group g, the four bit digits of that group |
| Draw.BinaryDisplayString | draw.go:15-46 | the lines are the header and four rows, labelled 64, 48, 32 and 16 |
| Draw.RowColumn | draw.go:34-45 | each row is 39 characters long, and column 4+9g+2x shows bit 63-(16r+4g+x) |
| Draw.RowBody | draw.go:38-41 | the four groups of a row joined by two spaces are 34 characters long, and column 9g+2x holds the digit of bit 63-(16r+4g+x) |
| Draw.Advance | draw.go:26-32 | the counters w, k, j advance like a three-digit base-4 counter, so the cell index goes up by one each pass |
| Draw.GroupLength | draw.go:39 | a group of four digits joined by spaces is 7 characters long |
| Draw.GroupDigit | draw.go:39 | character 2x of a group is the digit of its x-th bit |
| Draw.Rune | draw.go:71 | `rune(num)` is num truncated to 32 bits |
| Draw.Ascii | draw.go:60-73 | the line is `ascii: `, what the code shows, and a newline; 7 and 12 show nothing, 10 and 11 show the escapes `\n` and `\r`, and any other value shows the character of its rune (its low 32 bits as a signed number), or U+FFFD when that rune is not a Unicode scalar value |
| Draw.RuneCongruent | draw.go:71 | two numbers have the same rune exactly when they are congruent modulo 2^32 |
| Draw.AsciiLow32 | draw.go:60-73 | apart from the four special codes, two values show the same character exactly when their low 32 bits agree |
| Draw.AsciiPrintable | draw.go:60-73 | a printable ASCII code is shown as its own character |
| Draw.LinesRoundTrip | draw.go:48-54 | the number after the decimal and hexadecimal labels reads back as `ans` |
| Draw.DisplayString | draw.go:56-58 | the panel is the character, decimal and hex lines followed by the binary lines, eight lines in all |
| Tcalc.GoRem | tcalc.go:195 | Go's `%` is in [0, n) for a non-negative dividend and in (-n, 0] for a negative one |
| Tcalc.GoRemValue | tcalc.go:195 | Go's `%` is a - n * q for the quotient q rounded toward zero |
| Tcalc.Insert | tcalc.go:164-168 | the inserted text sits at the cursor, with the text before the cursor kept in front of it and the text after the cursor kept behind it |
| Tcalc.Erase | tcalc.go:133-136 | backspace removes exactly the character left of the cursor and keeps the rest; at the start of the line it changes nothing |
| Tcalc.DeleteAt | tcalc.go:203-205 | delete removes exactly the character under the cursor and keeps the rest; at the end of the line it changes nothing |
| Tcalc.EraseInsert | tcalc.go:133-136 | backspace right after typing a character restores the input |
| Tcalc.DeleteInsert | tcalc.go:203-205 | delete at the typed character's position restores the input |
| Tcalc.RecordUpDown | tcalc.go:180-202 | with at least two records, up and down always select an existing record and undo each other |
| Tcalc.WithAns | tcalc.go:138-141 | Enter prefixes `_ans_` exactly to an input that starts with an infix operator, or that is longer than two characters and starts with `<<` or `>>` |
| Tcalc.AnsText | tcalc.go:145-149 | the text that replaces `_ans_` in the history is ans in decimal, in parentheses when negative |
| Tcalc.Submitted | tcalc.go:137-163 | Enter crashes exactly when Exec panics; otherwise it clears the line, keeps history and ans on an error, and on success appends one record holding the new ans and, as its text, the line with every `_ans_` replaced by the previous answer (parenthesised when negative), or the new ans itself when the line was empty |
| Tcalc.Handle | tcalc.go:125-209 | only Ctrl-C quits, the bit selection is never touched, and the history grows by at most one record |
| Tcalc.Typed | tcalc.go:129-169 | a single key quits exactly when it is Ctrl-C and keeps the bit selection; Backspace erases left of the cursor and moves it back; Enter (`\r` or `\n`) does exactly what `Submitted` states; any other key is inserted at the cursor, moves the cursor on and leaves history browsing; the history grows by at most one record |
| Tcalc.Edited | tcalc.go:170-206 | an escape sequence never quits and never changes the bit selection, history or session; Home and End move the cursor to the start and end, Right and Left move it one place within the line, Up and Down recall a record, Delete removes the character under the cursor and leaves the cursor where it is, and any other sequence changes nothing |
| Tcalc.RecalledUp | tcalc.go:180-192 | with at most one record the up arrow changes nothing; otherwise it selects the record `RecordUp` picks, crashes exactly when that is out of range, and else loads that record's text with the cursor at its end; nothing but record, input and cursor changes |
| Tcalc.RecalledDown | tcalc.go:193-202 | with at most one record the down arrow changes nothing; otherwise it selects the record `RecordDown` picks, crashes exactly when that is out of range, and else loads its text with the first `_ans_` replaced by the previous record's value (record 0 as it is), cursor at the end; nothing but record, input and cursor changes |
| Tcalc.RecallAt | tcalc.go:196-201 | selecting record k inside the history loads its text, with the first `_ans_` replaced by the value of record k-1 when k > 0, and puts the cursor at its end; outside the history it crashes; only record, input and cursor change |
| Tcalc.Recorded | tcalc.go:151-163 | after Exec, a panic crashes; an error clears the line and restores ans; success appends one record holding the new ans and the line's text with every `_ans_` replaced by the previous answer, and keeps the session Exec left |
| Tcalc.KeysDiffer | tcalc.go:171-206 | the seven escape sequences the handler recognises are pairwise different, so at most one branch applies |
| Tcalc.HandleValid | tcalc.go:125-209 | from a consistent screen only Enter can crash, and only when Exec panics; every other key keeps cursor and record in range |
| Tcalc.TypeThenBackspace | tcalc.go:133-136 | typing a character and then Backspace restores the input and the cursor |
| Tcalc.TypeLeftDelete | tcalc.go:164-205 | typing a character, Left, then Delete restores the input and leaves the cursor where it was |
| Tcalc.RecordOfContinuation | tcalc.go:142-150 | the history text of a continued line is the previous answer followed by the typed input |
| Tcalc.EnterContinuesFromAns | tcalc.go:137-151 | Enter on an operator-led chain evaluates the chain starting from the previous answer |
| Tcalc.ClickColumns | tcalc.go:30-32 | the clickable column of digit i is 5+9(i/4)+2(i%4), and it is found at index i |
| Tcalc.BitFromXY | tcalc.go:114-123 | a column outside the grid gives bit 0, and a grid column on rows 1 to 4 gives a bit in [0, 64) |
| Tcalc.ClickPoint | tcalc.go:114-123 | every bit has a clickable grid position |
| Tcalc.ClickPointBit | tcalc.go:114-123 | clicking a bit's grid position selects that bit |
| Tcalc.BitClickPoint | tcalc.go:114-123 | every grid position is the position of the bit it selects |
| Tcalc.ToggledBit | tcalc.go:100-105 | a click on the grid flips exactly the selected bit of ans |
| Tcalc.ToggledOnGrid | tcalc.go:100-105 | a click is on the grid exactly when its column is a digit column and its row is one of the four grid rows; then ans is XORed with `1 << bit` for a bit in [0, 64) |
| Tcalc.GridPlace | draw.go:15-33 | row, group and digit are determined by their bit position |
| Tcalc.ClickTarget | tcalc.go:100-105 | clicking a digit drawn in screen row H-6+r selects the bit that digit shows |
| Tcalc.ClickFlipsShownDigit | tcalc.go:100-105 | clicking a digit of the drawn grid is on the grid, lands one column right of that digit's 0-based column, and changes that digit and no other |
| Tcalc.ShownToggled | tcalc.go:100-105 | a click on the grid changes the digit it selects |
| Tcalc.Config.constructor | tcalc.go:37 | the initial screen has an empty input, the history `{"0", 0}`, no record selected and bit -1 |
| Tcalc.Config.DetermineBitFromXY | tcalc.go:114-123 | the method returns `BitFromXY` and stores it in `bitset` |
| Tcalc.Config.Click | tcalc.go:100-105 | a click sets `ans` to `Toggled` and updates `bitset` only when it is on the grid |
| Tcalc.Config.Submit | tcalc.go:137-163 | the Enter branch changes the fields as `Submitted` says |
| Tcalc.Config.HandleInput | tcalc.go:125-209 | the handler changes the fields and returns the reaction as `Handle` says |
| Tcalc.Config.Type | tcalc.go:129-169 | the single-key branch changes the fields and returns the reaction as `Typed` says |
| Tcalc.Config.Edit | tcalc.go:170-206 | the escape-sequence branch changes only record, input and cursor, as `Edited` says |
| Tcalc.Config.RecallUp | tcalc.go:180-192 | the up-arrow branch changes the fields as `RecalledUp` says |
| Tcalc.Config.RecallDown | tcalc.go:193-202 | the down-arrow branch changes the fields as `RecalledDown` says |
| Tcalc.Config.Record | tcalc.go:151-163 | the code after Exec changes the fields as `Recorded` says |
| Examples.OnePlusThreePlusTwo | tcalc_test.go:48 | `1 + 3 + 2` evaluates to 6 |
| Examples.ShiftLeft | tcalc_test.go:52 | `1 << 5` evaluates to 32 |
| Examples.OperatorPair | tcalc_test.go:53 | `0+-1` is an error |
| Examples.AndBits | tcalc_test.go:54 | `1&2` evaluates to 0 |
| Examples.OrBits | tcalc_test.go:55 | `1|2` evaluates to 3 |
| Examples.XorDisjoint | tcalc_test.go:56 | `1^2` evaluates to 3 |
| Examples.XorOverlap | tcalc_test.go:57 | `1^3` evaluates to 2 |
| Examples.Complement | tcalc_test.go:58 | `~1` evaluates to -2 |
| Examples.ShiftRight | tcalc_test.go:59 | `2>>1` evaluates to 1 |
| Examples.UnknownName | calc_test.go:119-122 | `!1` is one unknown name and evaluates to 0 |
| Examples.Assignment | calc_test.go:92-95 | `x=1` stores 1 in x and sets ans to 1 |
| Examples.TimesGroup | calc_test.go:64-68 | `1 * (3 + 2)` evaluates to 5 |
| Examples.TwoGroupsExample | tcalc_test.go:49 | `1 * (3 + 2)*(5+6)` evaluates to 55 |
| Examples.NestedExample | tcalc_test.go:51 | `(2 * (3 + 2) - 1)+ 1 / 1*3` evaluates to 30 |
| Examples.SpacedProduct | calc.go:71-74 | `2 * 3 * 4` keeps three factors and evaluates to 24 |
| Examples.TildeAfterPlus | calc.go:253-286 | `1+~2` parses as `1 + 2`, because `2` replaces the `~` leaf, and evaluates to 3 |
| Examples.PlusAfterShift | calc.go:199-207 | `1<<+2` leaves the shift without a right operand, and evaluating it panics |
| Examples.ThreeFactors | calc.go:71-74 | `2*3*4` tokenizes to `2`, `**`, `34` and is reported as an invalid operator |
| Examples.SingleLess | calc.go:97-107 | `1<5` tokenizes to `1`, `<5`; the word `<5` becomes the right child of the leaf `1`, which is never read, and the line gives 1 |
| Examples.ClickExample | tcalc_test.go:32-35 | `determineBitFromXY(14, 5)` is 75 |
| Examples.ClickBetweenDigits | tcalc_test.go:36-39 | `determineBitFromXY(15, 5)` is 0 (the code's value; the test expects -1) |
| Examples.PanelExample | draw.go:48-73 | 65 shows as `A`, and 255 shows as `Decimal: 255` and `Hex: ff` |
| Examples.ContinueExample | tcalc.go:137-163 | with ans 5, Enter on `+1` gives ans 6 and appends the record `5+1` -> 6 |

## Left out

- Terminal I/O is not part of this model. This covers the ansipixels
  library, the frame loop in `main`, cursor placement and the screen
  positions that panels and history are drawn at.
- The drawing of the history panel (`DrawHistory`) and the trimming of
  the history to the screen height in `main` are not modelled.
- The mouse event tests `LeftClick() && MouseRelease()` are not modelled.
  They are the decision to call `Config.Click`. Its coordinates and the
  screen height are parameters.
- The "bad value" error of `Eval` (`calc.go:143-144`) cannot be reached.
  Every non-assignment node the parser builds carries a token.
- The `**` case that calls `math.Pow` (`calc.go:213-215`) cannot be
  reached. `**` starts with `*`, so the infix branch takes it first and
  reports an invalid operator. Floating point is therefore not modelled.
- The "bad double rune operator" default (`calc.go:216-217`) cannot be
  reached, because only `<<` and `>>` pass the test that guards that
  branch.
- The parser's pointer sharing is modelled on values. Parse builds its tree
  through `*calcNode` pointers that it mutates in place. The model builds
  the same tree as an immutable datatype, so aliasing between nodes is not
  represented.
- The test line `(2 * (3 + 2) - 1)+ 1 / 1` (`tcalc_test.go:50`,
  `calc_test.go:72`) is not worked out. `Examples.NestedExample` works out
  the same line followed by `*3`. Its value follows from
  `Evaluator.ExecuteGrouped` in the same way.
- Draw.Ascii: `string(rune(num))` is modelled as one `char`, not as the
  UTF-8 bytes Go produces. Because of this, the byte length of the line is
  not modelled.
- Non-ASCII input is not decoded into runes. The handler's `data` holds
  one `char` per byte the terminal delivered, as Go's `[]byte` does.
- The program's `errors.New` messages are modelled as the error kinds of
  `Evaluator.CalcError`, not as their text.
