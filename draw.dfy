/**
 * The text panel of draw.go: the value as a character, in decimal, in
 * hexadecimal and as a grid of its 64 bits.
 */
module Draw {
  import opened Int64
  import opened Text

  const DecimalLabel := "Decimal: "
  const HexLabel := "Hex: "
  const BinaryHeader := "Binary: \n"

  // -----------------------------------------------------------------------
  // Bits
  // -----------------------------------------------------------------------

  /** The number shown for bit `i`: `((1 << i) & num) >> i`, made
      non-negative with `max(v, -v)` (for bit 63 the shift yields -1). */
  function CellValue(num: int64, i: nat): int
  {
    var v := Shr(And(Shl(1, i), num), i);
    if v >= -(v as int) then v else -(v as int)
  }

  /** Every cell shows 1 exactly when its bit is set, and 0 otherwise. */
  lemma CellBit(num: int64, i: nat)
    requires i < 64
    ensures CellValue(num, i) == if Bit(num, i) then 1 else 0
  {
    Pow2Of63And64();
    ShlOne(i);
    AndPow2(i, ToUnsigned(num));
    var masked := And(Shl(1, i), num);
    assert masked == Wrap(if Bit(num, i) then Pow2(i) else 0);
    if Bit(num, i) {
      if i < 63 {
        Pow2Monotone(i, 62);
        assert Pow2(63) == 2 * Pow2(62);
        assert masked == Pow2(i);
        assert Shr(masked, i) == 1;
      } else {
        assert masked == MinInt64;
        assert Shr(masked, i) == -1;
      }
    } else {
      assert masked == 0;
    }
  }

  /** The digit drawn for bit `i`. */
  function BitText(num: int64, i: nat): string
  {
    Itoa(CellValue(num, i))
  }

  lemma BitTextDigit(num: int64, i: nat)
    requires i < 64
    ensures BitText(num, i) == (if Bit(num, i) then "1" else "0")
  {
    CellBit(num, i);
  }

  /** The four bits of group `g` (0..3) of row `r` (0..3), highest first:
      bits 63 - (16 r + 4 g + x) for x = 0..3. */
  function Cells(num: int64, r: nat, g: nat): seq<string>
    requires r < 4 && g < 4
  {
    seq(4, x requires 0 <= x < 4 => BitText(num, 63 - (16 * r + 4 * g + x)))
  }

  /** Row `r` of the grid: its label (the bit count 64, 48, 32 or 16), then
      four groups of four digits. */
  function RowLine(num: int64, r: nat): string
    requires r < 4
  {
    Itoa(64 - 16 * r) + ": " + Join(Groups(num, r), "  ") + "\n"
  }

  /** The four groups of row `r`, each its digits joined by single spaces. */
  function Groups(num: int64, r: nat): (groups: seq<string>)
    requires r < 4
    ensures |groups| == 4 && forall g :: 0 <= g < 4 ==> groups[g] == Join(Cells(num, r, g), " ")
  {
    seq(4, g requires 0 <= g < 4 => Join(Cells(num, r, g), " "))
  }

  /** The layout of a row: after the two-digit label and ": ", group `g`
      starts at column 4 + 9 g and its digit `x` sits at column 4 + 9 g + 2 x,
      showing bit 63 - (16 r + 4 g + x). */
  lemma RowColumn(num: int64, r: nat, g: nat, x: nat)
    requires r < 4 && g < 4 && x < 4
    ensures |RowLine(num, r)| == 39
    ensures RowLine(num, r)[4 + 9 * g + 2 * x] == if Bit(num, 63 - (16 * r + 4 * g + x)) then '1' else '0'
  {
    RowBody(num, r, g, x);
    TwoDigits(64 - 16 * r);
    var head, body := Itoa(64 - 16 * r) + ": ", Join(Groups(num, r), "  ");
    assert |head| == 4;
    assert RowLine(num, r) == head + (body + "\n");
    assert (head + (body + "\n"))[|head| + (9 * g + 2 * x)] == body[9 * g + 2 * x];
  }

  /** The four groups, joined by two spaces, take 34 characters, and group
      `g` starts at column 9 g of them. */
  lemma RowBody(num: int64, r: nat, g: nat, x: nat)
    requires r < 4 && g < 4 && x < 4
    ensures |Join(Groups(num, r), "  ")| == 34
    ensures Join(Groups(num, r), "  ")[9 * g + 2 * x] == if Bit(num, 63 - (16 * r + 4 * g + x)) then '1' else '0'
  {
    var groups := Groups(num, r);
    forall g' | 0 <= g' < 4
      ensures |groups[g']| == 7
    {
      GroupLength(num, r, g');
    }
    JoinLength(groups, "  ", 7);
    JoinAt(groups, "  ", 7, g, 2 * x);
    GroupDigit(num, r, g, x);
  }

  /** Each group of four digits is written in seven characters. */
  lemma GroupLength(num: int64, r: nat, g: nat)
    requires r < 4 && g < 4
    ensures |Join(Cells(num, r, g), " ")| == 7
  {
    var cells := Cells(num, r, g);
    forall x | 0 <= x < 4
      ensures |cells[x]| == 1
    {
      BitTextDigit(num, 63 - (16 * r + 4 * g + x));
    }
    JoinLength(cells, " ", 1);
  }

  /** Digit `x` of a group sits at its column `2 x`. */
  lemma GroupDigit(num: int64, r: nat, g: nat, x: nat)
    requires r < 4 && g < 4 && x < 4
    ensures 2 * x < |Join(Cells(num, r, g), " ")|
    ensures Join(Cells(num, r, g), " ")[2 * x] == if Bit(num, 63 - (16 * r + 4 * g + x)) then '1' else '0'
  {
    var cells := Cells(num, r, g);
    forall x' | 0 <= x' < 4
      ensures |cells[x']| == 1
    {
      BitTextDigit(num, 63 - (16 * r + 4 * g + x'));
    }
    BitTextDigit(num, 63 - (16 * r + 4 * g + x));
    JoinAt(cells, " ", 1, x, 0);
  }

  /** What `binaryDisplayString` returns. */
  function BinaryLines(num: int64): seq<string>
  {
    [BinaryHeader] + seq(4, r requires 0 <= r < 4 => RowLine(num, r))
  }

  /** Row `rows[a, b]` after the first `t` iterations of the bit loop. */
  function Filled(num: int64, a: nat, b: nat, t: nat): seq<string>
    requires a < 4 && b < 4 && t <= 64
  {
    var c := 16 * a + 4 * b;
    if t <= c then [] else seq(4, x requires 0 <= x < 4 => if c + x < t then BitText(num, 63 - (c + x)) else "")
  }

  /** Iteration `t = 16 j + 4 k + w` of the bit loop writes bit 63 - t
      into slot `w` of row `(j, k)`, making that row on its first write,
      and leaves every other row as it was. */
  lemma FilledStep(num: int64, j: nat, k: nat, w: nat)
    requires j < 4 && k < 4 && w < 4
    ensures var t := 16 * j + 4 * k + w;
      && (Filled(num, j, k, t) == [] <==> w == 0)
      && Filled(num, j, k, t + 1) == (if w == 0 then ["", "", "", ""] else Filled(num, j, k, t))[w := BitText(num, 63 - t)]
      && forall a, b :: 0 <= a < 4 && 0 <= b < 4 && (a != j || b != k) ==> Filled(num, a, b, t + 1) == Filled(num, a, b, t)
  {
    var t := 16 * j + 4 * k + w;
    forall a, b | 0 <= a < 4 && 0 <= b < 4 && (a != j || b != k)
      ensures Filled(num, a, b, t + 1) == Filled(num, a, b, t)
    {
      var c := 16 * a + 4 * b;
      assert c + 4 <= t || t + 1 <= c;
    }
  }

  /** Once all 64 iterations have run, every row holds its four bits. */
  lemma FilledAll(num: int64, a: nat, b: nat)
    requires a < 4 && b < 4
    ensures Filled(num, a, b, 64) == Cells(num, a, b)
  {
  }

  /** The counters `j`, `k`, `w` of the bit loop step through the 64 cells
      in order: group slot first, then group, then row. */
  lemma Advance(j: int, k: int, w: int)
    requires 0 <= j < 4 && 0 <= k < 4 && 0 <= w < 4
    ensures var w' := (w + 1) % 4;
      var k' := if w' == 0 then (k + 1) % 4 else k;
      var j' := if w' == 0 && k' == 0 then (j + 1) % 4 else j;
      && 0 <= j' < 4 && 0 <= k' < 4 && 0 <= w' < 4
      && (16 * j + 4 * k + w < 63 ==> 16 * j' + 4 * k' + w' == 16 * j + 4 * k + w + 1)
  {
  }

  /** The bit loop of `binaryDisplayString`: rows[j][k][w] receives bit
      63 - (16 j + 4 k + w). */
  method BitRows(num: int64) returns (rows: array2<seq<string>>)
    ensures fresh(rows) && rows.Length0 == 4 && rows.Length1 == 4
    ensures forall a, b :: 0 <= a < 4 && 0 <= b < 4 ==> rows[a, b] == Cells(num, a, b)
  {
    rows := new seq<string>[4, 4]((_, _) => []);
    var j, k, w := 0, 0, 0;
    var i := 63;
    while i > -1
      invariant -1 <= i <= 63
      invariant 0 <= j < 4 && 0 <= k < 4 && 0 <= w < 4
      invariant i >= 0 ==> 16 * j + 4 * k + w == 63 - i
      invariant forall a, b :: 0 <= a < 4 && 0 <= b < 4 ==> rows[a, b] == Filled(num, a, b, 63 - i)
    {
      FilledStep(num, j, k, w);
      Advance(j, k, w);
      var valueString := BitText(num, i);
      var cells := rows[j, k];
      if cells == [] {
        cells := ["", "", "", ""];
      }
      rows[j, k] := cells[w := valueString];
      w := (w + 1) % 4;
      if w == 0 {
        k := (k + 1) % 4;
        if k == 0 {
          j := (j + 1) % 4;
        }
      }
      i := i - 1;
    }
    forall a, b | 0 <= a < 4 && 0 <= b < 4
      ensures rows[a, b] == Cells(num, a, b)
    {
      FilledAll(num, a, b);
    }
  }

  /** `binaryDisplayString`: the header and the four labelled rows. */
  method BinaryDisplayString(num: int64) returns (display: seq<string>)
    ensures display == BinaryLines(num)
  {
    var rows := BitRows(num);
    display := [BinaryHeader];
    for r := 0 to 4
      invariant |display| == r + 1 && display[0] == BinaryHeader
      invariant forall i :: 0 <= i < r ==> display[i + 1] == RowLine(num, i)
    {
      var inner: seq<string> := [];
      for g := 0 to 4
        invariant inner == seq(g, g' requires 0 <= g' < g => Join(Cells(num, r, g'), " "))
      {
        inner := inner + [Join(rows[r, g], " ")];
      }
      assert inner == Groups(num, r);
      var line := Itoa(64 - 16 * r) + ": " + Join(inner, "  ") + "\n";
      assert line == RowLine(num, r);
      display := display + [line];
    }
    assert forall i :: 0 <= i < 5 ==> display[i] == BinaryLines(num)[i];
  }

  // -----------------------------------------------------------------------
  // Character, decimal and hexadecimal lines
  // -----------------------------------------------------------------------

  /** Go's `rune(num)`: the low 32 bits, as a signed 32-bit number. */
  function Rune(num: int64): (r: int)
    ensures -0x8000_0000 <= r < 0x8000_0000
    ensures (r - num) % 0x1_0000_0000 == 0
  {
    (num + 0x8000_0000) % 0x1_0000_0000 - 0x8000_0000
  }

  predicate IsScalar(r: int)
  {
    0 <= r < 0xD800 || 0xE000 <= r < 0x11_0000
  }

  /** `string(rune(num))`: the character, or U+FFFD when the rune is not a
      Unicode scalar value. */
  function RuneText(num: int64): (s: string)
    ensures |s| == 1
    ensures IsScalar(Rune(num)) ==> s[0] as int == Rune(num)
    ensures !IsScalar(Rune(num)) ==> s[0] == '\U{FFFD}'
  {
    var r := Rune(num);
    if IsScalar(r) then [r as char] else ['\U{FFFD}']
  }

  /** The "ascii" line: control characters 7, 10, 11 and 12 are shown
      specially, everything else as the character itself. */
  function Ascii(num: int64): (r: string)
    ensures |r| >= 8 && r[..7] == "ascii: " && r[|r| - 1] == '\n'
    ensures num == 7 || num == 12 ==> r == "ascii: \n"
    ensures num == 10 ==> r == "ascii: \\n\n"
    ensures num == 11 ==> r == "ascii: \\r\n"
    ensures num !in {7, 10, 11, 12} && IsScalar(num) ==> r == "ascii: " + [num as char] + "\n"
    ensures num !in {7, 10, 11, 12} && 0 <= num < 0x8000_0000 && !IsScalar(num) ==> r == "ascii: \U{FFFD}\n"
    ensures num !in {7, 10, 11, 12} && IsScalar(Rune(num)) ==> r == "ascii: " + [Rune(num) as char] + "\n"
    ensures num !in {7, 10, 11, 12} && !IsScalar(Rune(num)) ==> r == "ascii: \U{FFFD}\n"
  {
    assert 0 <= num < 0x8000_0000 ==> Rune(num) == num;
    if num == 12 || num == 7 then "ascii: \n"
    else if num == 10 then "ascii: \\n\n"
    else if num == 11 then "ascii: \\r\n"
    else "ascii: " + RuneText(num) + "\n"
  }

  /** A printable ASCII value shows itself. */
  lemma AsciiPrintable(num: int64)
    requires 32 <= num < 127
    ensures Ascii(num) == "ascii: " + [num as char] + "\n"
  {
  }

  /** Apart from the four codes shown specially, two values whose runes are
      scalar values show the same line exactly when they agree in their low
      32 bits: `rune(num)` keeps only those. */
  lemma AsciiLow32(a: int64, b: int64)
    requires a !in {7, 10, 11, 12} && b !in {7, 10, 11, 12}
    requires IsScalar(Rune(a)) && IsScalar(Rune(b))
    ensures Ascii(a) == Ascii(b) <==> (a - b) % 0x1_0000_0000 == 0
  {
    var ra, rb := Rune(a), Rune(b);
    assert Ascii(a) == "ascii: " + [ra as char] + "\n";
    assert Ascii(b) == "ascii: " + [rb as char] + "\n";
    assert Ascii(a) == Ascii(b) ==> Ascii(a)[7] == Ascii(b)[7];
    RuneCongruent(a, b);
  }

  /** Two numbers have the same rune exactly when they are congruent
      modulo 2^32. */
  lemma RuneCongruent(a: int, b: int)
    requires MinInt64 <= a <= MaxInt64 && MinInt64 <= b <= MaxInt64
    ensures Rune(a) == Rune(b) <==> (a - b) % 0x1_0000_0000 == 0
  {
    var qa := (a + 0x8000_0000) / 0x1_0000_0000;
    var qb := (b + 0x8000_0000) / 0x1_0000_0000;
    assert a - b == 0x1_0000_0000 * (qa - qb) + (Rune(a) - Rune(b));
  }

  function DecimalLine(num: int64): string
  {
    DecimalLabel + Itoa(num) + "\n"
  }

  function HexLine(num: int64): string
  {
    HexLabel + HexText(num) + "\n"
  }

  /** Reading the number back from the decimal and hexadecimal lines. */
  lemma LinesRoundTrip(num: int64)
    ensures var d := DecimalLine(num); SignedValue(d[|DecimalLabel|..|d| - 1], 10) == num
    ensures var h := HexLine(num); SignedValue(h[|HexLabel|..|h| - 1], 16) == num
  {
    var d := DecimalLine(num);
    assert d[|DecimalLabel|..|d| - 1] == Itoa(num);
    ItoaRoundTrip(num);
    var h := HexLine(num);
    assert h[|HexLabel|..|h| - 1] == HexText(num);
    HexRoundTrip(num);
  }

  /** `displayString`: the eight lines drawn above the input line. */
  method DisplayString(num: int64) returns (lines: seq<string>)
    ensures lines == [Ascii(num), DecimalLine(num), HexLine(num)] + BinaryLines(num)
    ensures |lines| == 8
  {
    var binary := BinaryDisplayString(num);
    lines := [Ascii(num), DecimalLine(num), HexLine(num)] + binary;
  }
}
