/**
 * The few pieces of Go's `strconv` and `strings` packages the calculator
 * relies on: `strconv.Itoa`, `strconv.ParseInt(s, 10, 64)` on the tokens the
 * calculator can hand it, `fmt`'s `%x`, `strings.Join`, `strings.ReplaceAll`,
 * `strings.Replace(s, old, new, 1)` and `slices.Index`.
 * Strings are sequences of `char`, one per byte of the Go string.
 */
module Text {
  import opened Wrappers
  import opened Int64

  predicate IsDigit(c: char) { '0' <= c <= '9' }

  predicate AllDigits(s: string) { forall c <- s :: IsDigit(c) }

  /** The lower-case digit character for `d`. */
  function DigitChar(d: nat): (c: char)
    requires d < 16
  {
    if d < 10 then ('0' as int + d) as char else ('a' as int + d - 10) as char
  }

  /** The value of a digit character in `base`, or -1 if it is not one. */
  function DigitValue(c: char, base: nat): (d: int)
    requires 2 <= base <= 16
    ensures -1 <= d < base as int
    ensures d >= 0 ==> DigitChar(d) == c
  {
    var v :=
      if '0' <= c <= '9' then c as int - '0' as int
      else if 'a' <= c <= 'f' then c as int - 'a' as int + 10
      else -1;
    if v < base then v else -1
  }

  predicate IsBaseDigits(s: string, base: nat)
    requires 2 <= base <= 16
  {
    forall c <- s :: DigitValue(c, base) >= 0
  }

  /** The digits of `n` in `base`, most significant first, lower case,
      without leading zeros ("0" for zero). */
  function NatToBase(n: nat, base: nat): (s: string)
    requires 2 <= base <= 16
    ensures |s| >= 1 && IsBaseDigits(s, base)
    ensures s[0] == '0' ==> n == 0
    decreases n
  {
    DivModBase(n, base);
    (if n < base then [] else NatToBase(n / base, base)) + [DigitChar(n % base)]
  }

  lemma DivModBase(n: nat, base: nat)
    requires 2 <= base
    ensures n == base * (n / base) + n % base
    ensures 0 <= n % base < base
    ensures n >= base ==> 1 <= n / base < n
    ensures n < base ==> n / base == 0 && n % base == n
  {
    DivFacts(n, base);
  }

  /** The value of a string of digits in `base`. */
  function BaseValue(s: string, base: nat): nat
    requires 2 <= base <= 16
    requires IsBaseDigits(s, base)
  {
    if s == [] then 0
    else base * BaseValue(s[..|s| - 1], base) + DigitValue(s[|s| - 1], base)
  }

  lemma BaseValueSnoc(p: string, c: char, base: nat)
    requires 2 <= base <= 16
    requires IsBaseDigits(p, base) && DigitValue(c, base) >= 0
    ensures IsBaseDigits(p + [c], base)
    ensures BaseValue(p + [c], base) == base * BaseValue(p, base) + DigitValue(c, base)
  {
    assert (p + [c])[..|p|] == p;
  }

  /** The last digit of `n` is `n % base`, after the digits of `n / base`. */
  lemma LastDigit(n: nat, base: nat)
    requires 2 <= base <= 16
    ensures var prefix := if n < base then [] else NatToBase(n / base, base);
      BaseValue(NatToBase(n, base), base) == base * BaseValue(prefix, base) + n % base
  {
    DivModBase(n, base);
    var m := n % base;
    var prefix := if n < base then [] else NatToBase(n / base, base);
    assert NatToBase(n, base) == prefix + [DigitChar(m)];
    assert DigitValue(DigitChar(m), base) == m;
    BaseValueSnoc(prefix, DigitChar(m), base);
  }

  /** Reading back the digits of `n` gives `n`. */
  lemma {:induction false} BaseRoundTrip(n: nat, base: nat)
    requires 2 <= base <= 16
    ensures BaseValue(NatToBase(n, base), base) == n
    decreases n
  {
    LastDigit(n, base);
    DivModBase(n, base);
    if n >= base {
      BaseRoundTrip(n / base, base);
    }
  }

  /** `strconv.Itoa`: decimal, with a leading '-' for negative numbers. */
  function Itoa(x: int): (s: string)
    ensures |s| >= 1
    ensures s[0] == '-' <==> x < 0
  {
    if x < 0 then "-" + NatToBase(-x, 10)
    else var s := NatToBase(x, 10); assert DigitValue(s[0], 10) >= 0; s
  }

  /** `fmt.Sprintf("%x", x)` for a signed integer: lower-case hexadecimal of
      the magnitude, with a leading '-' for negative numbers. */
  function HexText(x: int): (s: string)
    ensures |s| >= 1
    ensures s[0] == '-' <==> x < 0
  {
    if x < 0 then "-" + NatToBase(-x, 16)
    else var s := NatToBase(x, 16); assert DigitValue(s[0], 16) >= 0; s
  }

  /** The value of a signed numeral as `Itoa` and `HexText` write it. */
  function SignedValue(s: string, base: nat): int
    requires 2 <= base <= 16
  {
    if |s| > 0 && s[0] == '-' && IsBaseDigits(s[1..], base) then -(BaseValue(s[1..], base) as int)
    else if IsBaseDigits(s, base) then BaseValue(s, base)
    else 0
  }

  lemma ItoaRoundTrip(x: int)
    ensures SignedValue(Itoa(x), 10) == x
  {
    if x < 0 {
      NegativeRoundTrip(-x, 10);
    } else {
      NonNegativeRoundTrip(x, 10);
    }
  }

  lemma HexRoundTrip(x: int)
    ensures SignedValue(HexText(x), 16) == x
  {
    if x < 0 {
      NegativeRoundTrip(-x, 16);
    } else {
      NonNegativeRoundTrip(x, 16);
    }
  }

  lemma NegativeRoundTrip(n: nat, base: nat)
    requires 2 <= base <= 16 && n > 0
    ensures SignedValue("-" + NatToBase(n, base), base) == -(n as int)
  {
    var t := NatToBase(n, base);
    var s := "-" + t;
    assert s[1..] == t;
    BaseRoundTrip(n, base);
  }

  lemma NonNegativeRoundTrip(n: nat, base: nat)
    requires 2 <= base <= 16
    ensures SignedValue(NatToBase(n, base), base) == n
  {
    var t := NatToBase(n, base);
    assert DigitValue(t[0], base) >= 0;
    assert DigitValue('-', base) == -1;
    assert t[0] != '-';
    assert SignedValue(t, base) == BaseValue(t, base);
    BaseRoundTrip(n, base);
  }

  lemma DecimalDigits(s: string)
    ensures IsBaseDigits(s, 10) <==> AllDigits(s)
  {
  }

  /** `strconv.ParseInt(s, 10, 64)` on a string that does not start with a
      sign: a non-empty run of decimal digits whose value fits in an int64.
      (A token that starts with '+' or '-' never reaches it.) */
  function ParseInt64(s: string): (r: Option<int64>)
    ensures r.Some? <==> |s| > 0 && AllDigits(s) && (DecimalDigits(s); BaseValue(s, 10) <= MaxInt64)
    ensures r.Some? ==> r.value >= 0
    ensures r.Some? ==> r.value == BaseValue(s, 10)
    ensures r.Some? && IsCanonical(s) ==> Itoa(r.value) == s
  {
    DecimalDigits(s);
    if |s| > 0 && AllDigits(s) && BaseValue(s, 10) <= MaxInt64 then
      if IsCanonical(s) then CanonicalRoundTrip(s); Some(BaseValue(s, 10))
      else Some(BaseValue(s, 10))
    else None
  }

  /** Leading zeros do not change what a numeral parses to: "007" reads
      as 7. */
  lemma LeadingZero(s: string)
    requires |s| > 0 && AllDigits(s)
    ensures ParseInt64("0" + s) == ParseInt64(s)
  {
    DecimalDigits(s);
    assert AllDigits("0" + s) by { assert forall c <- "0" + s :: c == '0' || c in s; }
    DecimalDigits("0" + s);
    ZeroPrefixValue(s);
  }

  /** A leading zero digit adds nothing to the value. */
  lemma {:induction false} ZeroPrefixValue(s: string)
    requires IsBaseDigits(s, 10) && IsBaseDigits("0" + s, 10)
    ensures BaseValue("0" + s, 10) == BaseValue(s, 10)
    decreases |s|
  {
    if s == [] {
      assert "0" + s == "0";
    } else {
      var p := s[..|s| - 1];
      assert ("0" + s)[..|"0" + s| - 1] == "0" + p;
      assert ("0" + s)[|"0" + s| - 1] == s[|s| - 1];
      ZeroPrefixValue(p);
    }
  }

  /** A decimal numeral as `Itoa` writes a non-negative number: digits only,
      and no leading zero unless it is "0" itself. */
  predicate IsCanonical(s: string)
  {
    |s| > 0 && AllDigits(s) && (s[0] == '0' ==> |s| == 1)
  }

  /** Decimal digits without a leading zero are the digits of their own value. */
  lemma {:induction false} CanonicalRoundTrip(s: string)
    requires IsCanonical(s)
    ensures NatToBase(BaseValue(s, 10), 10) == s
    decreases |s|
  {
    var p, c := s[..|s| - 1], s[|s| - 1];
    FinalDigit(s);
    var d := DigitValue(c, 10);
    var m := BaseValue(p, 10);
    var n := BaseValue(s, 10);
    assert s == p + [c];
    assert n == 10 * m + d;
    if p == [] {
      assert n == d;
      assert NatToBase(n, 10) == [DigitChar(d)];
    } else {
      assert p[0] == s[0];
      CanonicalRoundTrip(p);
      ZeroNumeral();
      assert NatToBase(m, 10)[0] == s[0] != '0';
      AppendDigit(m, d, n);
    }
  }

  lemma ZeroNumeral()
    ensures NatToBase(0, 10) == "0"
  {
  }

  /** The last character of a run of digits, and the digits before it. */
  lemma FinalDigit(s: string)
    requires |s| > 0 && AllDigits(s)
    ensures IsBaseDigits(s, 10) && IsBaseDigits(s[..|s| - 1], 10)
    ensures 0 <= DigitValue(s[|s| - 1], 10) < 10
    ensures DigitChar(DigitValue(s[|s| - 1], 10)) == s[|s| - 1]
  {
    DecimalDigits(s);
    DecimalDigits(s[..|s| - 1]);
    assert s[|s| - 1] in s;
  }

  /** Writing `10 * m + d` writes `m` and then the digit `d`. */
  lemma AppendDigit(m: nat, d: nat, n: nat)
    requires m > 0 && d < 10 && n == 10 * m + d
    ensures NatToBase(n, 10) == NatToBase(m, 10) + [DigitChar(d)]
  {
    assert n >= 10 && n / 10 == m && n % 10 == d;
  }

  /** A non-negative int64 written by `Itoa` parses back to itself. */
  lemma ParseItoa(x: int64)
    requires x >= 0
    ensures ParseInt64(Itoa(x)) == Some(x)
  {
    BaseRoundTrip(x, 10);
    DecimalDigits(Itoa(x));
  }

  /** `strings.Join`. */
  function Join(parts: seq<string>, sep: string): (s: string)
    ensures |parts| == 1 ==> s == parts[0]
  {
    if parts == [] then ""
    else if |parts| == 1 then parts[0]
    else parts[0] + sep + Join(parts[1..], sep)
  }

  /** One more stride: `(k + 1) * stride == stride + k * stride`. */
  lemma MulSucc(k: int, stride: int)
    ensures (k + 1) * stride == stride + k * stride
  {
  }

  /** Joining `n` parts of one length `len` takes `n` strides of
      `len + |sep|`, less one separator. */
  lemma {:induction false} JoinLength(parts: seq<string>, sep: string, len: nat)
    requires forall i :: 0 <= i < |parts| ==> |parts[i]| == len
    ensures parts != [] ==> |Join(parts, sep)| + |sep| == |parts| * (len + |sep|)
  {
    if |parts| > 1 {
      var rest := parts[1..];
      JoinLength(rest, sep, len);
        assert |Join(parts, sep)| == len + |sep| + |Join(rest, sep)|;
      MulSucc(|rest|, len + |sep|);
      assert |parts| == |rest| + 1;
    } else if |parts| == 1 {
      }
  }

  /** `i` strides of width `stride`, added up one at a time. */
  function Strides(i: nat, stride: nat): nat
  {
    if i == 0 then 0 else stride + Strides(i - 1, stride)
  }

  lemma {:induction false} StridesProduct(i: nat, stride: nat)
    ensures Strides(i, stride) == i * stride
  {
    if i > 0 {
      StridesProduct(i - 1, stride);
      MulSucc(i - 1, stride);
    }
  }

  /** Part `i` starts after `i` strides of the joined string. */
  lemma {:induction false} JoinAtStrides(parts: seq<string>, sep: string, len: nat, i: nat, c: nat)
    requires forall i :: 0 <= i < |parts| ==> |parts[i]| == len
    requires i < |parts| && c < len
    ensures Strides(i, len + |sep|) + c < |Join(parts, sep)|
    ensures Join(parts, sep)[Strides(i, len + |sep|) + c] == parts[i][c]
  {
    if i > 0 {
      var rest := parts[1..];
      JoinAtStrides(rest, sep, len, i - 1, c);
      var k := Strides(i - 1, len + |sep|) + c;
      var head, tail := parts[0] + sep, Join(rest, sep);
      assert Join(parts, sep) == head + tail;
      assert (head + tail)[|head| + k] == tail[k];
      assert rest[i - 1] == parts[i];
    } else if |parts| > 1 {
      assert Join(parts, sep) == parts[0] + sep + Join(parts[1..], sep);
    }
  }

  /** With parts of one length `len`, part `i` starts at column
      `i * (len + |sep|)` of the joined string. */
  lemma JoinAt(parts: seq<string>, sep: string, len: nat, i: nat, c: nat)
    requires forall i :: 0 <= i < |parts| ==> |parts[i]| == len
    requires i < |parts| && c < len
    ensures i * (len + |sep|) + c < |Join(parts, sep)|
    ensures Join(parts, sep)[i * (len + |sep|) + c] == parts[i][c]
  {
    JoinAtStrides(parts, sep, len, i, c);
    StridesProduct(i, len + |sep|);
  }

  /** A number from 10 to 99 is written with two digits. */
  lemma TwoDigits(n: nat)
    requires 10 <= n < 100
    ensures |Itoa(n)| == 2
  {
    assert NatToBase(n, 10) == NatToBase(n / 10, 10) + [DigitChar(n % 10)];
  }

  /** `pat` occurs somewhere in `s`. */
  predicate Contains(s: string, pat: string)
    decreases |s|
  {
    |pat| <= |s| && (s[..|pat|] == pat || (|s| > 0 && Contains(s[1..], pat)))
  }

  /** `pat` occurs in `s` at position `j`. */
  predicate OccursAt(s: string, pat: string, j: int)
  {
    0 <= j <= |s| - |pat| && s[j..j + |pat|] == pat
  }

  /** Dropping the first character moves every occurrence one place left. */
  lemma OccursShift(s: string, pat: string, j: int)
    requires |s| > 0 && j >= 1
    ensures OccursAt(s, pat, j) == OccursAt(s[1..], pat, j - 1)
  {
    if j <= |s| - |pat| {
      assert s[j..j + |pat|] == s[1..][j - 1..j - 1 + |pat|];
    }
  }

  /** The position of the first occurrence of `pat` in `s`, or -1. */
  function FindFirst(s: string, pat: string): (k: int)
    requires |pat| > 0
    ensures -1 <= k && (k >= 0 ==> k <= |s| - |pat|)
    decreases |s|
  {
    if |s| < |pat| then -1
    else if s[..|pat|] == pat then 0
    else
      var k := FindFirst(s[1..], pat);
      if k == -1 then -1 else k + 1
  }

  /** What `FindFirst` finds is an occurrence. */
  lemma {:induction false} FindFirstOccurs(s: string, pat: string)
    requires |pat| > 0 && FindFirst(s, pat) >= 0
    ensures OccursAt(s, pat, FindFirst(s, pat))
    decreases |s|
  {
    var k := FindFirst(s, pat);
    if k > 0 {
      FindFirstOccurs(s[1..], pat);
      OccursShift(s, pat, k);
    }
  }

  /** `FindFirst` finds an occurrence exactly when there is one. */
  lemma {:induction false} FindFirstContains(s: string, pat: string)
    requires |pat| > 0
    ensures FindFirst(s, pat) == -1 <==> !Contains(s, pat)
    decreases |s|
  {
    if |s| >= |pat| && s[..|pat|] != pat {
      FindFirstContains(s[1..], pat);
    }
  }

  /** `FindFirst` finds the first occurrence: there is none before it. */
  lemma {:induction false} FindFirstIsFirst(s: string, pat: string, j: int)
    requires |pat| > 0 && 0 <= j && (FindFirst(s, pat) == -1 || j < FindFirst(s, pat))
    ensures !OccursAt(s, pat, j)
    decreases |s|
  {
    if j > 0 && |s| >= |pat| {
      OccursShift(s, pat, j);
      FindFirstIsFirst(s[1..], pat, j - 1);
    }
  }

  /** `strings.ReplaceAll` for a non-empty pattern: every non-overlapping
      occurrence, scanning from the left, is replaced. */
  function ReplaceAll(s: string, pat: string, rep: string): (r: string)
    requires |pat| > 0
    ensures |s| > 0 && |rep| > 0 ==> |r| > 0
    decreases |s|
  {
    if |s| == 0 then ""
    else if |pat| <= |s| && s[..|pat|] == pat then rep + ReplaceAll(s[|pat|..], pat, rep)
    else [s[0]] + ReplaceAll(s[1..], pat, rep)
  }

  /** `strings.Replace(s, pat, rep, 1)` for a non-empty pattern: the first
      occurrence only. */
  function ReplaceFirst(s: string, pat: string, rep: string): (r: string)
    requires |pat| > 0
    decreases |s|
  {
    if |s| == 0 then ""
    else if |pat| <= |s| && s[..|pat|] == pat then rep + s[|pat|..]
    else [s[0]] + ReplaceFirst(s[1..], pat, rep)
  }

  /** Without an occurrence, both replacements leave the text alone. */
  lemma {:induction false} ReplaceNone(s: string, pat: string, rep: string)
    requires |pat| > 0 && !Contains(s, pat)
    ensures ReplaceFirst(s, pat, rep) == s && ReplaceAll(s, pat, rep) == s
    decreases |s|
  {
    if |s| > 0 {
      ReplaceNone(s[1..], pat, rep);
    }
  }

  /** At an occurrence of `pat`, `strings.ReplaceAll` puts `rep` in its place
      and goes on after it. */
  lemma ReplaceAllAtHead(s: string, pat: string, rep: string)
    requires |pat| > 0 && OccursAt(s, pat, 0)
    ensures ReplaceAll(s, pat, rep) == rep + ReplaceAll(s[|pat|..], pat, rep)
  {
    assert s[..|pat|] == s[0..0 + |pat|];
  }

  /** Where `pat` does not start, `strings.ReplaceAll` keeps the first character. */
  lemma ReplaceAllKeepsHead(s: string, pat: string, rep: string)
    requires |pat| > 0 && |s| > 0 && FindFirst(s, pat) != 0
    ensures ReplaceAll(s, pat, rep) == [s[0]] + ReplaceAll(s[1..], pat, rep)
  {
  }

  /** `s[..k]` and `s[k..]` seen from `s[1..]`. */
  lemma HeadSlices(s: string, k: nat)
    requires 0 < k <= |s|
    ensures [s[0]] + s[1..][..k - 1] == s[..k] && s[1..][k - 1..] == s[k..]
  {
  }

  /** `strings.Replace(s, pat, rep, 1)` replaces exactly the first
      occurrence and keeps everything around it. */
  lemma {:induction false} ReplaceFirstSplits(s: string, pat: string, rep: string)
    requires |pat| > 0
    ensures var k := FindFirst(s, pat);
      ReplaceFirst(s, pat, rep) == if k == -1 then s else s[..k] + rep + s[k + |pat|..]
    decreases |s|
  {
    var k := FindFirst(s, pat);
    if k == -1 {
      FindFirstContains(s, pat);
      ReplaceNone(s, pat, rep);
      assert ReplaceFirst(s, pat, rep) == s;
    } else if k == 0 {
      FindFirstOccurs(s, pat);
      assert s[..|pat|] == s[0..0 + |pat|];
      assert s[..0] + rep == rep;
      assert ReplaceFirst(s, pat, rep) == s[..k] + rep + s[k + |pat|..];
    } else {
      ReplaceFirstSplits(s[1..], pat, rep);
      ReplaceFirstLater(s, pat, rep, k);
      assert ReplaceFirst(s, pat, rep) == s[..k] + rep + s[k + |pat|..];
    }
  }

  /** The inductive step of `ReplaceFirstSplits`. */
  lemma ReplaceFirstLater(s: string, pat: string, rep: string, k: int)
    requires |pat| > 0 && k == FindFirst(s, pat) > 0
    requires var t := s[1..]; var k' := FindFirst(t, pat);
      k' >= 0 && ReplaceFirst(t, pat, rep) == t[..k'] + rep + t[k' + |pat|..]
    ensures ReplaceFirst(s, pat, rep) == s[..k] + rep + s[k + |pat|..]
  {
    var t := s[1..];
    var k' := k - 1;
    FindFirstLater(s, pat);
    assert ReplaceFirst(s, pat, rep) == [s[0]] + ReplaceFirst(t, pat, rep) by {
      assert !(|pat| <= |s| && s[..|pat|] == pat);
    }
    HeadSlices(s, k);
    HeadSlices(s, k + |pat|);
    Regroup(ReplaceFirst(s, pat, rep), ReplaceFirst(t, pat, rep), s[0], t[..k'], rep, t[k' + |pat|..], s[..k]);
  }

  /** `strings.ReplaceAll` replaces the first occurrence, keeps the text
      before it, and goes on after it: occurrences do not overlap. */
  lemma {:induction false} ReplaceAllSplits(s: string, pat: string, rep: string)
    requires |pat| > 0
    ensures var k := FindFirst(s, pat);
      ReplaceAll(s, pat, rep) == if k == -1 then s else s[..k] + rep + ReplaceAll(s[k + |pat|..], pat, rep)
    decreases |s|
  {
    var k := FindFirst(s, pat);
    if k == -1 {
      FindFirstContains(s, pat);
      ReplaceNone(s, pat, rep);
      assert ReplaceAll(s, pat, rep) == s;
    } else if k == 0 {
      FindFirstOccurs(s, pat);
      ReplaceAllAtHead(s, pat, rep);
      assert s[..0] + rep == rep;
      assert ReplaceAll(s, pat, rep) == s[..k] + rep + ReplaceAll(s[k + |pat|..], pat, rep);
    } else {
      ReplaceAllSplits(s[1..], pat, rep);
      ReplaceAllLater(s, pat, rep, k);
      assert ReplaceAll(s, pat, rep) == s[..k] + rep + ReplaceAll(s[k + |pat|..], pat, rep);
    }
  }

  /** The inductive step of `ReplaceAllSplits`: the first occurrence lies
      after the first character. */
  lemma ReplaceAllLater(s: string, pat: string, rep: string, k: int)
    requires |pat| > 0 && k == FindFirst(s, pat) > 0
    requires var t := s[1..]; var k' := FindFirst(t, pat);
      k' >= 0 && ReplaceAll(t, pat, rep) == t[..k'] + rep + ReplaceAll(t[k' + |pat|..], pat, rep)
    ensures ReplaceAll(s, pat, rep) == s[..k] + rep + ReplaceAll(s[k + |pat|..], pat, rep)
  {
    var t := s[1..];
    var k' := k - 1;
    FindFirstLater(s, pat);
    ReplaceAllKeepsHead(s, pat, rep);
    HeadSlices(s, k);
    HeadSlices(s, k + |pat|);
    Regroup(ReplaceAll(s, pat, rep), ReplaceAll(t, pat, rep), s[0], t[..k'], rep, ReplaceAll(t[k' + |pat|..], pat, rep), s[..k]);
  }

  /** A first occurrence after the first character is one place earlier in
      the rest. */
  lemma FindFirstLater(s: string, pat: string)
    requires |pat| > 0 && FindFirst(s, pat) > 0
    ensures FindFirst(s[1..], pat) == FindFirst(s, pat) - 1
  {
  }

  /** Regrouping a character in front of a three-part join. */
  lemma Regroup(x: string, y: string, c: char, a: string, b: string, d: string, e: string)
    requires x == [c] + y && y == a + b + d && [c] + a == e
    ensures x == e + b + d
  {
  }

  /** `slices.Index`: the first position of `x` in `s`, or -1. */
  function IndexOf(s: seq<int>, x: int): (r: int)
    ensures -1 <= r < |s|
    ensures r == -1 <==> x !in s
    ensures r >= 0 ==> s[r] == x && x !in s[..r]
  {
    if s == [] then -1
    else if s[0] == x then 0
    else var r := IndexOf(s[1..], x); if r == -1 then -1 else r + 1
  }
}
