/** Text helpers with the meaning of their counterparts in Go's `strings` and `strconv`. A string
    is a sequence of characters; multi-byte encodings play no part in the code modelled here. */
module Text {

  predicate HasPrefix(s: string, p: string) { p <= s }

  // ---------------------------------------------------------------- lines

  /** `strings.Split(s, "\n")`: at least one line, none of them holding a newline. */
  function Split(s: string): (lines: seq<string>)
    ensures |lines| >= 1
  {
    if s == [] then [[]]
    else
      var rest := Split(s[1..]);
      if s[0] == '\n' then [[]] + rest else [[s[0]] + rest[0]] + rest[1..]
  }

  /** `strings.Join(lines, "\n")`. */
  function Join(lines: seq<string>): string {
    if lines == [] then []
    else if |lines| == 1 then lines[0]
    else lines[0] + ['\n'] + Join(lines[1..])
  }

  predicate OneLine(s: string) { '\n' !in s }

  ghost predicate Lines(lines: seq<string>) {
    |lines| >= 1 && forall i | 0 <= i < |lines| :: OneLine(lines[i])
  }

  lemma {:induction false} SplitIsLines(s: string)
    ensures Lines(Split(s))
  {
    if s != [] { SplitIsLines(s[1..]); }
  }

  lemma {:induction false} JoinSplit(s: string)
    ensures Join(Split(s)) == s
  {
    if s != [] {
      JoinSplit(s[1..]);
      var rest := Split(s[1..]);
      if s[0] == '\n' {
        assert Split(s)[1..] == rest;
      } else {
        assert Split(s)[1..] == rest[1..];
        assert s == [s[0]] + Join(rest);
      }
    }
  }

  /** A line followed by a newline and more text splits off at that newline. */
  lemma {:induction false} SplitLine(line: string, rest: string)
    requires OneLine(line)
    ensures Split(line + ['\n'] + rest) == [line] + Split(rest)
    ensures Split(line) == [line]
  {
    var s := line + ['\n'] + rest;
    if line == [] {
      assert s[1..] == rest;
    } else {
      SplitLine(line[1..], rest);
      assert s[1..] == line[1..] + ['\n'] + rest;
      assert line == [line[0]] + line[1..];
    }
  }

  lemma {:induction false} SplitJoin(lines: seq<string>)
    requires Lines(lines)
    ensures Split(Join(lines)) == lines
  {
    if |lines| == 1 {
      SplitLine(lines[0], []);
    } else {
      SplitJoin(lines[1..]);
      SplitLine(lines[0], Join(lines[1..]));
    }
  }

  /** `strings.Repeat` of one character. */
  function Repeat(c: char, n: nat): (s: string)
    ensures |s| == n && forall i | 0 <= i < n :: s[i] == c
  {
    seq(n, i => c)
  }

  // ---------------------------------------------------------------- trimming

  /** `unicode.IsSpace`. */
  predicate IsSpace(c: char) {
    '\t' <= c <= '\r' || c in " \U{85}\U{A0}\U{1680}\U{2028}\U{2029}\U{202F}\U{205F}\U{3000}" ||
    '\U{2000}' <= c <= '\U{200A}'
  }

  /** The code points with the White_Space property of the Unicode Standard. */
  lemma SpaceExact(c: char)
    ensures IsSpace(c) <==>
            var n := c as int;
            0x9 <= n <= 0xD || n == 0x20 || n == 0x85 || n == 0xA0 || n == 0x1680 || 0x2000 <= n <= 0x200A ||
            n == 0x2028 || n == 0x2029 || n == 0x202F || n == 0x205F || n == 0x3000
  {
  }

  predicate IsBlank(c: char) { c == ' ' || c == '\t' }

  predicate IsPlainSpace(c: char) { c == ' ' }

  predicate IsHash(c: char) { c == '#' }

  predicate IsNewline(c: char) { c == '\n' }

  function TrimLeft(s: string, cut: char -> bool): (r: string)
    ensures |r| <= |s| && (r != [] ==> !cut(r[0]))
  {
    if s != [] && cut(s[0]) then TrimLeft(s[1..], cut) else s
  }

  function TrimRight(s: string, cut: char -> bool): (r: string)
    ensures r <= s && (r != [] ==> !cut(r[|r| - 1]))
  {
    if s != [] && cut(s[|s| - 1]) then TrimRight(s[..|s| - 1], cut) else s
  }

  function Trim(s: string, cut: char -> bool): string {
    TrimRight(TrimLeft(s, cut), cut)
  }

  function TrimSpace(s: string): string { Trim(s, IsSpace) }

  /** t is what is left of s when the characters of `cut` are removed at both ends. */
  ghost predicate Trimmed(s: string, t: string, cut: char -> bool) {
    exists i, j | 0 <= i <= j <= |s| :: TrimmedAt(s, t, cut, i, j)
  }

  ghost predicate TrimmedAt(s: string, t: string, cut: char -> bool, i: nat, j: nat)
    requires i <= j <= |s|
  {
    && t == s[i..j] && (forall k | 0 <= k < i || j <= k < |s| :: cut(s[k]))
    && (t != "" ==> !cut(t[0]) && !cut(t[|t| - 1]))
  }

  lemma {:induction false} TrimLeftIs(s: string, n: nat, cut: char -> bool)
    requires n <= |s| && (forall k | 0 <= k < n :: cut(s[k])) && (n < |s| ==> !cut(s[n]))
    ensures TrimLeft(s, cut) == s[n..]
  {
    if n > 0 {
      TrimLeftIs(s[1..], n - 1, cut);
      assert s[1..][n - 1..] == s[n..];
    }
  }

  lemma {:induction false} TrimRightIs(s: string, n: nat, cut: char -> bool)
    requires n <= |s| && (forall k | n <= k < |s| :: cut(s[k])) && (n > 0 ==> !cut(s[n - 1]))
    ensures TrimRight(s, cut) == s[..n]
  {
    if n < |s| {
      TrimRightIs(s[..|s| - 1], n, cut);
      assert s[..|s| - 1][..n] == s[..n];
    } else {
      assert s[..n] == s;
    }
  }

  lemma {:induction false} TrimLeftCuts(s: string, cut: char -> bool)
    ensures var n := |s| - |TrimLeft(s, cut)|; TrimLeft(s, cut) == s[n..] && forall k | 0 <= k < n :: cut(s[k])
  {
    if s != "" && cut(s[0]) {
      TrimLeftCuts(s[1..], cut);
      var n := |s| - |TrimLeft(s, cut)|;
      assert forall k | 1 <= k < n :: s[k] == s[1..][k - 1];
    }
  }

  lemma {:induction false} TrimRightCuts(s: string, cut: char -> bool)
    ensures var n := |TrimRight(s, cut)|; TrimRight(s, cut) == s[..n] && forall k | n <= k < |s| :: cut(s[k])
  {
    if s != "" && cut(s[|s| - 1]) { TrimRightCuts(s[..|s| - 1], cut); }
  }

  lemma TrimExact(s: string, t: string, cut: char -> bool)
    ensures Trimmed(s, t, cut) <==> t == Trim(s, cut)
  {
    hide TrimLeft, TrimRight;
    var left := TrimLeft(s, cut);
    TrimLeftCuts(s, cut);
    TrimRightCuts(left, cut);
    var i, j := |s| - |left|, |s| - |left| + |Trim(s, cut)|;
    assert Trim(s, cut) == s[i..j];
    assert forall k | j <= k < |s| :: s[k] == left[k - i];
    assert TrimmedAt(s, Trim(s, cut), cut, i, j) by {
      if i < j { assert !cut(left[0]) && left[0] == s[i]; }
    }
    if Trimmed(s, t, cut) {
      var a, b :| 0 <= a <= b <= |s| && TrimmedAt(s, t, cut, a, b);
      if a == b {
        assert forall k | 0 <= k < |s| :: cut(s[k]);
        TrimLeftIs(s, |s|, cut);
      } else {
        assert t[0] == s[a] && t[|t| - 1] == s[b - 1];
        TrimLeftIs(s, a, cut);
        TrimRightIs(s[a..], b - a, cut);
      }
    }
  }

  // ---------------------------------------------------------------- decimal numbers

  predicate IsDigit(c: char) { '0' <= c <= '9' }

  predicate AllDigits(s: string) { forall i | 0 <= i < |s| :: IsDigit(s[i]) }

  function DigitChar(d: nat): (c: char)
    requires d < 10
    ensures IsDigit(c)
  {
    '0' + d as char
  }

  /** `strconv.Itoa` on a non-negative number. */
  function Decimal(n: nat): (s: string)
    ensures s != [] && AllDigits(s)
  {
    if n < 10 then [DigitChar(n)] else Decimal(n / 10) + [DigitChar(n % 10)]
  }

  /** `strconv.Atoi` on a nonempty string of digits. */
  function ParseDecimal(s: string): nat
    requires AllDigits(s)
  {
    if s == [] then 0 else 10 * ParseDecimal(s[..|s| - 1]) + (s[|s| - 1] as int - '0' as int)
  }

  lemma {:induction false} DecimalRoundTrip(n: nat)
    ensures ParseDecimal(Decimal(n)) == n
  {
    if n < 10 {
      assert Decimal(n)[..0] == [];
    } else {
      DecimalRoundTrip(n / 10);
      var init := Decimal(n / 10);
      assert Decimal(n)[..|init|] == init;
    }
  }

  function Pow10(i: nat): (p: nat)
    ensures p > 0
  {
    if i == 0 then 1 else 10 * Pow10(i - 1)
  }

  /** The value of a digit. */
  function DigitValue(c: char): int { c as int - '0' as int }

  lemma DivideTwice(n: nat, p: nat)
    requires p > 0
    ensures n / 10 / p == n / (10 * p)
  {
    var a := n / 10;
    var q, r := a / p, a % p;
    assert a == p * q + r;
    assert (10 * p) * q == 10 * (p * q);
    QuotientIs(n, 10 * p, q, 10 * r + n % 10);
  }

  lemma QuotientIs(n: nat, p: nat, q: nat, r: nat)
    requires n == p * q + r && r < p
    ensures n / p == q
  {
    assert p * (n / p - q) == r - n % p;
    SmallMultiple(p, n / p - q);
  }

  lemma SmallMultiple(p: int, d: int)
    requires -p < p * d < p
    ensures d == 0
  {
  }

  /** The digits stand for the powers of ten, the last one for the ones, and the first is not zero
      unless it is the only one. */
  lemma {:induction false} DecimalPositional(n: nat, i: nat)
    ensures n < Pow10(|Decimal(n)|) && (n > 0 ==> Pow10(|Decimal(n)| - 1) <= n)
    ensures n == 0 ==> |Decimal(n)| == 1
    ensures i < |Decimal(n)| ==> DigitValue(Decimal(n)[|Decimal(n)| - 1 - i]) == n / Pow10(i) % 10
  {
    if n >= 10 {
      DecimalPositional(n / 10, if i > 0 then i - 1 else 0);
      if i > 0 { DivideTwice(n, Pow10(i - 1)); }
    }
  }

  /** A string of digits is read by the same rule, leading zeros included. */
  lemma {:induction false} ParsePositional(s: string, i: nat)
    requires AllDigits(s)
    ensures ParseDecimal(s) < Pow10(|s|)
    ensures i < |s| ==> ParseDecimal(s) / Pow10(i) % 10 == DigitValue(s[|s| - 1 - i])
  {
    if s != "" {
      var init := s[..|s| - 1];
      ParsePositional(init, if i > 0 then i - 1 else 0);
      if i > 0 {
        DivideTwice(ParseDecimal(s), Pow10(i - 1));
        assert ParseDecimal(s) / 10 == ParseDecimal(init);
      }
    }
  }

  lemma DecimalInjective(m: nat, n: nat)
    requires Decimal(m) == Decimal(n)
    ensures m == n
  {
    DecimalRoundTrip(m);
    DecimalRoundTrip(n);
  }
}
