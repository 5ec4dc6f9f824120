/**
 * Character and string helpers with Java's meaning: ASCII case mapping,
 * Character.isWhitespace, decimal rendering of integers and the "%.2f"
 * rendering of an hour count.
 */
module Text {

  function ToUpper(c: char): char
  {
    if 'a' <= c <= 'z' then (c as int - 32) as char else c
  }

  function ToLower(c: char): char
  {
    if 'A' <= c <= 'Z' then (c as int + 32) as char else c
  }

  /** String.toLowerCase. */
  function LowerAll(s: string): (r: string)
    ensures |r| == |s| && forall i :: 0 <= i < |s| ==> r[i] == ToLower(s[i])
  {
    seq(|s|, i requires 0 <= i < |s| => ToLower(s[i]))
  }

  /** Character.isWhitespace, for the characters below U+0080. */
  predicate IsWhitespace(c: char)
  {
    c == ' ' || c == '\t' || c == '\n' || c == '\r' || c == '\U{000B}' || c == '\U{000C}'
    || ('\U{001C}' <= c <= '\U{001F}')
  }

  /** String.isBlank: a scan that stops at the first non-whitespace character. */
  predicate IsBlank(s: string)
    ensures IsBlank(s) <==> forall i :: 0 <= i < |s| ==> IsWhitespace(s[i])
  {
    s == [] || (IsWhitespace(s[0]) && IsBlank(s[1..]))
  }

  function Digit(d: nat): char
    requires d < 10
  {
    ('0' as int + d) as char
  }

  function NatToString(n: nat): (r: string)
    ensures |r| > 0
    decreases n
  {
    if n < 10 then [Digit(n)] else NatToString(n / 10) + [Digit(n % 10)]
  }

  /** The decimal rendering of a long, as string concatenation produces it. */
  function IntToString(n: int): string
  {
    if n < 0 then "-" + NatToString(-n) else NatToString(n)
  }

  predicate AllDigits(s: string)
  {
    forall i :: 0 <= i < |s| ==> '0' <= s[i] <= '9'
  }

  /** The number a string of decimal digits denotes. */
  function DigitsValue(s: string): int
  {
    if s == [] then 0 else DigitsValue(s[..|s| - 1]) * 10 + (s[|s| - 1] as int - '0' as int)
  }

  /** The decimal rendering of n reads back as n, and starts with '0' only for 0 itself. */
  lemma {:induction false} NatToStringValue(n: nat)
    ensures AllDigits(NatToString(n)) && DigitsValue(NatToString(n)) == n
    ensures NatToString(n)[0] == '0' ==> NatToString(n) == "0"
  {
    var r := NatToString(n);
    if n < 10 {
      assert r[..0] == [];
    } else {
      var a := NatToString(n / 10);
      NatToStringValue(n / 10);
      assert r == a + [Digit(n % 10)];
      assert r[..|r| - 1] == a;
      assert r[0] == a[0];
    }
  }

  /** |x| in hundredths, rounded half-up: the whole number nearest to |x| * 100, ties going up. */
  function Hundredths(x: real): (h: nat)
    ensures var mag := if x < 0.0 then -x else x;
            h as real - 0.5 <= mag * 100.0 < h as real + 0.5
  {
    var mag := if x < 0.0 then -x else x;
    (mag * 100.0 + 0.5).Floor
  }

  /**
   * String.format("%.2f", x): the value rounded half-up to hundredths, a
   * minus sign for negative values, and always two fraction digits.
   */
  function FormatTwoDecimals(x: real): (r: string)
    ensures |r| >= 4 && r[|r| - 3] == '.'
  {
    RenderHundredths(x < 0.0, Hundredths(x))
  }

  /** h hundredths written with an optional minus sign, the whole part, '.', and two digits. */
  function RenderHundredths(negative: bool, h: nat): (r: string)
    ensures |r| >= 4 && r[|r| - 3] == '.'
  {
    var sign := if negative then "-" else "";
    sign + NatToString(h / 100) + "." + [Digit((h % 100) / 10), Digit(h % 10)]
  }

  /**
   * `body` is digits without a leading zero (a lone "0" aside), '.', and two
   * digits, that together denote `h` hundredths.
   */
  predicate DecimalText(body: string, h: int)
  {
    && |body| >= 4 && body[|body| - 3] == '.'
    && (|body| == 4 || body[0] != '0')
    && AllDigits(body[..|body| - 3]) && AllDigits(body[|body| - 2..])
    && DigitsValue(body[..|body| - 3]) * 100 + DigitsValue(body[|body| - 2..]) == h
  }

  /**
   * What "%.2f" prints reads back as the rounded value: a minus sign exactly
   * for negative values, then digits, '.', and two digits that together
   * denote Hundredths(x).
   */
  lemma FormatTwoDecimalsValue(x: real)
    ensures var r := FormatTwoDecimals(x);
            && (x < 0.0 <==> r[0] == '-')
            && DecimalText(if x < 0.0 then r[1..] else r, Hundredths(x))
  {
    RenderHundredthsValue(x < 0.0, Hundredths(x));
  }

  /** The rendering of h hundredths reads back as h, after the sign. */
  lemma RenderHundredthsValue(negative: bool, h: nat)
    ensures var r := RenderHundredths(negative, h);
            && (negative <==> r[0] == '-')
            && DecimalText(if negative then r[1..] else r, h)
  {
    var intPart := NatToString(h / 100);
    var body := intPart + "." + [Digit((h % 100) / 10), Digit(h % 10)];
    var sign := if negative then "-" else "";
    var r := RenderHundredths(negative, h);
    assert r == sign + body;
    HundredthsBody(h);
    NatToStringValue(h / 100);
    assert r[|sign|..] == body;
    assert (if negative then r[1..] else r) == body;
    assert r[0] == (if negative then '-' else intPart[0]);
  }

  /** The unsigned rendering of h hundredths reads back as h. */
  lemma HundredthsBody(h: nat)
    ensures DecimalText(NatToString(h / 100) + "." + [Digit((h % 100) / 10), Digit(h % 10)], h)
  {
    var q, m := h / 100, h % 100;
    var intPart, frac := NatToString(q), [Digit(m / 10), Digit(m % 10)];
    NatToStringValue(q);
    TwoDigitsValue(m);
    LastDigit(h);
    assert frac == [Digit((h % 100) / 10), Digit(h % 10)];
    HundredsAndRest(h);
    DecimalTextOf(intPart, frac, h);
  }

  lemma HundredsAndRest(h: nat)
    ensures (h / 100) * 100 + h % 100 == h
  {
  }

  /** The units digit of h is the units digit of its last two digits. */
  lemma LastDigit(h: nat)
    ensures (h % 100) % 10 == h % 10
  {
    var a, m := h / 100, h % 100;
    assert h == 10 * (10 * a + m / 10) + m % 10;
  }

  /** Digits, '.', and two digits denote the hundredths they spell. */
  lemma DecimalTextOf(intPart: string, frac: string, h: int)
    requires |intPart| > 0 && |frac| == 2 && AllDigits(intPart) && AllDigits(frac)
    requires |intPart| == 1 || intPart[0] != '0'
    requires DigitsValue(intPart) * 100 + DigitsValue(frac) == h
    ensures DecimalText(intPart + "." + frac, h)
  {
    var body := intPart + "." + frac;
    assert body[..|body| - 3] == intPart;
    assert body[|body| - 2..] == frac;
  }

  /** Two digits read back as the number below 100 they render. */
  lemma TwoDigitsValue(n: nat)
    requires n < 100
    ensures AllDigits([Digit(n / 10), Digit(n % 10)])
    ensures DigitsValue([Digit(n / 10), Digit(n % 10)]) == n
  {
    var f := [Digit(n / 10), Digit(n % 10)];
    assert f[..1] == [Digit(n / 10)] && f[..1][..0] == [];
    assert f[0] as int - '0' as int == n / 10 && f[1] as int - '0' as int == n % 10;
    assert DigitsValue(f[..1]) == n / 10;
    assert DigitsValue(f) == DigitsValue(f[..1]) * 10 + n % 10;
  }

  /** The words written one after the other. */
  function Flatten(words: seq<string>): string
  {
    if words == [] then [] else words[0] + Flatten(words[1..])
  }

  /** Collectors.joining with a one-character separator. */
  function JoinWith(sep: char, words: seq<string>): (r: string)
    ensures |words| > 0 ==> |r| == |Flatten(words)| + |words| - 1
  {
    if words == [] then []
    else if |words| == 1 then words[0]
    else words[0] + [sep] + JoinWith(sep, words[1..])
  }

  /** The pieces of `s` between occurrences of `sep` (String.split with the empty pieces kept). */
  function SplitOn(sep: char, s: string): (r: seq<string>)
    ensures |r| > 0
  {
    if s == [] then [[]]
    else
      var rest := SplitOn(sep, s[1..]);
      if s[0] == sep then [[]] + rest else [[s[0]] + rest[0]] + rest[1..]
  }

  /** A word without `sep` is one piece. */
  lemma {:induction false} SplitWord(sep: char, w: string)
    requires sep !in w
    ensures SplitOn(sep, w) == [w]
  {
    if w != [] {
      SplitWord(sep, w[1..]);
      assert [w[0]] + w[1..] == w;
    }
  }

  /** A word without `sep`, then `sep`, is the first piece. */
  lemma {:induction false} SplitWordThen(sep: char, w: string, rest: string)
    requires sep !in w
    ensures SplitOn(sep, w + [sep] + rest) == [w] + SplitOn(sep, rest)
  {
    if w == [] {
      assert w + [sep] + rest == [sep] + rest;
      assert ([sep] + rest)[1..] == rest;
    } else {
      SplitWordThen(sep, w[1..], rest);
      assert (w + [sep] + rest)[1..] == w[1..] + [sep] + rest;
      assert [w[0]] + w[1..] == w;
    }
  }

  /** Splitting what joining produced gives back the words, when no word holds the separator. */
  lemma {:induction false} SplitJoin(sep: char, words: seq<string>)
    requires |words| > 0
    requires forall i :: 0 <= i < |words| ==> sep !in words[i]
    ensures SplitOn(sep, JoinWith(sep, words)) == words
  {
    if |words| == 1 {
      SplitWord(sep, words[0]);
    } else {
      SplitJoin(sep, words[1..]);
      SplitWordThen(sep, words[0], JoinWith(sep, words[1..]));
      assert words == [words[0]] + words[1..];
    }
  }
}
