/** The string facilities the code base leans on: Java's notions of
    whitespace and blankness, ASCII lower-casing, substring search, joining
    with a separator, and the decimal rendering of an Integer. */
module Text {
  import opened Common

  /** Character.isWhitespace: the Unicode space, line and paragraph separators
      other than the non-breaking ones, plus the ASCII controls TAB, LF, VT,
      FF, CR and the four information separators U+001C..U+001F. */
  predicate IsJavaWhitespace(c: char)
  {
    || c == ' ' || c == '\t' || c == '\n' || c == '\U{000B}' || c == '\U{000C}' || c == '\r'
    || ('\U{001C}' <= c <= '\U{001F}')
    || c == '\U{1680}'
    || ('\U{2000}' <= c <= '\U{2006}')
    || ('\U{2008}' <= c <= '\U{200A}')
    || c == '\U{2028}' || c == '\U{2029}' || c == '\U{205F}' || c == '\U{3000}'
  }

  /** String.isBlank: empty, or whitespace code points only. */
  predicate IsBlank(s: string)
  {
    forall i | 0 <= i < |s| :: IsJavaWhitespace(s[i])
  }

  /** Spring's StringUtils.hasText: not null and not blank. */
  predicate HasText(s: Option<string>)
  {
    s.Some? && !IsBlank(s.value)
  }

  /** String.trim() leaves something: trim strips every character at or
      below U+0020 from both ends, so some character lies above it. */
  predicate SurvivesTrim(s: string)
  {
    exists i | 0 <= i < |s| :: s[i] > ' '
  }

  /** ASCII lower-casing; every other character is left as it is. */
  function LowerChar(c: char): char
  {
    if 'A' <= c <= 'Z' then (c as int + 32) as char else c
  }

  function Lower(s: string): (r: string)
    ensures |r| == |s|
    ensures forall i | 0 <= i < |s| :: r[i] == LowerChar(s[i])
  {
    seq(|s|, i requires 0 <= i < |s| => LowerChar(s[i]))
  }

  /** `part` occurs in `text` as a contiguous run of characters. */
  predicate Contains(text: string, part: string)
  {
    exists i | 0 <= i <= |text| :: part <= text[i..]
  }

  /** Collectors.joining(sep): the parts in order, separated by sep. */
  function Join(parts: seq<string>, sep: string): string
  {
    if |parts| == 0 then ""
    else if |parts| == 1 then parts[0]
    else parts[0] + sep + Join(parts[1..], sep)
  }

  /** Number of occurrences of character c in s. */
  function Count(c: char, s: string): nat
  {
    if s == [] then 0 else (if s[0] == c then 1 else 0) + Count(c, s[1..])
  }

  lemma {:induction false} CountAppend(c: char, a: string, b: string)
    ensures Count(c, a + b) == Count(c, a) + Count(c, b)
  {
    if a != [] {
      assert (a + b)[1..] == a[1..] + b;
      CountAppend(c, a[1..], b);
    } else {
      assert a + b == b;
    }
  }

  function DigitChar(d: int): (c: char)
    requires 0 <= d < 10
    ensures '0' <= c <= '9'
  {
    ('0' as int + d) as char
  }

  /** Decimal digits of a natural number, most significant first, no leading
      zeros. */
  function NatToString(n: nat): (r: string)
    ensures |r| >= 1
    ensures forall k | 0 <= k < |r| :: '0' <= r[k] <= '9'
    decreases n
  {
    if n < 10 then [DigitChar(n)] else NatToString(n / 10) + [DigitChar(n % 10)]
  }

  /** Integer.toString, which is also what string concatenation and "%s"
      produce for an Integer. */
  function IntToString(i: int): string
  {
    if i < 0 then "-" + NatToString(-i) else NatToString(i)
  }

  /** Reads back a run of decimal digits. */
  function ParseNat(s: string): int
  {
    if s == [] then 0 else 10 * ParseNat(s[..|s| - 1]) + (s[|s| - 1] as int - '0' as int)
  }

  /** Reads back an optionally negated run of decimal digits. */
  function ParseInt(s: string): int
  {
    if |s| > 0 && s[0] == '-' then -ParseNat(s[1..]) else ParseNat(s)
  }

  lemma {:induction false} ParseNatToString(n: nat)
    ensures ParseNat(NatToString(n)) == n
  {
    if n >= 10 {
      var s := NatToString(n);
      assert s[..|s| - 1] == NatToString(n / 10);
      ParseNatToString(n / 10);
    }
  }

  /** Rendering an Integer loses nothing: it can be read back. */
  lemma ParseIntToString(i: int)
    ensures ParseInt(IntToString(i)) == i
  {
    if i < 0 {
      assert IntToString(i)[1..] == NatToString(-i);
      ParseNatToString(-i);
    } else {
      ParseNatToString(i);
    }
  }

  /** Distinct Integers render differently. */
  lemma IntToStringInjective(a: int, b: int)
    ensures IntToString(a) == IntToString(b) ==> a == b
  {
    ParseIntToString(a);
    ParseIntToString(b);
  }

  /** A message made of a fixed prefix and a rendered Integer names that
      Integer: equal messages mean equal ids. */
  lemma MessageDeterminesId(prefix: string, a: int, b: int)
    ensures prefix + IntToString(a) == prefix + IntToString(b) <==> a == b
  {
    if prefix + IntToString(a) == prefix + IntToString(b) {
      assert IntToString(a) == (prefix + IntToString(a))[|prefix|..];
      assert IntToString(b) == (prefix + IntToString(b))[|prefix|..];
      IntToStringInjective(a, b);
    }
  }
}
