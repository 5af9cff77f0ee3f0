/** The few pieces of java.lang.String and java.lang.Character behaviour that the
    sender and the receiver depend on, restricted to ASCII text, together with
    the two general helpers the other modules share: `Option` and `Min`. */
module JavaStrings {

  datatype Option<T> = None | Some(value: T)

  function Min(a: int, b: int): int
  {
    if a <= b then a else b
  }

  /** What a datagram buffer of `capacity` bytes keeps of a payload: the payload
      itself when it fits, otherwise its first `capacity` characters. */
  function Prefix(s: string, capacity: nat): (r: string)
    ensures |r| == Min(|s|, capacity)
    ensures r <= s
  {
    s[..Min(|s|, capacity)]
  }

  /** `String.trim` strips every character whose code is at most U+0020. */
  predicate IsTrimmed(c: char)
  {
    c <= ' '
  }

  function TrimStart(s: string): string
    decreases |s|
  {
    if |s| > 0 && IsTrimmed(s[0]) then TrimStart(s[1..]) else s
  }

  function TrimEnd(s: string): string
    decreases |s|
  {
    if |s| > 0 && IsTrimmed(s[|s| - 1]) then TrimEnd(s[..|s| - 1]) else s
  }

  /** `String.trim`. */
  function Trim(s: string): string
  {
    TrimEnd(TrimStart(s))
  }

  /** Stripping the front removes exactly the leading characters at most U+0020. */
  lemma {:induction false} TrimStartSpec(s: string)
    ensures var r := TrimStart(s);
      && |r| <= |s| && r == s[|s| - |r|..]
      && (r == [] || !IsTrimmed(r[0]))
      && (forall k :: 0 <= k < |s| - |r| ==> IsTrimmed(s[k]))
    decreases |s|
  {
    if |s| > 0 && IsTrimmed(s[0]) {
      TrimStartSpec(s[1..]);
    }
  }

  /** Stripping the back removes exactly the trailing characters at most U+0020. */
  lemma {:induction false} TrimEndSpec(s: string)
    ensures var r := TrimEnd(s);
      && |r| <= |s| && r == s[..|r|]
      && (r == [] || !IsTrimmed(r[|r| - 1]))
      && (forall k :: |r| <= k < |s| ==> IsTrimmed(s[k]))
    decreases |s|
  {
    if |s| > 0 && IsTrimmed(s[|s| - 1]) {
      TrimEndSpec(s[..|s| - 1]);
    }
  }

  /** `String.trim` gives the slice of `s` left once every leading and trailing
      character at most U+0020 is cut away: it neither starts nor ends with such
      a character, and everything cut on either side is one. */
  lemma TrimSpec(s: string)
    ensures var r := Trim(s);
      var a := |s| - |TrimStart(s)|;
      && 0 <= a <= a + |r| <= |s| && r == s[a..a + |r|]
      && (forall k :: 0 <= k < a ==> IsTrimmed(s[k]))
      && (forall k :: a + |r| <= k < |s| ==> IsTrimmed(s[k]))
      && (r == [] || (!IsTrimmed(r[0]) && !IsTrimmed(r[|r| - 1])))
  {
    TrimStartSpec(s);
    var t := TrimStart(s);
    TrimEndSpec(t);
    var r := TrimEnd(t);
    var a := |s| - |t|;
    assert r == s[a..a + |r|];
    forall k | a + |r| <= k < |s|
      ensures IsTrimmed(s[k])
    {
      assert s[k] == t[k - a];
    }
    if r != [] {
      assert r[0] == t[0];
    }
  }

  /** A text that neither starts nor ends with a character at most U+0020 is left
      as it is; one that does not start with one keeps its first character. */
  lemma TrimKeeps(s: string)
    ensures |s| > 0 && !IsTrimmed(s[0]) ==> |Trim(s)| > 0 && Trim(s)[0] == s[0]
    ensures |s| > 0 && !IsTrimmed(s[0]) && !IsTrimmed(s[|s| - 1]) ==> Trim(s) == s
  {
    if |s| > 0 && !IsTrimmed(s[0]) {
      assert TrimStart(s) == s;
      TrimEndSpec(s);
    }
  }

  /** A decimal digit as its ASCII character. */
  function DigitChar(d: int): char
    requires 0 <= d <= 9
  {
    ('0' as int + d) as char
  }

  function NatToString(n: nat): (r: string)
    ensures |r| >= 1
    ensures n >= 10 ==> |r| >= 2
    ensures forall k :: 0 <= k < |r| ==> '0' <= r[k] <= '9'
    decreases n
  {
    if n < 10 then [DigitChar(n)] else NatToString(n / 10) + [DigitChar(n % 10)]
  }

  /** `String.valueOf(int)`: decimal digits, with a leading minus sign for a negative value. */
  function IntToString(n: int): (r: string)
    ensures 0 <= n <= 9 ==> r == [DigitChar(n)]
    ensures n >= 10 ==> |r| >= 2
    ensures n < 0 ==> |r| >= 2 && r[0] == '-'
  {
    if n < 0 then "-" + NatToString(-n) else NatToString(n)
  }

  lemma BitStrings()
    ensures IntToString(0) == "0" && IntToString(1) == "1"
  {
  }

  /** Only the single-digit values are rendered as one digit character, so equal
      renderings of a digit value mean equal values. */
  lemma IntToStringDigitInjective(n: int, d: int)
    requires 0 <= d <= 9
    ensures IntToString(n) == IntToString(d) <==> n == d
  {
    if n < 0 {
      assert IntToString(n)[0] == '-' != IntToString(d)[0];
    } else if n >= 10 {
      assert |IntToString(n)| != |IntToString(d)|;
    }
  }

  /** `Character.getNumericValue` on ASCII: digits give 0..9, Latin letters of
      either case give 10..35, every other character gives -1. */
  function NumericValue(c: char): (v: int)
    ensures -1 <= v <= 35
    ensures v == 0 <==> c == '0'
    ensures v == 1 <==> c == '1'
    ensures 0 <= v <= 9 <==> '0' <= c <= '9'
  {
    if '0' <= c <= '9' then c as int - '0' as int
    else if 'a' <= c <= 'z' then c as int - 'a' as int + 10
    else if 'A' <= c <= 'Z' then c as int - 'A' as int + 10
    else -1
  }

  /** `s.endsWith(String.valueOf(marker))`. */
  predicate EndsWith(s: string, marker: char)
  {
    |s| > 0 && s[|s| - 1] == marker
  }
}
