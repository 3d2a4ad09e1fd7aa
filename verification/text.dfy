/**
 The few pieces of Python's `str` behaviour the chapter normaliser relies on:
 `strip()`, `rstrip(chars)` and `str(int)`.
 */
module Text {

  /** The characters Python's `str.isspace()` accepts; `str.strip()` with no argument
      removes these: TAB through CR, the four information separators, SPACE, NEL, NBSP
      and the Unicode space separators. */
  predicate IsSpace(c: char) {
    || '\t' <= c <= '\r'
    || '\U{1C}' <= c <= ' '
    || c == '\U{85}' || c == '\U{A0}' || c == '\U{1680}'
    || '\U{2000}' <= c <= '\U{200A}'
    || c == '\U{2028}' || c == '\U{2029}' || c == '\U{202F}' || c == '\U{205F}' || c == '\U{3000}'
  }

  /** `s.rstrip(chars)`, with the characters of `chars` given as the predicate `strip`:
      `s` without the longest suffix made only of such characters. */
  function RStrip(s: string, strip: char -> bool): string
    decreases |s|
  {
    if |s| > 0 && strip(s[|s| - 1]) then RStrip(s[..|s| - 1], strip) else s
  }

  /** What `RStrip` keeps is a prefix of `s`; what it drops is only characters `strip`
      accepts; and the prefix does not end in one. */
  lemma {:induction false} RStripSpec(s: string, strip: char -> bool)
    ensures |RStrip(s, strip)| <= |s| && RStrip(s, strip) == s[..|RStrip(s, strip)|]
    ensures forall k :: |RStrip(s, strip)| <= k < |s| ==> strip(s[k])
    ensures |RStrip(s, strip)| == 0 || !strip(RStrip(s, strip)[|RStrip(s, strip)| - 1])
    decreases |s|
  {
    if |s| > 0 && strip(s[|s| - 1]) {
      var init := s[..|s| - 1];
      RStripSpec(init, strip);
      var r := RStrip(init, strip);
      assert RStrip(s, strip) == r;
      assert init[..|r|] == s[..|r|];
    } else {
      assert s[..|s|] == s;
    }
  }

  /** `s.lstrip(chars)`: `s` without the longest prefix made only of characters `strip` accepts. */
  function LStrip(s: string, strip: char -> bool): string
    decreases |s|
  {
    if |s| > 0 && strip(s[0]) then LStrip(s[1..], strip) else s
  }

  /** What `LStrip` keeps is a suffix of `s`; what it drops is only characters `strip`
      accepts; and the suffix does not start with one. */
  lemma {:induction false} LStripSpec(s: string, strip: char -> bool)
    ensures |LStrip(s, strip)| <= |s| && LStrip(s, strip) == s[|s| - |LStrip(s, strip)|..]
    ensures forall k :: 0 <= k < |s| - |LStrip(s, strip)| ==> strip(s[k])
    ensures |LStrip(s, strip)| == 0 || !strip(LStrip(s, strip)[0])
    decreases |s|
  {
    if |s| > 0 && strip(s[0]) {
      var tail := s[1..];
      LStripSpec(tail, strip);
      var r := LStrip(tail, strip);
      assert LStrip(s, strip) == r;
      assert tail[|tail| - |r|..] == s[|s| - |r|..];
      forall k | 0 <= k < |s| - |r|
        ensures strip(s[k])
      {
        if k > 0 {
          assert s[k] == tail[k - 1];
        }
      }
    } else {
      assert s[0..] == s;
    }
  }

  /** Splitting `s` into a part whose last character `strip` rejects and a tail made only
      of characters it accepts can be done in one way only, and that way is `RStrip`. */
  lemma {:induction false} RStripUnique(s: string, strip: char -> bool, n: nat)
    requires n <= |s|
    requires forall k :: n <= k < |s| ==> strip(s[k])
    requires n == 0 || !strip(s[n - 1])
    ensures RStrip(s, strip) == s[..n]
    decreases |s|
  {
    if |s| > n {
      assert strip(s[|s| - 1]);
      var init := s[..|s| - 1];
      assert init[..n] == s[..n];
      RStripUnique(init, strip, n);
    } else {
      assert s[..n] == s;
    }
  }

  /** The mirror image of `RStripUnique` for `LStrip`. */
  lemma {:induction false} LStripUnique(s: string, strip: char -> bool, n: nat)
    requires n <= |s|
    requires forall k :: 0 <= k < n ==> strip(s[k])
    requires n == |s| || !strip(s[n])
    ensures LStrip(s, strip) == s[n..]
    decreases n
  {
    if n > 0 {
      assert strip(s[0]);
      var tail := s[1..];
      assert LStrip(s, strip) == LStrip(tail, strip);
      forall k | 0 <= k < n - 1
        ensures strip(tail[k])
      {
        assert tail[k] == s[k + 1];
      }
      assert n - 1 == |tail| || tail[n - 1] == s[n];
      LStripUnique(tail, strip, n - 1);
      assert tail[n - 1..] == s[n..];
    } else {
      assert s[0..] == s;
    }
  }

  /** `r` is what is left of `s` once the first `i` characters and everything after
      `i + |r|` are dropped, and only whitespace was dropped. */
  predicate WhitespaceAround(s: string, i: nat, r: string) {
    && i + |r| <= |s|
    && s[i..i + |r|] == r
    && (forall k :: 0 <= k < i ==> IsSpace(s[k]))
    && (forall k :: i + |r| <= k < |s| ==> IsSpace(s[k]))
  }

  /** `s.strip()`: `s` without leading and trailing whitespace. */
  function Strip(s: string): string {
    LStrip(RStrip(s, IsSpace), IsSpace)
  }

  /** `strip()` removes only whitespace, only at the ends, and leaves none there. */
  lemma StripRemovesEndWhitespace(s: string)
    ensures exists i :: WhitespaceAround(s, i, Strip(s))
    ensures |Strip(s)| == 0 || (!IsSpace(Strip(s)[0]) && !IsSpace(Strip(s)[|Strip(s)| - 1]))
  {
    var t := RStrip(s, IsSpace);
    var r := LStrip(t, IsSpace);
    RStripSpec(s, IsSpace);
    LStripSpec(t, IsSpace);
    var i := |t| - |r|;
    assert s[i..i + |r|] == r by {
      assert t == s[..|t|];
      assert r == t[i..];
    }
    forall k | 0 <= k < i
      ensures IsSpace(s[k])
    {
      assert s[k] == t[k];
    }
    forall k | i + |r| <= k < |s|
      ensures IsSpace(s[k])
    {
      assert |t| <= k;
    }
    assert Strip(s) == r;
    assert WhitespaceAround(s, i, Strip(s));
    if |r| > 0 {
      assert r[|r| - 1] == t[|t| - 1];
    }
  }

  /** A string with no whitespace at either end is left alone by `strip()`. */
  lemma StripUntrimmed(s: string)
    requires |s| == 0 || (!IsSpace(s[0]) && !IsSpace(s[|s| - 1]))
    ensures Strip(s) == s
  {
    RStripUnique(s, IsSpace, |s|);
    assert s[..|s|] == s;
    var t := RStrip(s, IsSpace);
    assert LStrip(t, IsSpace) == t;
  }

  /** `strip()` removes exactly the whitespace padding around a string that has none
      at its own ends. */
  lemma StripPadded(lead: string, s: string, trail: string)
    requires forall k :: 0 <= k < |lead| ==> IsSpace(lead[k])
    requires forall k :: 0 <= k < |trail| ==> IsSpace(trail[k])
    requires |s| == 0 || (!IsSpace(s[0]) && !IsSpace(s[|s| - 1]))
    ensures Strip(lead + s + trail) == s
  {
    var whole := lead + s + trail;
    if |s| == 0 {
      RStripUnique(whole, IsSpace, 0);
    } else {
      RStripUnique(whole, IsSpace, |lead + s|);
      assert whole[..|lead + s|] == lead + s;
      LStripUnique(lead + s, IsSpace, |lead|);
      assert (lead + s)[|lead|..] == s;
    }
  }

  /** The decimal digit character for `d`. */
  function DigitChar(d: nat): (c: char)
    requires d < 10
  {
    "0123456789"[d]
  }

  /** The value of a decimal digit character (0 for any other character). */
  function DigitValue(c: char): nat {
    if '0' <= c <= '9' then (c as int) - ('0' as int) else 0
  }

  predicate IsDigit(c: char) {
    '0' <= c <= '9'
  }

  /** The decimal digits of `n`, most significant first, with no leading zero. */
  function Digits(n: nat): (r: string)
    ensures |r| >= 1
    ensures forall k :: 0 <= k < |r| ==> IsDigit(r[k])
    ensures r[0] == '0' ==> n == 0
    decreases n
  {
    if n < 10 then [DigitChar(n)] else Digits(n / 10) + [DigitChar(n % 10)]
  }

  /** `str(i)` for a Python `int`: an optional minus sign followed by the decimal digits. */
  function IntString(i: int): string {
    if i < 0 then "-" + Digits(-i) else Digits(i)
  }

  /** `str(i)` is non-empty and made of digits, after a leading minus sign exactly when
      `i` is negative. */
  lemma IntStringShape(i: int)
    ensures |IntString(i)| >= 1
    ensures forall k :: 0 <= k < |IntString(i)| ==> IsDigit(IntString(i)[k]) || (k == 0 && IntString(i)[k] == '-')
    ensures IntString(i)[0] == '-' <==> i < 0
  {
    if i < 0 {
      var d := Digits(-i);
      assert forall k :: 1 <= k < |IntString(i)| ==> IntString(i)[k] == d[k - 1];
    }
  }

  /** The number a string of decimal digits denotes (the reading direction of `Digits`). */
  function ParseDigits(s: string): nat
    decreases |s|
  {
    if |s| == 0 then 0 else 10 * ParseDigits(s[..|s| - 1]) + DigitValue(s[|s| - 1])
  }

  /** `int(s)` for a string written the way `str(int)` writes one. */
  function ParseInt(s: string): int {
    if |s| > 0 && s[0] == '-' then 0 - ParseDigits(s[1..]) as int else ParseDigits(s)
  }

  lemma {:induction false} DigitsRoundTrip(n: nat)
    ensures ParseDigits(Digits(n)) == n
    decreases n
  {
    var s := Digits(n);
    if n >= 10 {
      DigitsRoundTrip(n / 10);
      assert s[..|s| - 1] == Digits(n / 10);
      assert DigitValue(s[|s| - 1]) == n % 10;
    }
  }

  /** `int(str(i)) == i`: the rendering of an integer loses nothing. */
  lemma IntStringRoundTrip(i: int)
    ensures ParseInt(IntString(i)) == i
  {
    if i < 0 {
      DigitsRoundTrip(-i);
      assert IntString(i)[1..] == Digits(-i);
    } else {
      DigitsRoundTrip(i);
    }
  }

  /** `str(i)` is the string "0" exactly for zero. */
  lemma IntStringIsZero(i: int)
    ensures IntString(i) == "0" <==> i == 0
  {
    IntStringRoundTrip(i);
  }
}
