/**
 The chapter normaliser of `KenmeiClient.process_manga_entries`: turns the raw
 `latestChapter` value of one reading-list entry into the chapter string that is
 compared with the saved state, or decides that the entry has no usable chapter.
 */
module Chapters {
  import opened Wrappers
  import opened Text

  /** A JSON value where a chapter number is expected. Floats stay abstract: a float
      whose `is_integer()` holds is kept as that integer, any other float as the text
      `str()` gives for it. */
  datatype Scalar =
    | Null                          // JSON null, or a missing key
    | Int(i: int)                   // a JSON integer
    | WholeFloat(value: int)        // a float with no fractional part, such as 179.0
    | FractionalFloat(repr: string) // any other float, by its `str()` rendering ("12.5", "inf")
    | Str(s: string)                // a JSON string
    | Other(repr: string)           // a boolean, list or object, by its `str()` rendering

  /** The `latestChapter` attribute. When it is an object only its `chapter` key is read
      (`Nested(Null)` also stands for an object without that key, and for a missing
      `latestChapter`, which defaults to an empty object). */
  datatype RawChapter = Bare(value: Scalar) | Nested(chapter: Scalar)

  /** The value the normaliser works on once an enclosing object is opened. */
  function Unwrap(raw: RawChapter): Scalar {
    match raw
    case Bare(v) => v
    case Nested(c) => c
  }

  /** `str(v)` after whole floats have been turned into integers. */
  function Render(v: Scalar): string {
    match v
    case Null => "None"
    case Int(i) => IntString(i)
    case WholeFloat(i) => IntString(i)
    case FractionalFloat(repr) => repr
    case Str(s) => s
    case Other(repr) => repr
  }

  predicate IsZeroChar(c: char) { c == '0' }

  predicate IsDot(c: char) { c == '.' }

  /** The trim applied to a chapter string containing `.`: trailing `0`s go first,
      then trailing `.`s. A string without `.` is left as it is. */
  function TrimFraction(s: string): string {
    if '.' in s then RStrip(RStrip(s, IsZeroChar), IsDot) else s
  }

  /** `s` is `head`, then a run of `.`s, then a run of `0`s, where the run of `0`s cannot
      be extended to the left and `head` does not end in `.`: the split the trim finds. */
  predicate TrimSplit(s: string, head: string, dots: string, zeros: string) {
    && s == head + dots + zeros
    && (forall k :: 0 <= k < |dots| ==> dots[k] == '.')
    && (forall k :: 0 <= k < |zeros| ==> zeros[k] == '0')
    && (|head + dots| == 0 || (head + dots)[|head + dots| - 1] != '0')
    && (|head| == 0 || head[|head| - 1] != '.')
  }

  /** The trim keeps a prefix and drops only `0`s and `.`s; on a dotted string the prefix
      never ends in `.` and what it drops is a run of `.`s followed by a run of `0`s that
      cannot be extended; a string without `.` is unchanged. */
  lemma TrimFractionSpec(s: string)
    ensures |TrimFraction(s)| <= |s| && TrimFraction(s) == s[..|TrimFraction(s)|]
    ensures '.' !in s ==> TrimFraction(s) == s
    ensures '.' in s ==> forall k :: |TrimFraction(s)| <= k < |s| ==> s[k] == '0' || s[k] == '.'
    ensures '.' in s ==> |TrimFraction(s)| == 0 || TrimFraction(s)[|TrimFraction(s)| - 1] != '.'
    ensures '.' in s ==> exists dots, zeros :: TrimSplit(s, TrimFraction(s), dots, zeros)
  {
    if '.' in s {
      var t := RStrip(s, IsZeroChar);
      RStripSpec(s, IsZeroChar);
      RStripSpec(t, IsDot);
      var r := RStrip(t, IsDot);
      assert r == s[..|r|];
      forall k | |r| <= k < |s|
        ensures s[k] == '0' || s[k] == '.'
      {
        if k < |t| {
          assert s[k] == t[k];
          assert IsDot(t[k]);
        } else {
          assert IsZeroChar(s[k]);
        }
      }
      TrimFractionSplit(s);
    }
  }

  /** What the trim of a dotted string drops is a run of `.`s followed by a maximal run of `0`s. */
  lemma TrimFractionSplit(s: string)
    requires '.' in s
    ensures exists dots, zeros :: TrimSplit(s, TrimFraction(s), dots, zeros)
  {
    var t := RStrip(s, IsZeroChar);
    var r := RStrip(t, IsDot);
    RStripSpec(s, IsZeroChar);
    RStripSpec(t, IsDot);
    assert TrimFraction(s) == r;
    var dots := t[|r|..];
    var zeros := s[|t|..];
    assert r + dots == t;
    assert s == t + zeros;
    forall k | 0 <= k < |dots|
      ensures dots[k] == '.'
    {
      assert IsDot(t[|r| + k]);
    }
    forall k | 0 <= k < |zeros|
      ensures zeros[k] == '0'
    {
      assert IsZeroChar(s[|t| + k]);
    }
    assert TrimSplit(s, r, dots, zeros);
  }

  /** A dotted string has one split only, and the trim keeps exactly its head. */
  lemma TrimFractionUnique(head: string, dots: string, zeros: string)
    requires '.' in head + dots + zeros
    requires TrimSplit(head + dots + zeros, head, dots, zeros)
    ensures TrimFraction(head + dots + zeros) == head
  {
    var s := head + dots + zeros;
    RStripUnique(s, IsZeroChar, |head + dots|);
    assert s[..|head + dots|] == head + dots;
    RStripUnique(head + dots, IsDot, |head|);
    assert (head + dots)[..|head|] == head;
  }

  /** The chapter string an entry is filed under, or `None` when the entry is skipped
      for having no chapter, or an empty or zero one. */
  function Normalize(raw: RawChapter): Option<string> {
    var v := Unwrap(raw);
    if v.Null? then None
    else
      var s := Strip(Render(v));
      if s == "" || s == "0" then None
      else Some(TrimFraction(s))
  }

  /** An entry is skipped exactly when its chapter is absent, or its stripped text is empty
      or "0" — decided BEFORE the trailing-zero trim. A kept chapter is a prefix of the
      stripped text that does not end in `.`, and is that whole text when it has no `.`;
      when the text has a `.`, the kept chapter is the head of its split, which
      `TrimFractionUnique` shows to be the only one. */
  lemma NormalizeSpec(raw: RawChapter)
    ensures Normalize(raw).None? <==> Unwrap(raw).Null? || Strip(Render(Unwrap(raw))) in {"", "0"}
    ensures Normalize(raw).Some? ==>
              var s := Strip(Render(Unwrap(raw)));
              var r := Normalize(raw).value;
              && r <= s
              && (|r| == 0 || r[|r| - 1] != '.')
              && ('.' !in s ==> r == s)
              && ('.' in s ==> exists dots, zeros :: TrimSplit(s, r, dots, zeros))
  {
    if Normalize(raw).Some? {
      var s := Strip(Render(Unwrap(raw)));
      var r := Normalize(raw).value;
      assert r == TrimFraction(s);
      TrimFractionSpec(s);
      assert r <= s;
      if '.' !in s && |r| > 0 {
        assert r[|r| - 1] in s;
      }
    }
  }

  /** An integer or a whole float, bare or inside a `latestChapter` object, normalises to
      its plain decimal rendering with no `.`, and a zero one is skipped. */
  lemma WholeChapter(raw: RawChapter, n: int)
    requires Unwrap(raw) == Int(n) || Unwrap(raw) == WholeFloat(n)
    ensures n == 0 ==> Normalize(raw) == None
    ensures n != 0 ==> Normalize(raw) == Some(IntString(n))
    ensures n != 0 ==> '.' !in Normalize(raw).value && ParseInt(Normalize(raw).value) == n
  {
    var s := IntString(n);
    assert Render(Unwrap(raw)) == s;
    IntStringShape(n);
    assert !IsSpace(s[0]) && !IsSpace(s[|s| - 1]);
    StripUntrimmed(s);
    IntStringIsZero(n);
    IntStringRoundTrip(n);
    assert '.' !in s by {
      forall k | 0 <= k < |s|
        ensures s[k] != '.'
      {
        assert IsDigit(s[k]) || s[k] == '-';
      }
    }
  }

  /** A present chapter whose stripped text is a dotted string normalises to the head of
      that string's split, whatever the chapter's type and whatever whitespace surrounds it. */
  lemma DottedChapter(raw: RawChapter, head: string, dots: string, zeros: string)
    requires !Unwrap(raw).Null?
    requires Strip(Render(Unwrap(raw))) == head + dots + zeros
    requires '.' in head + dots + zeros
    requires TrimSplit(head + dots + zeros, head, dots, zeros)
    ensures Normalize(raw) == Some(head)
  {
    assert '.' !in "0";
    TrimFractionUnique(head, dots, zeros);
  }

  /** A dotted string chapter with whitespace around it (possibly none) normalises to the
      head of its split: " 12.50 " -> "12.5". */
  lemma PaddedDottedString(raw: RawChapter, lead: string, head: string, dots: string, zeros: string, trail: string)
    requires Unwrap(raw) == Str(lead + (head + dots + zeros) + trail)
    requires forall k :: 0 <= k < |lead| ==> IsSpace(lead[k])
    requires forall k :: 0 <= k < |trail| ==> IsSpace(trail[k])
    requires '.' in head + dots + zeros
    requires !IsSpace((head + dots + zeros)[0]) && !IsSpace((head + dots + zeros)[|head + dots + zeros| - 1])
    requires TrimSplit(head + dots + zeros, head, dots, zeros)
    ensures Normalize(raw) == Some(head)
  {
    StripPadded(lead, head + dots + zeros, trail);
    DottedChapter(raw, head, dots, zeros);
  }

  /** A fractional chapter loses only its trailing zeros: "12.50" -> "12.5". */
  lemma TrailingZeroDropped()
    ensures Normalize(Bare(Str("12.50"))) == Some("12.5")
  {
    assert "" + ("12.5" + "" + "0") + "" == "12.50";
    PaddedDottedString(Bare(Str("12.50")), "", "12.5", "", "0", "");
  }

  /** A whole number written with a fraction loses the fraction and the dot:
      "12.00" -> "12", also inside a `latestChapter` object. */
  lemma ZeroFractionDropped()
    ensures Normalize(Nested(Str("12.00"))) == Some("12")
  {
    assert "" + ("12" + "." + "00") + "" == "12.00";
    PaddedDottedString(Nested(Str("12.00")), "", "12", ".", "00", "");
  }

  /** The empty/zero test runs before the trim, so "0.0" is kept, as "0". */
  lemma ZeroPointZeroKept()
    ensures Normalize(Bare(Str("0.0"))) == Some("0")
  {
    assert "" + ("0" + "." + "0") + "" == "0.0";
    PaddedDottedString(Bare(Str("0.0")), "", "0", ".", "0", "");
  }

  /** The empty/zero test runs before the trim, so ".0" is kept, as the empty string. */
  lemma DotZeroKept()
    ensures Normalize(Bare(Str(".0"))) == Some("")
  {
    assert "" + ("" + "." + "0") + "" == ".0";
    PaddedDottedString(Bare(Str(".0")), "", "", ".", "0", "");
  }

  /** Whitespace around a fractional chapter is stripped before the trim: " 12.50\n" -> "12.5". */
  lemma PaddedTrailingZeroDropped()
    ensures Normalize(Bare(Str(" 12.50\n"))) == Some("12.5")
  {
    assert " " + ("12.5" + "" + "0") + "\n" == " 12.50\n";
    PaddedDottedString(Bare(Str(" 12.50\n")), " ", "12.5", "", "0", "\n");
  }

  /** A string chapter that is "0" once surrounding whitespace is stripped is skipped. */
  lemma PaddedZeroSkipped(raw: RawChapter, lead: string, trail: string)
    requires Unwrap(raw) == Str(lead + "0" + trail)
    requires forall k :: 0 <= k < |lead| ==> IsSpace(lead[k])
    requires forall k :: 0 <= k < |trail| ==> IsSpace(trail[k])
    ensures Normalize(raw) == None
  {
    StripPadded(lead, "0", trail);
  }

  /** A string chapter made only of whitespace is skipped. */
  lemma BlankSkipped(raw: RawChapter, blank: string)
    requires Unwrap(raw) == Str(blank)
    requires forall k :: 0 <= k < |blank| ==> IsSpace(blank[k])
    ensures Normalize(raw) == None
  {
    RStripUnique(blank, IsSpace, 0);
  }
}
