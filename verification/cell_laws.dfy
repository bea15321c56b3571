/** What the field normalizers of `Cell` promise beyond one call: reading back what was printed,
    applying a normalizer to its own output, and the behaviour on sample fields. */
module CellLaws {
  import opened Optional
  import opened Text
  import opened Regex
  import opened Cell

  /** Digits are neither blanks nor upper-case letters, so a numeral is already trimmed and
      lower-case. */
  lemma NumeralIsNormal(d: string)
    requires |d| > 0 && AllDigits(d)
    ensures Trim(d) == d && Lower(d) == d
  {
    TrimStripped(d);
    LowerNoUpper(d);
  }

  /** A year printed with `Integer.toString` is read back by `parseYear`. */
  lemma YearRoundTrip(y: nat)
    requires 1000 <= y <= 9999
    ensures ParseYear(NatText(y)) == Some(y)
  {
    var s := NatText(y);
    NatTextFourDigits(y);
    assert s[0..4] == s;
    assert IsWordChar(s[0]) && IsWordChar(s[3]);
    assert YearMatch(s, 0);
    FindAtStart(Year, s);
  }

  /** A year below 1000 prints with fewer than four digits, so `parseYear` does not read it back,
      although it reads the same year from a zero-padded field such as `0999`. */
  lemma ShortYearNotReadBack(y: nat)
    requires y < 1000
    ensures ParseYear(NatText(y)) == None
  {
    if y >= 100 {
      assert |NatText(y / 100)| == 1 && |NatText(y / 10)| == 2;
    } else if y >= 10 {
      assert |NatText(y / 10)| == 1;
    }
    assert |NatText(y)| <= 3;
  }

  /** How `%s` prints a launch status: the boxed year, the stored word, or `null`. */
  function StatusText(st: Status): string {
    match st
    case Released(y) => NatText(y)
    case Discontinued => "discontinued"
    case Cancelled => "cancelled"
    case Unknown => "null"
  }

  /** A word of small ASCII letters is its own trimmed, lower-cased form. */
  lemma WordIsNormal(w: string)
    requires |w| > 0 && forall k :: 0 <= k < |w| ==> 'a' <= w[k] <= 'z'
    ensures Lower(Trim(w)) == w
  {
    TrimStripped(w);
    LowerNoUpper(w);
  }

  /** `null` holds no year and is neither of the two words. */
  lemma NullIsUnknown()
    ensures ParseLaunchStatus("null") == Unknown
  {
    WordIsNormal("null");
    assert !IsDigit("null"[0]);
    assert NoMatch(Year, "null");
  }

  /** A printed launch status is read back as the same status. */
  lemma StatusRoundTrip(st: Status)
    requires st.Released? ==> 1000 <= st.year <= 9999
    ensures ParseLaunchStatus(StatusText(st)) == st
  {
    match st
    case Released(y) =>
      NumeralIsNormal(NatText(y));
      NatTextFourDigits(y);
      YearRoundTrip(y);
    case Discontinued =>
      WordIsNormal("discontinued");
    case Cancelled =>
      WordIsNormal("cancelled");
    case Unknown =>
      NullIsUnknown();
  }

  /** A text that is one whole dimensions match is its own dimensions. */
  lemma DimensionsOfMatch(t: string)
    requires DimensionsEnd(t, 0) == Some(|t|)
    ensures ParseBodyDimensions(t) == Some(t)
  {
    FindAtStart(Dimensions, t);
    assert t[0..|t|] == t;
  }

  /** The text of a dimensions match, cut out of its field, is one whole match. */
  lemma DimensionsSliceIsMatch(value: string, i: nat, e: nat)
    requires i < e <= |value| && DimensionsEnd(value, i) == Some(e)
    ensures ParseBodyDimensions(value[i..e]) == Some(value[i..e])
  {
    var t := value[i..e];
    SliceAgrees(value, i, e);
    DimensionsShift(value, i, t);
    DimensionsOfMatch(t);
  }

  /** The text `parseBodyDimensions` returns is found again in itself. */
  lemma DimensionsFound(value: string) returns (i: nat, e: nat)
    requires ParseBodyDimensions(value).Some?
    ensures i < e <= |value| && ParseBodyDimensions(value) == Some(value[i..e])
    ensures ParseBodyDimensions(value[i..e]) == Some(value[i..e])
  {
    i := Find(Dimensions, value).value;
    e := DimensionsEnd(value, i).value;
    DimensionsSliceIsMatch(value, i, e);
  }

  /** `parseBodyDimensions` applied to its own result finds the same text. */
  lemma DimensionsIdempotent(value: string)
    requires ParseBodyDimensions(value).Some?
    ensures ParseBodyDimensions(ParseBodyDimensions(value).value) == ParseBodyDimensions(value)
  {
    var i, e := DimensionsFound(value);
  }

  /** A weight printed as digits, a space and `g` is read back. */
  lemma WeightRoundTrip(n: nat)
    ensures ParseBodyWeight(NatText(n) + " g") == Some(n)
  {
    var d := NatText(n);
    var s := d + " g";
    var m := |d|;
    assert s[0] == d[0] && s[|s| - 1] == 'g';
    TrimStripped(s);
    LowerNoUpper(s);
    assert !IsYesNo(s) by {
      assert s[0] != 'n' && s[0] != 'y';
    }
    AllInIff(s, 0, m, Digit);
    SpanIs(s, 0, Digit, m);
    assert AllIn(s, m, m + 1, Space);
    SpanIs(s, m, Space, m + 1);
    assert WeightMatch(s, 0);
    FindAtStart(Weight, s);
    assert s[0..m] == d;
  }

  /** The trimmed, lower-cased form of a numeral followed by ` inches` is the text itself. */
  lemma SizeTextIsNormal(d: Decimal)
    requires WellFormedDecimal(d)
    ensures Lower(Trim(DecimalText(d) + " inches")) == DecimalText(d) + " inches"
  {
    var s := DecimalText(d) + " inches";
    assert s[0] == d.whole[0] && s[|s| - 1] == 's';
    TrimStripped(s);
    forall k | 0 <= k < |s|
      ensures !('A' <= s[k] <= 'Z')
    {
      if k < |d.whole| {
        assert s[k] == d.whole[k];
      } else if d.fraction.Some? && |d.whole| < k < |d.whole| + 1 + |d.fraction.value| {
        assert s[k] == d.fraction.value[k - |d.whole| - 1];
      }
    }
    LowerNoUpper(s);
  }

  /** ` inches` at the end of a text is found where it starts. */
  lemma InchesSuffix(t: string, s: string)
    requires s == t + " inches"
    ensures InchesAt(s, |t|)
  {
    var e := |t|;
    assert s[e] == ' ' && s[e + 1] == 'i';
    assert AllIn(s, e, e + 1, Space);
    SpanIs(s, e, Space, e + 1);
    assert s[e + 1..e + 7] == "inches";
    LiteralAtOf(s, e + 1, "inches");
  }

  /** The whole digits of `d` start `s`, and ` inches` follows the numeral. */
  lemma SizeTextParts(d: Decimal, s: string)
    requires WellFormedDecimal(d) && s == DecimalText(d) + " inches"
    ensures DigitsEnd(s, 0) == |d.whole| && s[0..|d.whole|] == d.whole
    ensures InchesAt(s, |DecimalText(d)|)
  {
    var w := |d.whole|;
    AllInIff(s, 0, w, Digit);
    assert forall k :: 0 <= k < w ==> s[k] == d.whole[k];
    assert w == |s| || !IsDigit(s[w]);
    SpanIs(s, 0, Digit, w);
    InchesSuffix(DecimalText(d), s);
  }

  /** The fraction digits of `d` follow its point in `s`. */
  lemma SizeTextFraction(d: Decimal, s: string)
    requires WellFormedDecimal(d) && d.fraction.Some? && s == DecimalText(d) + " inches"
    ensures s[|d.whole|] == '.'
    ensures DigitsEnd(s, |d.whole| + 1) == |DecimalText(d)|
    ensures s[|d.whole| + 1..|DecimalText(d)|] == d.fraction.value
  {
    var w := |d.whole|;
    var e := |DecimalText(d)|;
    var f := d.fraction.value;
    AllInIff(s, w + 1, e, Digit);
    assert forall k :: w + 1 <= k < e ==> s[k] == f[k - w - 1];
    SpanIs(s, w + 1, Digit, e);
    assert s[w + 1..e] == f;
  }

  /** The numeral `d` starts `s` and is followed by ` inches`: the Size pattern matches at 0 and
      its group is `d`. */
  lemma SizeAtStart(d: Decimal, s: string)
    requires WellFormedDecimal(d) && s == DecimalText(d) + " inches"
    ensures SizeEnd(s, 0) == Some(|DecimalText(d)|)
    ensures SizeNumeral(s, 0) == d
  {
    SizeTextParts(d, s);
    if d.fraction.Some? {
      SizeTextFraction(d, s);
    } else {
      assert s[|d.whole|] == ' ';
    }
  }

  /** A display size written as its numeral and ` inches` is read back. */
  lemma SizeRoundTrip(d: Decimal)
    requires WellFormedDecimal(d)
    ensures ParseDisplaySize(DecimalText(d) + " inches") == Some(d)
  {
    var s := DecimalText(d) + " inches";
    SizeTextIsNormal(d);
    SizeAtStart(d, s);
    FindAtStart(Size, s);
  }

  /** The yes/no test sees the same text before and after trimming. */
  lemma YesNoTrimmed(value: string)
    ensures IsYesNo(Trim(value)) == IsYesNo(value)
  {
    TrimIdempotent(value);
  }

  /** A kept SIM field is kept unchanged by a second pass. */
  lemma SimIdempotent(value: string)
    requires ParseBodySim(value).Some?
    ensures ParseBodySim(ParseBodySim(value).value) == ParseBodySim(value)
  {
    YesNoTrimmed(value);
    TrimIdempotent(value);
  }

  /** A kept sensors field is kept unchanged by a second pass. */
  lemma SensorsIdempotent(value: string)
    requires ParseFeaturesSensors(value).Some?
    ensures ParseFeaturesSensors(ParseFeaturesSensors(value).value) == ParseFeaturesSensors(value)
  {
    TrimIdempotent(value);
  }

  /** Every character of `trim(s)` is a character of `s`. */
  lemma TrimChars(s: string)
    ensures forall c :: c in Trim(s) ==> c in s
  {
    var st := Span(s, 0, Blank);
    var en := SpanBack(s, st, |s|, Blank);
    assert Trim(s) == s[st..en];
    forall c | c in Trim(s)
      ensures c in s
    {
      var k :| 0 <= k < |Trim(s)| && Trim(s)[k] == c;
      assert s[st + k] == c;
    }
  }

  /** Reading the platform back from a platform yields its trimmed form; a platform with no
      blank before its comma is read back unchanged. */
  lemma PlatformReparse(value: string)
    requires ParsePlatformOs(value).Some?
    ensures ParsePlatformOs(ParsePlatformOs(value).value) == Some(Trim(ParsePlatformOs(value).value))
    ensures IsStripped(ParsePlatformOs(value).value) ==>
      ParsePlatformOs(ParsePlatformOs(value).value) == ParsePlatformOs(value)
  {
    var v := ParsePlatformOs(value).value;
    var u := Trim(v);
    assert v[0] == Trim(value)[0];
    assert !IsBlank(v[0]);
    assert u != [];
    TrimChars(v);
    TrimIdempotent(v);
    AllInIff(u, 0, |u|, NonComma);
    SpanIs(u, 0, NonComma, |u|);
    assert u[..|u|] == u;
    if IsStripped(v) {
      TrimStripped(v);
    }
  }
}
