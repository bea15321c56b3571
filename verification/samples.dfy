/** The normalizers on sample fields of the shape the catalogue holds, chosen where the regular
    expressions behave differently from what a reader of the field might expect. */
module Samples {
  import opened Optional
  import opened Text
  import opened Regex
  import opened Cell
  import opened Aggregates

  /** No four-digit run of `2019Q2` is bounded by `\b` on both sides. */
  lemma YearBlocked()
    ensures NoMatch(Year, "2019Q2")
  {
    var s := "2019Q2";
    assert forall k :: 0 <= k <= |s| ==> !MatchesAt(Year, s, k) by {
      assert !IsBoundary(s, 4) && !IsBoundary(s, 1) && !IsBoundary(s, 2);
    }
  }

  /** A year glued to a letter is no year: `\b` needs a non-word character on the other side. */
  lemma YearNeedsWordBoundary()
    ensures ParseYear("2019Q2") == None
  {
    YearBlocked();
  }

  /** A zero-padded year is read: `\d{4}` takes the leading `0` and `parseInt` drops it. */
  lemma YearWithLeadingZero()
    ensures ParseYear("0999") == Some(999)
  {
    var s := "0999";
    assert s[0..4] == s;
    assert YearMatch(s, 0);
    FindAtStart(Year, s);
    DigitsValueLeadingZero("999");
    assert "0" + "999" == s;
    assert DigitsValue("999") == 999 by {
      assert "999"[..2] == "99" && "99"[..1] == "9" && "9"[..0] == "";
    }
  }

  /** No Weight match starts at `k` when the digit run from `k` ends at `j`, the spaces after
      it end at `e`, and what follows is not a `g` closing a word. */
  lemma WeightMissAt(s: string, k: nat, j: nat, e: nat)
    requires k <= j <= e < |s|
    requires AllIn(s, k, j, Digit) && !IsDigit(s[j])
    requires AllIn(s, j, e, Space) && !IsSpace(s[e])
    requires s[e] != 'g' || !IsBoundary(s, e + 1)
    ensures !MatchesAt(Weight, s, k)
  {
    SpanIs(s, k, Digit, j);
    SpanIs(s, j, Space, e);
  }

  /** No Weight match starts where there is no digit. */
  lemma WeightNoDigitAt(s: string, k: nat)
    requires k <= |s|
    requires k == |s| || !IsDigit(s[k])
    ensures !MatchesAt(Weight, s, k)
  {
    SpanIs(s, k, Digit, k);
  }

  /** No Weight match starts in a tail of `s` without digits. */
  lemma WeightNoDigitFrom(s: string, from: nat)
    requires from <= |s|
    requires forall k :: from <= k < |s| ==> !IsDigit(s[k])
    ensures forall k :: from <= k <= |s| ==> !MatchesAt(Weight, s, k)
  {
    forall k | from <= k <= |s|
      ensures !MatchesAt(Weight, s, k)
    {
      WeightNoDigitAt(s, k);
    }
  }

  /** A trimmed field that starts with a digit is not the word `yes` or `no`. */
  lemma NotYesNo(s: string)
    requires |s| > 0 && IsStripped(s) && IsDigit(s[0])
    ensures !IsYesNo(s)
  {
    TrimStripped(s);
    assert Lower(s)[0] == s[0];
  }

  lemma DecimalWeightFound()
    ensures Find(Weight, "148.5 g") == Some(4)
  {
    var s := "148.5 g";
    WeightMissAt(s, 0, 3, 3);
    WeightMissAt(s, 1, 3, 3);
    WeightMissAt(s, 2, 3, 3);
    WeightMissAt(s, 3, 3, 3);
    assert MatchesAt(Weight, s, 4) by {
      SpanIs(s, 4, Digit, 5);
      SpanIs(s, 5, Space, 6);
    }
  }

  lemma DecimalWeightValue()
    ensures DigitRunValue("148.5 g", 4) == 5
  {
    var s := "148.5 g";
    SpanIs(s, 4, Digit, 5);
    assert s[4..5] == "5";
    assert DigitsValue("5") == 5;
  }

  /** `(\d+)\s*g\b` needs digits right before the spaces and the `g`, so of `148.5 g` only the
      fraction digit is read. */
  lemma WeightReadsDigitsAfterPoint()
    ensures ParseBodyWeight("148.5 g") == Some(5)
  {
    NotYesNo("148.5 g");
    DecimalWeightFound();
    DecimalWeightValue();
  }

  lemma GramsBlockedInRun()
    ensures forall k :: 0 <= k < 3 ==> !MatchesAt(Weight, "150 grams", k)
  {
    var s := "150 grams";
    assert !IsBoundary(s, 5);
    WeightMissAt(s, 0, 3, 4);
    WeightMissAt(s, 1, 3, 4);
    WeightMissAt(s, 2, 3, 4);
  }

  lemma GramsBlocked()
    ensures NoMatch(Weight, "150 grams")
  {
    GramsBlockedInRun();
    WeightNoDigitFrom("150 grams", 3);
  }

  /** The `g` must end a word, so `150 grams` has no weight. */
  lemma WeightNeedsWordBoundary()
    ensures ParseBodyWeight("150 grams") == None
  {
    NotYesNo("150 grams");
    GramsBlocked();
  }

  lemma CapitalGBlocked()
    ensures NoMatch(Weight, "150 G")
  {
    var s := "150 G";
    WeightMissAt(s, 0, 3, 4);
    WeightMissAt(s, 1, 3, 4);
    WeightMissAt(s, 2, 3, 4);
    WeightNoDigitFrom(s, 3);
  }

  /** The weight is searched in the field as given, so an upper-case `G` is not a gram. */
  lemma WeightIsCaseSensitive()
    ensures ParseBodyWeight("150 G") == None
  {
    NotYesNo("150 G");
    CapitalGBlocked();
  }

  lemma PlatformCommaAt()
    ensures Span("Android 9.0 , EMUI 9", 0, NonComma) == 12
  {
    var s := "Android 9.0 , EMUI 9";
    AllInIff(s, 0, 12, NonComma);
    assert forall k :: 0 <= k < 12 ==> s[k] != ',';
    SpanIs(s, 0, NonComma, 12);
  }

  /** The platform keeps the blank in front of the comma. */
  lemma PlatformKeepsBlankBeforeComma()
    ensures ParsePlatformOs("Android 9.0 , EMUI 9") == Some("Android 9.0 ")
  {
    var s := "Android 9.0 , EMUI 9";
    TrimStripped(s);
    PlatformCommaAt();
    assert s[..12] == "Android 9.0 ";
  }

  /** A field broken over two lines is dropped, as `.` does not match a line break. */
  lemma SensorsLineBreakDropped()
    ensures ParseFeaturesSensors("GPS\nNFC") == None
  {
    TrimStripped("GPS\nNFC");
    assert IsLineTerminator("GPS\nNFC"[3]);
  }

  lemma TrimTrailingLineBreak()
    ensures Trim("GPS\n") == "GPS"
  {
    var s := "GPS\n";
    assert AllIn(s, 3, 4, Blank);
    assert s[0..3] == "GPS";
    TrimIs(s, 0, 3);
  }

  /** A line break at the end is trimmed away before the test, so the field is kept. */
  lemma SensorsTrailingLineBreakKept()
    ensures ParseFeaturesSensors("GPS\n") == Some("GPS")
  {
    TrimTrailingLineBreak();
    assert HasAlnum("GPS") by {
      assert IsAsciiAlnum("GPS"[0]);
    }
    assert !HasLineTerminator("GPS");
  }

  /** A sensors field without a letter or digit is dropped; `V1` is kept as written. */
  lemma SensorsSamples()
    ensures ParseFeaturesSensors("") == None
    ensures ParseFeaturesSensors("V1") == Some("V1")
    ensures ParseFeaturesSensors(" - ") == None
  {
    TrimStripped("V1");
    assert IsAsciiAlnum("V1"[0]);
    assert Trim(" - ") == "-" by {
      TrimIs(" - ", 1, 2);
    }
  }

  /** A phone of manufacturer `oem` with weight `weight` and every other field absent or empty. */
  function Phone(oem: string, weight: Option<nat>): Record {
    Record(oem, "", None, Unknown, None, weight, None, "", None, "", None, None)
  }

  /** Two weighed phones of one manufacturer and an unweighed phone of another: the first
      averages 300 over 2, the second has no average at all. */
  lemma AverageSample()
    ensures WeightSum([Phone("A", Some(100)), Phone("A", Some(200)), Phone("B", None)], "A") == 300
    ensures WeighedCount([Phone("A", Some(100)), Phone("A", Some(200)), Phone("B", None)], "A") == 2
    ensures WeighedCount([Phone("A", Some(100)), Phone("A", Some(200)), Phone("B", None)], "B") == 0
  {
    var cells := [Phone("A", Some(100)), Phone("A", Some(200)), Phone("B", None)];
    var two := [Phone("A", Some(100)), Phone("A", Some(200))];
    var one := [Phone("A", Some(100))];
    assert cells[..2] == two && two[..1] == one && one[..0] == [];
    assert WeightSum(one, "A") == 100 && WeighedCount(one, "A") == 1 && WeighedCount(one, "B") == 0;
    assert WeightSum(two, "A") == 300 && WeighedCount(two, "A") == 2 && WeighedCount(two, "B") == 0;
  }
}
