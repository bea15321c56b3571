/** The `Cell` record of the phone catalogue and the normalizers that turn one raw CSV field into
    a typed value or "absent" (`null` in the program, `None` here). */
module Cell {
  import opened Optional
  import opened Text
  import opened Regex

  /** What `launchStatus` holds: a boxed year, one of the two lower-case words, or `null`. */
  datatype Status = Released(year: nat) | Discontinued | Cancelled | Unknown

  /** The numeral a display size was read from: the digits before the point and, when the
      numeral has one, the digits after it. */
  datatype Decimal = Decimal(whole: string, fraction: Option<string>)

  /** One phone, with every field already normalized. */
  datatype Record = Record(
    oem: string,
    model: string,
    announced: Option<nat>,
    status: Status,
    dimensions: Option<string>,
    weight: Option<nat>,
    sim: Option<string>,
    displayType: string,
    displaySize: Option<Decimal>,
    resolution: string,
    sensors: Option<string>,
    platform: Option<string>)

  /** The exact value of the digit run that starts at `i` (what `Float.parseFloat` reads, without
      rounding). */
  function DigitRunValue(s: string, i: nat): nat
    requires i <= |s|
  {
    var j := DigitsEnd(s, i);
    DigitsOf(s, i, j);
    DigitsValue(s[i..j])
  }

  /** `parseYear`: the four digits of the leftmost `\b(\d{4})\b`. */
  function ParseYear(value: string): (r: Option<nat>)
    ensures r.None? <==> NoMatch(Year, value)
    ensures forall i: nat :: IsLeftmost(Year, value, i) ==> r == Some(DigitsValue(value[i..i + 4]))
    ensures r.Some? ==> r.value <= 9999
  {
    match Find(Year, value)
    case None => None
    case Some(i) =>
      assert Pow10(4) == 10000;
      Some(DigitsValue(value[i..i + 4]))
  }

  /** `parseLaunchStatus`: one of the two words, whatever its case and padding, or else a year. */
  function ParseLaunchStatus(value: string): (r: Status)
    ensures r == Discontinued <==> Lower(Trim(value)) == "discontinued"
    ensures r == Cancelled <==> Lower(Trim(value)) == "cancelled"
    ensures r.Released? <==>
      Lower(Trim(value)) != "discontinued" && Lower(Trim(value)) != "cancelled" && ParseYear(value).Some?
    ensures r.Released? ==> Some(r.year) == ParseYear(value)
  {
    var low := Lower(Trim(value));
    if low == "discontinued" then Discontinued
    else if low == "cancelled" then Cancelled
    else match ParseYear(value)
      case Some(y) => Released(y)
      case None => Unknown
  }

  /** `parseBodyDimensions`: the text of the leftmost `\d+\.\d+ x \d+\.\d+ x \d+\.\d+ mm`. */
  function ParseBodyDimensions(value: string): (r: Option<string>)
    ensures r.None? <==> NoMatch(Dimensions, value)
    ensures forall i: nat :: IsLeftmost(Dimensions, value, i) ==>
      r == Some(value[i..DimensionsEnd(value, i).value])
  {
    match Find(Dimensions, value)
    case None => None
    case Some(i) => Some(value[i..DimensionsEnd(value, i).value])
  }

  /** The trimmed, lower-cased field is `"no"` or `"yes"`. */
  predicate IsYesNo(value: string) {
    Lower(Trim(value)) == "no" || Lower(Trim(value)) == "yes"
  }

  /** `parseBodyWeight`: absent for yes/no; otherwise the digits of the leftmost `(\d+)\s*g\b`,
      searched for in the field as given (neither trimmed nor lower-cased). */
  function ParseBodyWeight(value: string): (r: Option<nat>)
    ensures IsYesNo(value) ==> r.None?
    ensures !IsYesNo(value) ==> (r.None? <==> NoMatch(Weight, value))
    ensures !IsYesNo(value) ==>
      forall i: nat :: IsLeftmost(Weight, value, i) ==> r == Some(DigitRunValue(value, i))
  {
    if IsYesNo(value) then None
    else match Find(Weight, value)
      case None => None
      case Some(i) => Some(DigitRunValue(value, i))
  }

  /** `parseBodySim`: absent for yes/no, the trimmed field otherwise. */
  function ParseBodySim(value: string): (r: Option<string>)
    ensures r.None? <==> IsYesNo(value)
    ensures r.Some? ==> r.value == Trim(value)
  {
    if IsYesNo(value) then None else Some(Trim(value))
  }

  /** A numeral with digits before the point and, if it has a point, digits after it. */
  predicate WellFormedDecimal(d: Decimal) {
    |d.whole| > 0 && AllDigits(d.whole) &&
    (d.fraction.Some? ==> |d.fraction.value| > 0 && AllDigits(d.fraction.value))
  }

  /** How a display size numeral is written: the digits, then a point and the fraction digits
      when there are any. */
  function DecimalText(d: Decimal): string {
    match d.fraction
    case None => d.whole
    case Some(f) => d.whole + "." + f
  }

  /** Group 1 of `(\d+\.\d+|\d+)\s*inches` matched at `i`: the numeral whose text is the group. */
  function SizeNumeral(u: string, i: nat): (d: Decimal)
    requires i <= |u| && SizeEnd(u, i).Some?
    ensures WellFormedDecimal(d)
    ensures DecimalText(d) == u[i..SizeEnd(u, i).value]
  {
    var j := DigitsEnd(u, i);
    var e := SizeEnd(u, i).value;
    DigitsOf(u, i, j);
    if e == j then Decimal(u[i..j], None)
    else
      DigitsOf(u, j + 1, e);
      assert u[i..e] == u[i..j] + "." + u[j + 1..e];
      Decimal(u[i..j], Some(u[j + 1..e]))
  }

  /** `parseDisplaySize`: the numeral of the leftmost `(\d+\.\d+|\d+)\s*inches` in the trimmed,
      lower-cased field. */
  function ParseDisplaySize(value: string): (r: Option<Decimal>)
    ensures r.None? <==> NoMatch(Size, Lower(Trim(value)))
    ensures forall i: nat :: IsLeftmost(Size, Lower(Trim(value)), i) ==>
      r == Some(SizeNumeral(Lower(Trim(value)), i))
    ensures r.Some? ==> WellFormedDecimal(r.value)
  {
    var u := Lower(Trim(value));
    match Find(Size, u)
    case None => None
    case Some(i) => Some(SizeNumeral(u, i))
  }

  /** The characters `.` does not match in java.util.regex without DOTALL. */
  predicate IsLineTerminator(c: char) {
    c == '\n' || c == '\r' || c == '\U{85}' || c == '\U{2028}' || c == '\U{2029}'
  }

  predicate HasAlnum(s: string) {
    exists k :: 0 <= k < |s| && IsAsciiAlnum(s[k])
  }

  predicate HasLineTerminator(s: string) {
    exists k :: 0 <= k < |s| && IsLineTerminator(s[k])
  }

  /** `s.matches(".*[a-zA-Z0-9].*")`: `.` never crosses a line terminator and the match must
      cover the whole text. */
  predicate MatchesAlnumLine(s: string) {
    HasAlnum(s) && !HasLineTerminator(s)
  }

  /** The whole-text match of `.*[a-zA-Z0-9].*`, split at the character the class matches: the
      first `.*` takes what is before it and the second what is after it, neither crossing a line
      terminator. */
  lemma AlnumLineMatch(s: string)
    ensures MatchesAlnumLine(s) <==>
      exists k :: 0 <= k < |s| && IsAsciiAlnum(s[k]) &&
        (forall j :: 0 <= j < k ==> !IsLineTerminator(s[j])) &&
        (forall j :: k < j < |s| ==> !IsLineTerminator(s[j]))
  {
    if HasAlnum(s) && !HasLineTerminator(s) {
      var k :| 0 <= k < |s| && IsAsciiAlnum(s[k]);
      assert forall j :: 0 <= j < |s| ==> !IsLineTerminator(s[j]);
    }
  }

  /** ASCII lower-casing (the model's `toLowerCase`) keeps letters letters and digits digits, and
      adds or removes no line terminator. */
  lemma LowerKeepsClasses(s: string)
    ensures HasAlnum(Lower(s)) == HasAlnum(s)
    ensures HasLineTerminator(Lower(s)) == HasLineTerminator(s)
  {
    if HasAlnum(s) {
      var k :| 0 <= k < |s| && IsAsciiAlnum(s[k]);
      assert IsAsciiAlnum(Lower(s)[k]);
    }
    if HasAlnum(Lower(s)) {
      var k :| 0 <= k < |s| && IsAsciiAlnum(Lower(s)[k]);
      assert IsAsciiAlnum(s[k]);
    }
    if HasLineTerminator(s) {
      var k :| 0 <= k < |s| && IsLineTerminator(s[k]);
      assert IsLineTerminator(Lower(s)[k]);
    }
    if HasLineTerminator(Lower(s)) {
      var k :| 0 <= k < |s| && IsLineTerminator(Lower(s)[k]);
      assert IsLineTerminator(s[k]);
    }
  }

  /** `parseFeaturesSensors`: the trimmed field when its lower-cased form is `"v1"` or matches
      `.*[a-zA-Z0-9].*`. The `"v1"` test adds nothing, and ASCII lower-casing changes no answer:
      the field is kept exactly when it holds an ASCII letter or digit and no line terminator. */
  function ParseFeaturesSensors(value: string): (r: Option<string>)
    ensures r.Some? <==> HasAlnum(Trim(value)) && !HasLineTerminator(Trim(value))
    ensures r.Some? ==> r.value == Trim(value)
  {
    var n := Lower(Trim(value));
    LowerKeepsClasses(Trim(value));
    assert n == "v1" ==> IsAsciiAlnum(n[0]) && !IsLineTerminator(n[0]) && !IsLineTerminator(n[1]);
    if n == "v1" || MatchesAlnumLine(n) then Some(Trim(value)) else None
  }

  /** `parsePlatformOs`: group 1 of `^([^,]+)` on the trimmed field, the longest comma-free
      prefix, which must not be empty. */
  function ParsePlatformOs(value: string): (r: Option<string>)
    ensures r.None? <==> Trim(value) == [] || Trim(value)[0] == ','
    ensures r.Some? ==> |r.value| > 0 && r.value <= Trim(value) && ',' !in r.value
    ensures r.Some? ==> |r.value| == |Trim(value)| || Trim(value)[|r.value|] == ','
  {
    var u := Trim(value);
    var j := Span(u, 0, NonComma);
    AllInIff(u, 0, j, NonComma);
    if j == 0 then None
    else
      assert forall k :: 0 <= k < j ==> u[..j][k] == u[k];
      Some(u[..j])
  }
}
