/** The regular expressions that `Cell` searches with `Matcher.find()`, written as matchers over
    positions of a string, and the leftmost search itself.

    Every `\d+` in these patterns is followed by an atom that never matches a digit, and every
    `\s*` by an atom that never matches white space, so a successful match always takes whole
    runs: backtracking never finds a second way to match at the same start, and each matcher
    below is a function of the start position. */
module Regex {
  import opened Optional
  import opened Text

  /** The four patterns of `Cell`:
      Year `\b(\d{4})\b`, Dimensions `(\d+\.\d+ x \d+\.\d+ x \d+\.\d+ mm)`,
      Weight `(\d+)\s*g\b`, Size `(\d+\.\d+|\d+)\s*inches`. */
  datatype Pattern = Year | Dimensions | Weight | Size

  /** End of the run of ASCII digits starting at `i`. */
  function DigitsEnd(s: string, i: nat): (j: nat)
    requires i <= |s|
  {
    Span(s, i, Digit)
  }

  /** End of the run of `\s` starting at `i`. */
  function SpacesEnd(s: string, i: nat): (j: nat)
    requires i <= |s|
  {
    Span(s, i, Space)
  }

  predicate WordCharBefore(s: string, i: nat)
    requires i <= |s|
  {
    i > 0 && IsWordChar(s[i - 1])
  }

  predicate WordCharAfter(s: string, i: nat)
    requires i <= |s|
  {
    i < |s| && IsWordChar(s[i])
  }

  /** `\b` at position `i`: a word character on exactly one side (the string edges count as non-word). */
  predicate IsBoundary(s: string, i: nat)
    requires i <= |s|
  {
    WordCharBefore(s, i) != WordCharAfter(s, i)
  }

  /** `lit` occurs in `s` at position `i`. */
  predicate LiteralAt(s: string, i: nat, lit: string)
    decreases |lit|
  {
    i <= |s| && (lit == [] || (i < |s| && s[i] == lit[0] && LiteralAt(s, i + 1, lit[1..])))
  }

  lemma {:induction false} LiteralAtFits(s: string, i: nat, lit: string)
    requires LiteralAt(s, i, lit)
    ensures i + |lit| <= |s|
    decreases |lit|
  {
    if lit != [] {
      LiteralAtFits(s, i + 1, lit[1..]);
    }
  }

  /** `\b(\d{4})\b` matches at `i`. */
  predicate YearMatch(s: string, i: nat) {
    i + 4 <= |s| && IsBoundary(s, i) && AllDigits(s[i..i + 4]) && IsBoundary(s, i + 4)
  }

  /** Around four digits, `\b` asks only that no word character touches them from outside. */
  lemma YearMatchDelimited(s: string, i: nat)
    ensures YearMatch(s, i) <==>
      i + 4 <= |s| && AllDigits(s[i..i + 4]) &&
      (i == 0 || !IsWordChar(s[i - 1])) && (i + 4 == |s| || !IsWordChar(s[i + 4]))
  {
    if i + 4 <= |s| && AllDigits(s[i..i + 4]) {
      assert IsDigit(s[i..i + 4][0]) && IsDigit(s[i..i + 4][3]);
    }
  }

  /** `\d+\.\d+` at `i`: where it ends. */
  function DecimalEnd(s: string, i: nat): (r: Option<nat>)
    requires i <= |s|
    ensures r.Some? ==> i < r.value <= |s|
  {
    var j := DigitsEnd(s, i);
    if j == i || j == |s| || s[j] != '.' then None
    else
      var k := DigitsEnd(s, j + 1);
      if k == j + 1 then None else Some(k)
  }

  /** `\d+\.\d+` followed by the literal `lit`, at `i`: where the literal ends. */
  function DecimalThen(s: string, i: nat, lit: string): (r: Option<nat>)
    requires i <= |s|
    ensures r.Some? ==> i < r.value <= |s|
  {
    match DecimalEnd(s, i)
    case None => None
    case Some(a) =>
      if LiteralAt(s, a, lit) then LiteralAtFits(s, a, lit); Some(a + |lit|) else None
  }

  /** A literal is found where the text spells it out. */
  lemma {:induction false} LiteralAtOf(s: string, i: nat, lit: string)
    requires i + |lit| <= |s| && s[i..i + |lit|] == lit
    ensures LiteralAt(s, i, lit)
    decreases |lit|
  {
    if lit != [] {
      assert s[i] == s[i..i + |lit|][0];
      assert s[i + 1..i + 1 + |lit[1..]|] == s[i..i + |lit|][1..];
      LiteralAtOf(s, i + 1, lit[1..]);
    }
  }

  /** `\d+\.\d+ x \d+\.\d+ x \d+\.\d+ mm` at `i`: where it ends. */
  function DimensionsEnd(s: string, i: nat): (r: Option<nat>)
    requires i <= |s|
    ensures r.Some? ==> i < r.value <= |s|
  {
    match DecimalThen(s, i, " x ")
    case None => None
    case Some(a) =>
      match DecimalThen(s, a, " x ")
      case None => None
      case Some(b) => DecimalThen(s, b, " mm")
  }

  /** `(\d+)\s*g\b` matches at `i`. */
  predicate WeightMatch(s: string, i: nat)
    requires i <= |s|
  {
    var j := DigitsEnd(s, i);
    var k := SpacesEnd(s, j);
    j > i && k < |s| && s[k] == 'g' && IsBoundary(s, k + 1)
  }

  /** One way for `(\d+)\s*g\b` to match at `i`, as a backtracking matcher may try it: group 1
      is `s[i..j]`, the white space is `s[j..k]`, the `g` is `s[k]`, and no word character
      follows it. */
  predicate WeightSplit(s: string, i: nat, j: nat, k: nat) {
    i < j <= k < |s| && AllIn(s, i, j, Digit) && AllIn(s, j, k, Space) && s[k] == 'g' &&
    (k + 1 == |s| || !IsWordChar(s[k + 1]))
  }

  /** The pattern matches at `i` under some split exactly when `WeightMatch` holds, and every
      such split takes whole runs, so group 1 is the whole digit run. */
  lemma WeightMatchIff(s: string, i: nat)
    requires i <= |s|
    ensures WeightMatch(s, i) <==> exists j: nat, k: nat :: WeightSplit(s, i, j, k)
    ensures forall j: nat, k: nat :: WeightSplit(s, i, j, k) ==> j == DigitsEnd(s, i) && k == SpacesEnd(s, j)
  {
    forall j: nat, k: nat | WeightSplit(s, i, j, k)
      ensures j == DigitsEnd(s, i) && k == SpacesEnd(s, j)
    {
      if j < k {
        AllInAt(s, j, k, Space, j);
      }
      SpanIs(s, i, Digit, j);
      SpanIs(s, j, Space, k);
    }
    if WeightMatch(s, i) {
      var j := DigitsEnd(s, i);
      var k := SpacesEnd(s, j);
      assert WeightSplit(s, i, j, k);
    }
  }

  /** `\s*inches` at `i`. */
  predicate InchesAt(s: string, i: nat)
    requires i <= |s|
  {
    LiteralAt(s, SpacesEnd(s, i), "inches")
  }

  /** `(\d+\.\d+|\d+)\s*inches` at `i`: where group 1 ends. The first alternative is tried first;
      the second can only succeed where the first fails, as a `.` is neither `\s` nor `i`. */
  function SizeEnd(s: string, i: nat): (r: Option<nat>)
    requires i <= |s|
    ensures r.Some? ==> i < r.value <= |s|
  {
    var j := DigitsEnd(s, i);
    if j == i then None
    else if j < |s| && s[j] == '.' && DigitsEnd(s, j + 1) > j + 1 && InchesAt(s, DigitsEnd(s, j + 1)) then
      Some(DigitsEnd(s, j + 1))
    else if InchesAt(s, j) then Some(j)
    else None
  }

  /** `s[i..e]` is a numeral `\d+\.\d+` or `\d+`, split at any point a backtracking matcher may
      try. */
  predicate NumeralAt(s: string, i: nat, e: nat) {
    i < e <= |s| &&
    (AllIn(s, i, e, Digit) ||
     exists d :: i < d && d + 1 < e && s[d] == '.' && AllIn(s, i, d, Digit) && AllIn(s, d + 1, e, Digit))
  }

  /** One way for `(\d+\.\d+|\d+)\s*inches` to match at `i`: group 1 is `s[i..e]`, the white
      space is `s[e..m]` and `inches` starts at `m`. */
  predicate SizeSplit(s: string, i: nat, e: nat, m: nat) {
    NumeralAt(s, i, e) && e <= m <= |s| && AllIn(s, e, m, Space) && LiteralAt(s, m, "inches")
  }

  /** Every split of a size match ends group 1 where `SizeEnd` says. */
  lemma SizeSplitEnd(s: string, i: nat, e: nat, m: nat)
    requires SizeSplit(s, i, e, m)
    ensures SizeEnd(s, i) == Some(e)
  {
    assert s[m] == 'i';
    if e < m {
      AllInAt(s, e, m, Space, e);
    }
    SpanIs(s, e, Space, m);
    if AllIn(s, i, e, Digit) {
      SpanIs(s, i, Digit, e);
    } else {
      var d :| i < d && d + 1 < e && s[d] == '.' && AllIn(s, i, d, Digit) && AllIn(s, d + 1, e, Digit);
      SpanIs(s, i, Digit, d);
      SpanIs(s, d + 1, Digit, e);
    }
  }

  /** The pattern matches at `i` under some split exactly when `SizeEnd` finds a match, and every
      split ends group 1 at the same place, so which alternative is tried first does not matter. */
  lemma SizeEndIff(s: string, i: nat)
    requires i <= |s|
    ensures SizeEnd(s, i).Some? <==> exists e: nat, m: nat :: SizeSplit(s, i, e, m)
    ensures forall e: nat, m: nat :: SizeSplit(s, i, e, m) ==> SizeEnd(s, i) == Some(e)
  {
    forall e: nat, m: nat | SizeSplit(s, i, e, m)
      ensures SizeEnd(s, i) == Some(e)
    {
      SizeSplitEnd(s, i, e, m);
    }
    if SizeEnd(s, i).Some? {
      var j := DigitsEnd(s, i);
      var e := SizeEnd(s, i).value;
      var m := SpacesEnd(s, e);
      if e != j {
        assert i < j && j + 1 < e && s[j] == '.' && AllIn(s, i, j, Digit) && AllIn(s, j + 1, e, Digit);
      }
      assert SizeSplit(s, i, e, m);
    }
  }

  /** `pattern` matches `s` starting at position `i`. */
  predicate MatchesAt(pattern: Pattern, s: string, i: nat) {
    i <= |s| &&
    match pattern
    case Year => YearMatch(s, i)
    case Dimensions => DimensionsEnd(s, i).Some?
    case Weight => WeightMatch(s, i)
    case Size => SizeEnd(s, i).Some?
  }

  /** For each start `0..|s|`, whether `pattern` matches there. */
  function MatchTable(pattern: Pattern, s: string): (hits: seq<bool>)
    ensures |hits| == |s| + 1
    ensures forall k :: 0 <= k <= |s| ==> (hits[k] <==> MatchesAt(pattern, s, k))
  {
    seq(|s| + 1, k requires 0 <= k => MatchesAt(pattern, s, k))
  }

  /** The first `true` entry at or after `from`. */
  function FirstHit(hits: seq<bool>, from: nat): (r: Option<nat>)
    requires from <= |hits|
    ensures r.Some? ==> from <= r.value < |hits| && hits[r.value]
    ensures r.Some? ==> forall k :: from <= k < r.value ==> !hits[k]
    ensures r.None? <==> forall k :: from <= k < |hits| ==> !hits[k]
    decreases |hits| - from
  {
    if from == |hits| then None
    else if hits[from] then Some(from)
    else FirstHit(hits, from + 1)
  }

  /** `pattern` matches at `i` and nowhere to its left. */
  predicate IsLeftmost(pattern: Pattern, s: string, i: nat) {
    MatchesAt(pattern, s, i) && forall k :: 0 <= k < i ==> !MatchesAt(pattern, s, k)
  }

  /** `pattern` matches nowhere in `s`. */
  predicate NoMatch(pattern: Pattern, s: string) {
    forall k :: 0 <= k <= |s| ==> !MatchesAt(pattern, s, k)
  }

  /** `Matcher.find()` on a fresh matcher: the leftmost start at which `pattern` matches. */
  function Find(pattern: Pattern, s: string): (r: Option<nat>)
    ensures r.Some? ==> IsLeftmost(pattern, s, r.value)
    ensures r.None? <==> NoMatch(pattern, s)
  {
    FirstHit(MatchTable(pattern, s), 0)
  }

  /** The leftmost match, when it is the first position of the string. */
  lemma FindAtStart(pattern: Pattern, s: string)
    requires MatchesAt(pattern, s, 0)
    ensures Find(pattern, s) == Some(0)
  {
  }

  /** A Weight match never starts inside a digit run: moving its start back over a digit still
      matches, so the leftmost match starts a maximal run. */
  lemma WeightMatchStartsRun(s: string, i: nat)
    requires IsLeftmost(Weight, s, i)
    ensures i == 0 || !IsDigit(s[i - 1])
  {
    if i > 0 && IsDigit(s[i - 1]) {
      SpanIs(s, i - 1, Digit, DigitsEnd(s, i));
      assert MatchesAt(Weight, s, i - 1);
    }
  }


  /** `\d+\.\d+` spans `s[x..y]` with its point at `d`, and no digit follows it. */
  predicate DecimalSpan(s: string, x: nat, d: nat, y: nat) {
    x < d && d + 1 < y <= |s| && s[d] == '.' &&
    AllIn(s, x, d, Digit) && AllIn(s, d + 1, y, Digit) &&
    (y == |s| || !IsDigit(s[y]))
  }

  lemma DecimalSpanOf(s: string, x: nat) returns (d: nat)
    requires x <= |s| && DecimalEnd(s, x).Some?
    ensures DecimalSpan(s, x, d, DecimalEnd(s, x).value)
  {
    d := DigitsEnd(s, x);
  }

  lemma DecimalEndOf(s: string, x: nat, d: nat, y: nat)
    requires DecimalSpan(s, x, d, y)
    ensures DecimalEnd(s, x) == Some(y)
  {
    SpanIs(s, x, Digit, d);
    SpanIs(s, d + 1, Digit, y);
  }

  /** A decimal inside a copied part of `s` is a decimal of the copy. */
  lemma DecimalSpanShift(s: string, i: nat, t: string, x: nat, d: nat, y: nat)
    requires Agree(s, i, t) && y < |t|
    requires DecimalSpan(s, x + i, d + i, y + i)
    ensures DecimalSpan(t, x, d, y)
  {
    AllInShift(s, i, t, x, d, Digit);
    AllInShift(s, i, t, d + 1, y, Digit);
    assert t[d] == s[d + i];
    assert t[y] == s[y + i];
  }

  lemma {:induction false} LiteralShift(s: string, i: nat, t: string, x: nat, lit: string)
    requires Agree(s, i, t) && x + |lit| <= |t|
    requires LiteralAt(s, x + i, lit)
    ensures LiteralAt(t, x, lit)
    decreases |lit|
  {
    if lit != [] {
      assert t[x] == s[x + i];
      LiteralShift(s, i, t, x + 1, lit[1..]);
    }
  }

  /** Where the three numbers of a Dimensions match have their points and ends. */
  datatype DimsPos = DimsPos(d1: nat, y1: nat, d2: nat, y2: nat, d3: nat, y3: nat)

  predicate DimsAt(s: string, x: nat, p: DimsPos) {
    DecimalSpan(s, x, p.d1, p.y1) && LiteralAt(s, p.y1, " x ") &&
    DecimalSpan(s, p.y1 + 3, p.d2, p.y2) && LiteralAt(s, p.y2, " x ") &&
    DecimalSpan(s, p.y2 + 3, p.d3, p.y3) && LiteralAt(s, p.y3, " mm")
  }

  lemma DimsAtOf(s: string, x: nat) returns (p: DimsPos)
    requires x <= |s| && DimensionsEnd(s, x).Some?
    ensures DimsAt(s, x, p) && DimensionsEnd(s, x) == Some(p.y3 + 3)
  {
    var a := DecimalThen(s, x, " x ").value;
    var b := DecimalThen(s, a, " x ").value;
    var d1 := DecimalSpanOf(s, x);
    var d2 := DecimalSpanOf(s, a);
    var d3 := DecimalSpanOf(s, b);
    p := DimsPos(d1, a - 3, d2, b - 3, d3, DimensionsEnd(s, x).value - 3);
  }

  lemma DimsEndOf(s: string, x: nat, p: DimsPos)
    requires x <= |s| && DimsAt(s, x, p)
    ensures DimensionsEnd(s, x) == Some(p.y3 + 3)
  {
    DecimalThenOf(s, x, p.d1, p.y1, " x ");
    DecimalThenOf(s, p.y1 + 3, p.d2, p.y2, " x ");
    DecimalThenOf(s, p.y2 + 3, p.d3, p.y3, " mm");
  }

  lemma DecimalThenOf(s: string, x: nat, d: nat, y: nat, lit: string)
    requires DecimalSpan(s, x, d, y) && LiteralAt(s, y, lit)
    ensures DecimalThen(s, x, lit) == Some(y + |lit|)
  {
    DecimalEndOf(s, x, d, y);
  }

  function Shifted(p: DimsPos, i: nat): DimsPos
    requires i <= p.d1 <= p.y1 <= p.d2 <= p.y2 <= p.d3 <= p.y3
  {
    DimsPos(p.d1 - i, p.y1 - i, p.d2 - i, p.y2 - i, p.d3 - i, p.y3 - i)
  }

  lemma DimsAtShift(s: string, i: nat, t: string, p: DimsPos)
    requires Agree(s, i, t) && DimsAt(s, i, p) && p.y3 + 3 <= i + |t|
    ensures i <= p.d1 <= p.y1 <= p.d2 <= p.y2 <= p.d3 <= p.y3
    ensures DimsAt(t, 0, Shifted(p, i))
  {
    var q := Shifted(p, i);
    DecimalSpanShift(s, i, t, 0, q.d1, q.y1);
    DecimalSpanShift(s, i, t, q.y1 + 3, q.d2, q.y2);
    DecimalSpanShift(s, i, t, q.y2 + 3, q.d3, q.y3);
    LiteralShift(s, i, t, q.y1, " x ");
    LiteralShift(s, i, t, q.y2, " x ");
    LiteralShift(s, i, t, q.y3, " mm");
  }

  /** A Dimensions match that spans a copied part of `s` exactly is a whole-text match of the copy. */
  lemma DimensionsShift(s: string, i: nat, t: string)
    requires Agree(s, i, t) && i <= |s|
    requires DimensionsEnd(s, i) == Some(i + |t|)
    ensures DimensionsEnd(t, 0) == Some(|t|)
  {
    var q := DimsAtCopy(s, i, t);
    DimsEndOf(t, 0, q);
  }

  lemma DimsAtCopy(s: string, i: nat, t: string) returns (q: DimsPos)
    requires Agree(s, i, t) && i <= |s|
    requires DimensionsEnd(s, i) == Some(i + |t|)
    ensures DimsAt(t, 0, q) && q.y3 + 3 == |t|
  {
    var p := DimsAtOf(s, i);
    DimsAtShift(s, i, t, p);
    q := Shifted(p, i);
  }

  /** `\d+\.\d+` spans `s[x..y]` with its point at `d`, split at any point a backtracking matcher
      may try. */
  predicate DecimalAt(s: string, x: nat, d: nat, y: nat) {
    x < d && d + 1 < y <= |s| && s[d] == '.' && AllIn(s, x, d, Digit) && AllIn(s, d + 1, y, Digit)
  }

  /** One way for `\d+\.\d+ x \d+\.\d+ x \d+\.\d+ mm` to match at `x`. */
  predicate DimsSplit(s: string, x: nat, p: DimsPos) {
    DecimalAt(s, x, p.d1, p.y1) && LiteralAt(s, p.y1, " x ") &&
    DecimalAt(s, p.y1 + 3, p.d2, p.y2) && LiteralAt(s, p.y2, " x ") &&
    DecimalAt(s, p.y2 + 3, p.d3, p.y3) && LiteralAt(s, p.y3, " mm")
  }

  /** A literal starting with a blank ends any digit run before it, so every split takes whole
      runs. */
  lemma DimsSplitIsDimsAt(s: string, x: nat, p: DimsPos)
    requires DimsSplit(s, x, p)
    ensures DimsAt(s, x, p)
  {
    assert s[p.y1] == ' ' && s[p.y2] == ' ' && s[p.y3] == ' ';
  }

  /** The pattern matches at `i` under some split exactly when `DimensionsEnd` finds a match, and
      every split ends the match where `DimensionsEnd` says. */
  lemma DimensionsEndIff(s: string, i: nat)
    requires i <= |s|
    ensures DimensionsEnd(s, i).Some? <==> exists p :: DimsSplit(s, i, p)
    ensures forall p :: DimsSplit(s, i, p) ==> DimensionsEnd(s, i) == Some(p.y3 + 3)
  {
    forall p | DimsSplit(s, i, p)
      ensures DimensionsEnd(s, i) == Some(p.y3 + 3)
    {
      DimsSplitIsDimsAt(s, i, p);
      DimsEndOf(s, i, p);
    }
    if DimensionsEnd(s, i).Some? {
      var p := DimsAtOf(s, i);
      assert DimsSplit(s, i, p);
    }
  }
}
