/** Character classes and the few `java.lang.String` operations the field parsers use:
    `trim`, ASCII lower-casing and `Integer.parseInt`/`Integer.toString` on decimal digits. */
module Text {

  /** `\d` of java.util.regex without UNICODE_CHARACTER_CLASS: an ASCII decimal digit. */
  predicate IsDigit(c: char) {
    '0' <= c <= '9'
  }

  predicate IsAsciiLetter(c: char) {
    'a' <= c <= 'z' || 'A' <= c <= 'Z'
  }

  /** The class `[a-zA-Z0-9]`. */
  predicate IsAsciiAlnum(c: char) {
    IsAsciiLetter(c) || IsDigit(c)
  }

  /** `\w`: the word characters on whose edges `\b` matches. */
  predicate IsWordChar(c: char) {
    IsAsciiAlnum(c) || c == '_'
  }

  /** `\s`: space, tab, line feed, vertical tab, form feed, carriage return. */
  predicate IsSpace(c: char) {
    c == ' ' || c == '\t' || c == '\n' || c == '\U{B}' || c == '\U{C}' || c == '\r'
  }

  /** What `String.trim` strips from either end: every code point at or below U+0020. */
  predicate IsBlank(c: char) {
    c <= ' '
  }

  /** The character classes whose runs the parsers measure. */
  datatype CharClass = Digit | Space | Blank | NonComma

  predicate InClass(c: char, cls: CharClass) {
    match cls
    case Digit => IsDigit(c)
    case Space => IsSpace(c)
    case Blank => IsBlank(c)
    case NonComma => c != ','
  }

  predicate AllDigits(d: string) {
    forall k :: 0 <= k < |d| ==> IsDigit(d[k])
  }

  /** True when `s` has nothing for `trim` to remove. */
  predicate IsStripped(s: string) {
    s == [] || (!IsBlank(s[0]) && !IsBlank(s[|s| - 1]))
  }

  /** Every character of `s[lo..hi]` is in class `cls`. */
  predicate AllIn(s: string, lo: nat, hi: nat, cls: CharClass)
    requires lo <= hi <= |s|
    decreases hi - lo
  {
    lo == hi || (InClass(s[lo], cls) && AllIn(s, lo + 1, hi, cls))
  }

  lemma {:induction false} AllInAt(s: string, lo: nat, hi: nat, cls: CharClass, k: nat)
    requires lo <= k < hi <= |s| && AllIn(s, lo, hi, cls)
    ensures InClass(s[k], cls)
    decreases k - lo
  {
    if lo < k {
      AllInAt(s, lo + 1, hi, cls, k);
    }
  }

  /** `AllIn` is the pointwise statement. */
  lemma {:induction false} AllInIff(s: string, lo: nat, hi: nat, cls: CharClass)
    requires lo <= hi <= |s|
    ensures AllIn(s, lo, hi, cls) <==> forall k :: lo <= k < hi ==> InClass(s[k], cls)
    decreases hi - lo
  {
    if lo < hi {
      AllInIff(s, lo + 1, hi, cls);
    }
  }

  /** End of the longest run of characters satisfying class `cls` that starts at `i`. */
  function Span(s: string, i: nat, cls: CharClass): (j: nat)
    requires i <= |s|
    ensures i <= j <= |s|
    ensures AllIn(s, i, j, cls)
    ensures j == |s| || !InClass(s[j], cls)
    decreases |s| - i
  {
    if i == |s| || !InClass(s[i], cls) then i else Span(s, i + 1, cls)
  }

  /** A run end is determined by the run: any `j` with the two properties above is the span. */
  lemma {:induction false} SpanIs(s: string, i: nat, cls: CharClass, j: nat)
    requires i <= j <= |s|
    requires AllIn(s, i, j, cls)
    requires j == |s| || !InClass(s[j], cls)
    ensures Span(s, i, cls) == j
    decreases j - i
  {
    if i < j {
      SpanIs(s, i + 1, cls, j);
    }
  }

  /** The run reaches the end of the text exactly when every remaining character is in the class. */
  lemma SpanToEnd(s: string, i: nat, cls: CharClass)
    requires i <= |s|
    ensures Span(s, i, cls) == |s| <==> AllIn(s, i, |s|, cls)
  {
    var j := Span(s, i, cls);
    if j < |s| && AllIn(s, i, |s|, cls) {
      AllInAt(s, i, |s|, cls, j);
    }
    if AllIn(s, i, |s|, cls) {
      SpanIs(s, i, cls, |s|);
    }
  }

  /** `t` is a copy of the part of `s` that starts at `i`. */
  predicate Agree(s: string, i: nat, t: string) {
    i + |t| <= |s| && forall k :: 0 <= k < |t| ==> t[k] == s[i + k]
  }

  /** A slice is a copy of the part of `s` it starts at. */
  lemma SliceAgrees(s: string, i: nat, j: nat)
    requires i <= j <= |s|
    ensures Agree(s, i, s[i..j])
  {
  }

  /** A class run inside a copied part of `s` is a class run of the copy. */
  lemma {:induction false} AllInShift(s: string, i: nat, t: string, lo: nat, hi: nat, cls: CharClass)
    requires Agree(s, i, t) && lo <= hi <= |t|
    requires AllIn(s, lo + i, hi + i, cls)
    ensures AllIn(t, lo, hi, cls)
    decreases hi - lo
  {
    if lo < hi {
      assert t[lo] == s[lo + i];
      AllInShift(s, i, t, lo + 1, hi, cls);
    }
  }

  /** A run that ends inside a copied part of `s` is seen identically in the copy. */
  lemma SpanShift(s: string, i: nat, t: string, x: nat, cls: CharClass)
    requires Agree(s, i, t) && x <= |t|
    requires Span(s, x + i, cls) < i + |t|
    ensures Span(t, x, cls) + i == Span(s, x + i, cls)
  {
    var j := Span(s, x + i, cls);
    AllInShift(s, i, t, x, j - i, cls);
    assert t[j - i] == s[j];
    SpanIs(t, x, cls, j - i);
  }

  /** Start of the last run of characters satisfying class `cls` that ends at `hi`, not going below `lo`. */
  function SpanBack(s: string, lo: nat, hi: nat, cls: CharClass): (j: nat)
    requires lo <= hi <= |s|
    ensures lo <= j <= hi
    ensures AllIn(s, j, hi, cls)
    ensures j == lo || !InClass(s[j - 1], cls)
    decreases hi - lo
  {
    if hi == lo || !InClass(s[hi - 1], cls) then hi
    else
      var j := SpanBack(s, lo, hi - 1, cls);
      AllInSnoc(s, j, hi - 1, cls);
      j
  }

  /** A run stays a run without its last character. */
  lemma {:induction false} AllInInit(s: string, lo: nat, hi: nat, cls: CharClass)
    requires lo < hi <= |s| && AllIn(s, lo, hi, cls)
    ensures AllIn(s, lo, hi - 1, cls)
    decreases hi - lo
  {
    if lo < hi - 1 {
      AllInInit(s, lo + 1, hi, cls);
    }
  }

  /** Two adjacent runs of a class make one run. */
  lemma {:induction false} AllInJoin(s: string, lo: nat, mid: nat, hi: nat, cls: CharClass)
    requires lo <= mid <= hi <= |s| && AllIn(s, lo, mid, cls) && AllIn(s, mid, hi, cls)
    ensures AllIn(s, lo, hi, cls)
    decreases mid - lo
  {
    if lo < mid {
      AllInJoin(s, lo + 1, mid, hi, cls);
    }
  }

  /** A backward run start is determined by the run. */
  lemma {:induction false} SpanBackIs(s: string, lo: nat, hi: nat, cls: CharClass, j: nat)
    requires lo <= j <= hi <= |s|
    requires AllIn(s, j, hi, cls)
    requires j == lo || !InClass(s[j - 1], cls)
    ensures SpanBack(s, lo, hi, cls) == j
    decreases hi - j
  {
    if j < hi {
      AllInAt(s, j, hi, cls, hi - 1);
      AllInInit(s, j, hi, cls);
      SpanBackIs(s, lo, hi - 1, cls, j);
    }
  }

  /** A digit run of `s` read as a text of its own. */
  lemma DigitsOf(s: string, i: nat, j: nat)
    requires i <= j <= |s| && AllIn(s, i, j, Digit)
    ensures AllDigits(s[i..j])
  {
    AllInShift(s, i, s[i..j], 0, j - i, Digit);
    AllInIff(s[i..j], 0, j - i, Digit);
  }

  /** A run extends by one character in the class at its end. */
  lemma {:induction false} AllInSnoc(s: string, lo: nat, hi: nat, cls: CharClass)
    requires lo <= hi < |s| && AllIn(s, lo, hi, cls) && InClass(s[hi], cls)
    ensures AllIn(s, lo, hi + 1, cls)
    decreases hi - lo
  {
    if lo < hi {
      AllInSnoc(s, lo + 1, hi, cls);
    }
  }

  /** `String.trim`: drops the blanks (code points up to U+0020) at both ends. */
  function Trim(s: string): (r: string)
    ensures IsStripped(r)
    ensures |r| <= |s|
    ensures r == [] <==> forall k :: 0 <= k < |s| ==> IsBlank(s[k])
  {
    var st := Span(s, 0, Blank);
    var en := SpanBack(s, st, |s|, Blank);
    assert st < en ==> s[st..en][0] == s[st];
    SpanToEnd(s, 0, Blank);
    AllInIff(s, 0, |s|, Blank);
    s[st..en]
  }

  /** Text with nothing to strip is left as it is. */
  lemma TrimStripped(s: string)
    requires IsStripped(s)
    ensures Trim(s) == s
  {
    if s != [] {
      SpanIs(s, 0, Blank, 0);
      assert SpanBack(s, 0, |s|, Blank) == |s|;
    }
  }

  /** Removing only blanks from both ends, and leaving no blank at either end, is `trim`. */
  lemma TrimIs(s: string, st: nat, en: nat)
    requires st <= en <= |s|
    requires AllIn(s, 0, st, Blank) && AllIn(s, en, |s|, Blank)
    requires IsStripped(s[st..en])
    ensures Trim(s) == s[st..en]
  {
    if st == en {
      AllInJoin(s, 0, st, |s|, Blank);
      SpanToEnd(s, 0, Blank);
      AllInIff(s, 0, |s|, Blank);
    } else {
      assert s[st..en][0] == s[st];
      assert s[st..en][en - st - 1] == s[en - 1];
      SpanIs(s, 0, Blank, st);
      SpanBackIs(s, st, |s|, Blank, en);
    }
  }

  lemma TrimIdempotent(s: string)
    ensures Trim(Trim(s)) == Trim(s)
  {
    TrimStripped(Trim(s));
  }

  /** ASCII lower-casing of one character. */
  function LowerChar(c: char): char {
    if 'A' <= c <= 'Z' then (c as int + 32) as char else c
  }

  /** `String.toLowerCase` restricted to the ASCII letters. */
  function Lower(s: string): (r: string)
    ensures |r| == |s|
    ensures forall k :: 0 <= k < |s| ==> r[k] == LowerChar(s[k])
    ensures forall k :: 0 <= k < |s| ==> !('A' <= r[k] <= 'Z')
    ensures forall k :: 0 <= k < |s| ==> (r[k] == s[k] <==> !('A' <= s[k] <= 'Z'))
  {
    seq(|s|, k requires 0 <= k < |s| => LowerChar(s[k]))
  }

  /** Lower-casing twice is lower-casing once. */
  lemma LowerIdempotent(s: string)
    ensures Lower(Lower(s)) == Lower(s)
  {
    LowerNoUpper(Lower(s));
  }

  /** Text without upper-case ASCII letters is its own lower-case form. */
  lemma LowerNoUpper(s: string)
    requires forall k :: 0 <= k < |s| ==> !('A' <= s[k] <= 'Z')
    ensures Lower(s) == s
  {
  }

  function Pow10(k: nat): (p: nat)
    ensures p >= 1
  {
    if k == 0 then 1 else 10 * Pow10(k - 1)
  }

  function DigitValue(c: char): (v: nat)
    requires IsDigit(c)
    ensures v < 10
  {
    c as int - '0' as int
  }

  function DigitChar(v: nat): (c: char)
    requires v < 10
    ensures IsDigit(c) && DigitValue(c) == v
  {
    ('0' as int + v) as char
  }

  /** A numeral as `Integer.toString` writes it: a single digit, or no leading `0`. */
  predicate IsCanonical(d: string) {
    |d| > 0 && AllDigits(d) && (|d| == 1 || d[0] != '0')
  }

  /** `Integer.parseInt` on a run of ASCII digits (leading zeros are dropped). */
  function DigitsValue(d: string): (n: nat)
    requires AllDigits(d)
    ensures n < Pow10(|d|)
    ensures |d| > 0 && d[0] != '0' ==> Pow10(|d| - 1) <= n
    decreases |d|
  {
    if d == [] then 0 else DigitsValue(d[..|d| - 1]) * 10 + DigitValue(d[|d| - 1])
  }

  /** A leading zero does not change the value. */
  lemma {:induction false} DigitsValueLeadingZero(d: string)
    requires AllDigits(d)
    ensures AllDigits("0" + d) && DigitsValue("0" + d) == DigitsValue(d)
    decreases |d|
  {
    var z := "0" + d;
    if d != [] {
      var n := |d| - 1;
      assert z[..|z| - 1] == "0" + d[..n];
      assert z[|z| - 1] == d[n];
      DigitsValueLeadingZero(d[..n]);
    }
  }

  /** Appending a digit to a positive number's numeral multiplies it by ten and adds the digit. */
  lemma NatTextSnoc(a: nat, c: char)
    requires a >= 1 && IsDigit(c)
    ensures NatText(a * 10 + DigitValue(c)) == NatText(a) + [c]
  {
    var v := a * 10 + DigitValue(c);
    assert v / 10 == a && v % 10 == DigitValue(c);
    assert DigitChar(DigitValue(c)) == c;
  }

  /** A canonical numeral is printed back as itself by `Integer.toString`. */
  lemma {:induction false} DigitsRoundTrip(d: string)
    requires IsCanonical(d)
    ensures NatText(DigitsValue(d)) == d
    decreases |d|
  {
    var n := |d| - 1;
    if n == 0 {
      assert DigitChar(DigitValue(d[0])) == d[0];
      assert d == [d[0]];
    } else {
      var init := d[..n];
      assert init[0] == d[0];
      DigitsRoundTrip(init);
      NatTextSnoc(DigitsValue(init), d[n]);
      assert d == init + [d[n]];
    }
  }

  /** `Integer.toString` of a non-negative number. */
  function NatText(n: nat): (t: string)
    ensures |t| > 0 && AllDigits(t)
    ensures DigitsValue(t) == n
    decreases n
  {
    if n < 10 then [DigitChar(n)]
    else
      var init := NatText(n / 10);
      var t := init + [DigitChar(n % 10)];
      assert t[..|t| - 1] == init;
      t
  }

  /** The years 1000..9999 print as exactly four digits. */
  lemma NatTextFourDigits(n: nat)
    requires 1000 <= n <= 9999
    ensures |NatText(n)| == 4
  {
    assert |NatText(n / 1000)| == 1;
    assert |NatText(n / 100)| == 2;
    assert |NatText(n / 10)| == 3;
  }
}
