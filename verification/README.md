# Phone catalogue normalizers and statistics, in Dafny

This project models the core of a small Java program that reads a CSV catalogue of mobile
phones (`src/main/java/Main.java`). There are two parts:

- **Cell normalizers.** The `Cell` constructor turns each raw field into a typed value or
  "absent" (`null` in Java, `None` here):
  - the announced year and launch status (`\b(\d{4})\b`);
  - the body dimensions (`\d+\.\d+ x \d+\.\d+ x \d+\.\d+ mm`);
  - the weight in grams (`(\d+)\s*g\b`);
  - the display size in inches (`(\d+\.\d+|\d+)\s*inches`);
  - the trimmed SIM, display type, resolution and sensors fields;
  - the platform (`^([^,]+)`).
- **Statistics.** `createCellFromCsvRow` and the four statistics `Main` computes over the cells.

Modules:

- `Optional`: the `Option` type.
- `Text`:
  - character classes;
  - `String.trim`;
  - ASCII lower-casing;
  - decimal numerals (`Integer.parseInt` and `Integer.toString` on non-negative numbers).
- `Regex`: the four `find()` patterns as matchers over string positions, plus the leftmost search:
  - `YearMatch` is `\b(\d{4})\b` (src/main/java/Main.java:103);
  - `DimensionsEnd` is `(\d+\.\d+ x \d+\.\d+ x \d+\.\d+ mm)` (src/main/java/Main.java:123);
  - `WeightMatch` is `(\d+)\s*g\b` (src/main/java/Main.java:136);
  - `SizeEnd` is `(\d+\.\d+|\d+)\s*inches` (src/main/java/Main.java:158).

  Every `\d+` and `\s*` in these patterns is followed by an atom that cannot extend the run, so
  each match takes whole runs, and each matcher is a function of its start position. For each
  pattern a lemma shows that the matcher agrees with every way a backtracking matcher could
  split the text (`YearMatchDelimited`, `DimensionsEndIff`, `WeightMatchIff`, `SizeEndIff`).
- `Cell`: the `Status`, `Decimal` and `Record` types and the field normalizers. `parseDisplayType`
  and `parseDisplayResolution` are both `value.trim()`, so the record builder applies `Text.Trim`
  to those two fields directly. `MatchesAlnumLine` is the `matches(".*[a-zA-Z0-9].*")` test
  (src/main/java/Main.java:172).
- `CellLaws`: round trips (print a value, read it back) and idempotence of the normalizers.
- `Rows`: the `Cell` constructor and `createCellFromCsvRow`.
- `Aggregates`: the four statistics. Each one is a loop, checked against a recursive reference
  definition, with lemmas that characterize the reference.
- `Samples`: the normalizers on sample fields where the patterns do something a reader might
  not expect.

Conventions:

- `\d` is the ASCII digits.
- `\s` is `[ \t\n\x0B\f\r]`.
- `\b` uses the ASCII word characters `[A-Za-z0-9_]`, and the ends of the text count as non-word.
- `toLowerCase` and `equalsIgnoreCase` are modelled on ASCII letters, as in a locale whose
  lower-casing of `A`–`Z` is the plain ASCII one.
- `trim` strips characters up to U+0020.

Where the code does something other than a reader of a field would expect, the model follows the
code:

- **Year.** `parseYear` needs `\b` around the four digits, which is more than "not part of a
  longer digit run": a letter or underscore next to them blocks the match as well, so `2019Q2` has no year
  (`Samples.YearNeedsWordBoundary`).
- **Short years.** `parseYear` reads `0999` as 999 (`Samples.YearWithLeadingZero`), but 999
  printed back has three digits and holds no year (`CellLaws.ShortYearNotReadBack`). Only the
  years 1000..9999 survive a print and a second read (`CellLaws.YearRoundTrip`).
- **Weight.** `parseBodyWeight` trims and lower-cases only for the yes/no test. It searches the
  field as given, so `150 G` has no weight (`Samples.WeightIsCaseSensitive`). The `g` must end a
  word, so `150 grams` has no weight either, whatever its case (`Samples.WeightNeedsWordBoundary`).
  Because the digits must sit right before the `g`, `148.5 g` weighs 5
  (`Samples.WeightReadsDigitsAfterPoint`).
- **Platform.** `parsePlatformOs` keeps the blanks in front of the first comma:
  `Android 9.0 , EMUI 9` gives `Android 9.0 `. A second pass trims them, so the normalizer is
  idempotent only on values without such blanks (`CellLaws.PlatformReparse`).
- **Sensors.** `parseFeaturesSensors` uses `matches(".*[a-zA-Z0-9].*")`. Its `.` does not match
  a line terminator, so a field with an ASCII letter or digit is still dropped when its trimmed
  form contains `\n`, `\r`, U+0085, U+2028 or U+2029. A line terminator at either end is
  removed by `trim` first, so `GPS` followed by `\n` is kept as `GPS`
  (`Samples.SensorsTrailingLineBreakKept`). The extra `"v1"` test never changes the answer.
- **SIM.** An empty (blank) SIM field is kept as the empty text; only `yes` and `no` are absent.

## Model

| member | source | states |
|---|---|---|
| Text.Trim | src/main/java/Main.java:152-154 | `parseDisplayType` (and `parseDisplayResolution` at lines 165-167, and every `trim` the other normalizers make): no blank is left at either end, the text never gets longer, and the result is empty exactly when every character is a blank |
| Text.TrimIs | src/main/java/Main.java:112 | reference characterization of `trim`: removing only blanks from both ends and leaving none at either end is what `trim` does |
| Text.TrimIdempotent | src/main/java/Main.java:165-167 | trimming twice is trimming once, so display type and resolution are unchanged by a second pass |
| Text.Lower | src/main/java/Main.java:112 | lower-casing keeps the length, leaves no ASCII capital, and changes a character exactly when it is an ASCII capital |
| Text.LowerIdempotent | src/main/java/Main.java:112 | lower-casing twice is lower-casing once |
| Text.DigitsValue | src/main/java/Main.java:106 | `Integer.parseInt` of k digits is below 10 to the k, and at least 10 to the k-1 when the first digit is not `0` |
| Text.DigitsValueLeadingZero | src/main/java/Main.java:106 | a leading `0` does not change the value `Integer.parseInt` reads |
| Text.DigitsRoundTrip | src/main/java/Main.java:106 | a numeral without leading zeros, read by `Integer.parseInt` and printed by `Integer.toString`, is itself |
| Text.NatText | src/main/java/Main.java:106 | `Integer.toString` of a natural number is a nonempty digit string that `Integer.parseInt` reads back as the number |
| Text.NatTextFourDigits | src/main/java/Main.java:103 | the numbers 1000..9999 print with exactly four digits, so they are what `\d{4}` can match |
| Regex.YearMatchDelimited | src/main/java/Main.java:103 | `\b(\d{4})\b` matches at a position exactly when four digits start there and no word character touches them on either side |
| Regex.DimensionsEndIff | src/main/java/Main.java:123 | the dimensions pattern matches at a position under some split exactly when the matcher finds a match there, and every split ends where the matcher says |
| Regex.WeightMatchIff | src/main/java/Main.java:136 | `(\d+)\s*g\b` matches at a position under some split exactly when the matcher says so, and every split takes the whole digit run and the whole white-space run |
| Regex.SizeEndIff | src/main/java/Main.java:158 | the size pattern (a numeral `\d+\.\d+` or `\d+`, then `\s*inches`) matches at a position under some split exactly when the matcher finds a match there, and every split ends group 1 where the matcher says |
| Regex.Find | src/main/java/Main.java:103-105 | `find()` returns a start where the pattern matches with no match to its left, and is absent exactly when the pattern matches nowhere |
| Regex.FindAtStart | src/main/java/Main.java:105 | a pattern that matches at position 0 is found there |
| Regex.WeightMatchStartsRun | src/main/java/Main.java:136-138 | the leftmost weight match starts a maximal digit run, so `group(1)` is a whole run of digits |
| Regex.DimensionsShift | src/main/java/Main.java:123-125 | a dimensions match copied out of its text still matches the whole copy |
| Cell.ParseYear | src/main/java/Main.java:102-109 | absent exactly when no four digits are bounded by `\b` on both sides; otherwise the value of the leftmost such four digits, at most 9999 |
| Cell.ParseLaunchStatus | src/main/java/Main.java:111-119 | discontinued or cancelled exactly when the trimmed lower-cased field is that word; otherwise a released year exactly when `parseYear` finds one, and then that year; otherwise unknown |
| Cell.ParseBodyDimensions | src/main/java/Main.java:121-128 | absent exactly when the dimensions pattern matches nowhere; otherwise the text of its leftmost match |
| Cell.ParseBodyWeight | src/main/java/Main.java:130-142 | absent for a yes/no field; otherwise absent exactly when `(\d+)\s*g\b` matches nowhere in the untrimmed field, and otherwise the value of the digit run of the leftmost match |
| Cell.ParseBodySim | src/main/java/Main.java:144-150 | absent exactly for a yes/no field, otherwise the trimmed field |
| Cell.SizeNumeral | src/main/java/Main.java:158-160 | the numeral read from a size match is written exactly as group 1's text, and is well formed: digits, and when there is a point, digits after it |
| Cell.ParseDisplaySize | src/main/java/Main.java:156-163 | absent exactly when the size pattern matches nowhere in the trimmed lower-cased field; otherwise the numeral of the leftmost match, always well formed |
| Cell.AlnumLineMatch | src/main/java/Main.java:172 | `matches(".*[a-zA-Z0-9].*")` holds exactly when some ASCII letter or digit has no line terminator before or after it in the text |
| Cell.LowerKeepsClasses | src/main/java/Main.java:171-172 | ASCII lower-casing, the model's `toLowerCase`, neither adds nor removes an ASCII letter or digit or a line terminator |
| Cell.ParseFeaturesSensors | src/main/java/Main.java:169-177 | kept exactly when the trimmed field holds an ASCII letter or digit and no line terminator, and then it is the trimmed field |
| Cell.ParsePlatformOs | src/main/java/Main.java:179-185 | absent exactly when the trimmed field is empty or starts with a comma; otherwise the longest nonempty comma-free prefix of the trimmed field |
| CellLaws.ShortYearNotReadBack | src/main/java/Main.java:102-109 | a year below 1000, printed, holds no year |
| CellLaws.YearRoundTrip | src/main/java/Main.java:102-109 | a year in 1000..9999, printed, is read back as itself |
| CellLaws.StatusRoundTrip | src/main/java/Main.java:111-119 | every launch status (a released year between 1000 and 9999), printed as `%s` prints it, is read back as itself |
| CellLaws.DimensionsIdempotent | src/main/java/Main.java:121-128 | applying `parseBodyDimensions` to its own result gives that result again |
| CellLaws.WeightRoundTrip | src/main/java/Main.java:130-142 | every weight printed as digits followed by ` g` is read back as itself |
| CellLaws.SizeRoundTrip | src/main/java/Main.java:156-163 | every well-formed numeral followed by ` inches` is read back as that numeral |
| CellLaws.YesNoTrimmed | src/main/java/Main.java:133 | the yes/no test gives the same answer before and after trimming |
| CellLaws.SimIdempotent | src/main/java/Main.java:144-150 | a kept SIM field is kept unchanged by a second pass |
| CellLaws.SensorsIdempotent | src/main/java/Main.java:169-177 | a kept sensors field is kept unchanged by a second pass |
| CellLaws.PlatformReparse | src/main/java/Main.java:179-185 | a second pass over a platform gives its trimmed form, which is the platform itself when it has no blank before its comma |
| Rows.NewCell | src/main/java/Main.java:25-40 | the constructor stores manufacturer and model as given, and each other field is its own normalizer applied to its own argument (year, status, dimensions, weight, SIM, trimmed type, size, trimmed resolution, sensors, platform), so every field is in normal form: years at most 9999, dimensions a fixed point, SIM, type, resolution and sensors trimmed, sizes well formed, platform comma-free |
| Rows.RecordOfRow | src/main/java/Main.java:239-259 | a row is rejected exactly when it has fewer than twelve fields; otherwise column k, trimmed, feeds the k-th field through its normalizer (columns 0 and 1 the manufacturer and model, column 2 the year, 3 the status, 4 the dimensions, 5 the weight, 6 the SIM, 7 the display type, 8 the size, 9 the resolution, 10 the sensors, 11 the platform), and the record is in normal form |
| Rows.RecordOfTrimmedRow | src/main/java/Main.java:243-254 | trimming every field beforehand does not change the record |
| Rows.RecordIgnoresExtraFields | src/main/java/Main.java:240-258 | fields after the twelfth do not change the record |
| Aggregates.MismatchedMembers | src/main/java/Main.java:287-304 | a record is listed exactly when it is in the input with an announced year and a release year that differ |
| Aggregates.MismatchedPositions | src/main/java/Main.java:287-304 | the listed records are read off the input at increasing positions, and those positions are exactly where the mismatched records are |
| Aggregates.NotReleasedNeverListed | src/main/java/Main.java:293-296 | a discontinued, cancelled or unknown phone, or one with no announced year, is never listed |
| Aggregates.FindPhonesWithDifferentAnnounceAndRelease | src/main/java/Main.java:287-304 | the loop returns the reference filter, so it lists exactly the mismatched records of the input |
| Aggregates.V1Spellings | src/main/java/Main.java:311 | `equalsIgnoreCase("v1")` holds exactly for `v1` and `V1` |
| Aggregates.CountV1Positions | src/main/java/Main.java:306-317 | the count is the number of positions holding a record whose sensors equal `v1` ignoring case |
| Aggregates.CountV1Append | src/main/java/Main.java:306-317 | counting a list in two parts adds up |
| Aggregates.CountPhonesWithOneFeatureSensor | src/main/java/Main.java:306-317 | the loop returns the number of positions holding a `v1` record |
| Aggregates.YearCountPositive | src/main/java/Main.java:323-328 | a year's count is positive exactly when some record was announced in it |
| Aggregates.CountLaunchesByYear | src/main/java/Main.java:321-328 | the map holds exactly the years after 1999 in which some phone was announced, each with its number of phones |
| Aggregates.CountedYears | src/main/java/Main.java:321-328 | the years after 1999 with an announcement, each once: a visiting order of the map that lists exactly its keys |
| Aggregates.MostFrequentKey | src/main/java/Main.java:330-338 | the scan returns 0 when no visited count is positive, and otherwise a visited key whose count is positive and at least every visited count, visited before every other key with that count |
| Aggregates.FindYearWithMostLaunches | src/main/java/Main.java:320-341 | 0 exactly when no phone was announced after 1999; otherwise a year after 1999 with launches whose count is at least that of every year after 1999, and the first such year in the visiting order, for every visiting order of the map |
| Aggregates.WeighedCountPositive | src/main/java/Main.java:272-276 | a manufacturer has weighed records exactly when one of its records has a weight |
| Aggregates.AverageBetween | src/main/java/Main.java:279-281 | when every weight of a manufacturer lies between two bounds, the total lies between the bounds times the count, so the average lies between them |
| Aggregates.TallyStep | src/main/java/Main.java:268-277 | one loop step adds the record's weight to its manufacturer's total and count and leaves every other manufacturer alone |
| Aggregates.CalculateAverageWeightByOem | src/main/java/Main.java:264-285 | the keys are exactly the manufacturers with a weighed record, and each holds the total and the positive count of that manufacturer's weights |
| Samples.YearWithLeadingZero | src/main/java/Main.java:103-106 | `0999` gives the year 999 |
| Samples.YearNeedsWordBoundary | src/main/java/Main.java:103 | `2019Q2` has no year |
| Samples.WeightReadsDigitsAfterPoint | src/main/java/Main.java:136-138 | `148.5 g` weighs 5 |
| Samples.WeightNeedsWordBoundary | src/main/java/Main.java:136 | `150 grams` has no weight |
| Samples.WeightIsCaseSensitive | src/main/java/Main.java:136-137 | `150 G` has no weight, because the search runs on the field as given |
| Samples.PlatformKeepsBlankBeforeComma | src/main/java/Main.java:181-182 | `Android 9.0 , EMUI 9` gives `Android 9.0 ` |
| Samples.SensorsSamples | src/main/java/Main.java:169-177 | the empty field and ` - ` are dropped; `V1` is kept as written |
| Samples.AverageSample | src/main/java/Main.java:264-285 | with phones (A, 100 g), (A, 200 g) and (B, no weight), A totals 300 g over 2 phones and B has no weighed phone, so only A gets an average |
| Samples.SensorsTrailingLineBreakKept | src/main/java/Main.java:171-174 | `GPS` followed by a line break is kept as `GPS`, because `trim` removes the break before the test |
| Samples.SensorsLineBreakDropped | src/main/java/Main.java:172 | a field with a line break between two words is dropped |

## Left out

- `readCSV` (src/main/java/Main.java:220-236): file reading, the header skip, `String.split` and
  the exception path are I/O. The model starts from the split row.
- `main` (src/main/java/Main.java:189-217), `toString` (src/main/java/Main.java:91-99) and the
  getters (src/main/java/Main.java:43-89): console output and plain accessors.
- Null inputs: the only caller passes trimmed fields of a split line, so the `value != null`
  branches of the normalizers are not modelled, and the parsers take a string.
- Cell.ParseBodyWeight: gives the exact value of the digit run as a natural number, not the
  `Float` that `Float.parseFloat` returns. Float rounding is not modelled.
- Cell.ParseDisplaySize: gives the matched numeral as its digit strings, not the `Float`.
- Aggregates.CalculateAverageWeightByOem: returns each average as its exact total and count
  (`Mean`). The float sums and the float division are not modelled.
- Aggregates.FindYearWithMostLaunches: the `HashMap` visiting order is a parameter. The
  contract holds for every order. Which of several equally busy years is returned depends on
  that order, and the model does not fix the order `HashMap` uses (`Aggregates.CountedYears`
  is one admissible order).
- Text.Lower: lower-cases ASCII letters only. The Unicode case mappings of `toLowerCase` and
  `equalsIgnoreCase` outside ASCII are not modelled.
- Cell.ParseFeaturesSensors: tests the ASCII lower-cased field. Java's `toLowerCase` maps a few
  non-ASCII characters to ASCII letters: U+212A KELVIN SIGN becomes `k`, and U+0130 becomes `i`
  followed by U+0307. So Java keeps a field such as `\u212A` that the model drops.
- Default locale: `toLowerCase()` (src/main/java/Main.java:112, 132, 146, 159, 171) uses the
  JVM's default locale. The model assumes a locale whose lower-casing of `A`–`Z` is the ASCII
  one. In a Turkish or Azeri locale `I` becomes U+0131. Java then gives no status for
  `DISCONTINUED` and no size for `6.1 INCHES`, where the model gives `Discontinued` and 6.1.
- Cell.ParseYear: `\b` is the ASCII word boundary. A non-ASCII letter next to the digits counts
  as a non-word character here. So does a non-spacing combining mark: Java's `\b` counts a mark
  that follows a letter or digit as part of the word, so Java finds no year in `2019` followed
  by U+0301, where the model gives 2019.
- Cell.ParseBodyWeight: the `g\b` test uses the same ASCII `\b`. Java finds no weight in
  `150 g` followed by U+0301, because the mark continues the word after the `g`. The model
  gives 150.
- The `int` counters of the statistics are unbounded here. They cannot overflow for a list that
  fits in memory.
