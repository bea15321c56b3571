/** The four statistics `Main` computes over the list of cells: phones released in another year
    than announced, phones whose only sensor is `V1`, the busiest launch year after 1999 and the
    per-manufacturer weight totals behind the average weight. Each is a loop checked against a
    recursive reference definition. */
module Aggregates {
  import opened Optional
  import opened Text
  import opened Cell

  // ---------------------------------------------------------------------------------------
  // findPhonesWithDifferentAnnounceAndRelease

  /** The announced year is known, the status is a year, and the two years differ. */
  predicate Mismatched(c: Record) {
    c.announced.Some? && c.status.Released? && c.announced.value != c.status.year
  }

  /** Reference definition: the mismatched records of `cells`, in their order. */
  function MismatchedOf(cells: seq<Record>): (r: seq<Record>)
    ensures |r| <= |cells|
  {
    if cells == [] then []
    else
      var n := |cells| - 1;
      MismatchedOf(cells[..n]) + (if Mismatched(cells[n]) then [cells[n]] else [])
  }

  /** A record is listed exactly when it is in the input and mismatched. */
  lemma {:induction false} MismatchedMembers(cells: seq<Record>)
    ensures forall c :: c in MismatchedOf(cells) <==> c in cells && Mismatched(c)
  {
    if cells != [] {
      var n := |cells| - 1;
      MismatchedMembers(cells[..n]);
      assert cells == cells[..n] + [cells[n]];
    }
  }

  predicate Increasing(idx: seq<nat>) {
    forall a, b :: 0 <= a < b < |idx| ==> idx[a] < idx[b]
  }

  /** The positions of the mismatched records of `cells`, in increasing order. */
  function MismatchedIndices(cells: seq<Record>): (idx: seq<nat>)
    ensures |idx| == |MismatchedOf(cells)|
    ensures forall k :: 0 <= k < |idx| ==> idx[k] < |cells|
  {
    if cells == [] then []
    else
      var n := |cells| - 1;
      MismatchedIndices(cells[..n]) + (if Mismatched(cells[n]) then [n] else [])
  }

  lemma {:induction false} IndicesIncreasing(cells: seq<Record>)
    ensures Increasing(MismatchedIndices(cells))
  {
    if cells != [] {
      var n := |cells| - 1;
      IndicesIncreasing(cells[..n]);
    }
  }

  lemma {:induction false} IndicesSelect(cells: seq<Record>)
    ensures forall k :: 0 <= k < |MismatchedIndices(cells)| ==>
      MismatchedOf(cells)[k] == cells[MismatchedIndices(cells)[k]]
  {
    if cells != [] {
      var n := |cells| - 1;
      IndicesSelect(cells[..n]);
      assert forall j :: 0 <= j < n ==> cells[..n][j] == cells[j];
    }
  }

  lemma {:induction false} IndicesExact(cells: seq<Record>)
    ensures forall j :: 0 <= j < |cells| ==> (j in MismatchedIndices(cells) <==> Mismatched(cells[j]))
  {
    if cells != [] {
      var n := |cells| - 1;
      IndicesExact(cells[..n]);
      assert forall j :: 0 <= j < n ==> cells[..n][j] == cells[j];
      assert n !in MismatchedIndices(cells[..n]);
    }
  }

  /** The result is an order-preserving subsequence of the input: it is read off at increasing
      positions, and those positions are exactly the positions of the mismatched records. */
  lemma MismatchedPositions(cells: seq<Record>) returns (idx: seq<nat>)
    ensures |idx| == |MismatchedOf(cells)| && Increasing(idx)
    ensures forall k :: 0 <= k < |idx| ==> idx[k] < |cells| && MismatchedOf(cells)[k] == cells[idx[k]]
    ensures forall j :: 0 <= j < |cells| ==> (j in idx <==> Mismatched(cells[j]))
  {
    idx := MismatchedIndices(cells);
    IndicesIncreasing(cells);
    IndicesSelect(cells);
    IndicesExact(cells);
  }

  /** A discontinued, cancelled or unknown phone is never listed, nor one without an announced
      year. */
  lemma NotReleasedNeverListed(cells: seq<Record>, c: Record)
    requires c in cells
    requires !c.status.Released? || c.announced.None?
    ensures c !in MismatchedOf(cells)
  {
    MismatchedMembers(cells);
  }

  /** `findPhonesWithDifferentAnnounceAndRelease`. */
  method FindPhonesWithDifferentAnnounceAndRelease(cells: seq<Record>) returns (r: seq<Record>)
    ensures r == MismatchedOf(cells)
    ensures forall c :: c in r <==> c in cells && Mismatched(c)
  {
    r := [];
    for i := 0 to |cells|
      invariant r == MismatchedOf(cells[..i])
    {
      assert cells[..i + 1][..i] == cells[..i];
      var c := cells[i];
      if c.announced.Some? && c.status.Released? {
        if c.announced.value != c.status.year {
          r := r + [c];
        }
      }
    }
    assert cells[..|cells|] == cells;
    MismatchedMembers(cells);
  }

  // ---------------------------------------------------------------------------------------
  // countPhonesWithOneFeatureSensor

  /** `sensors.equalsIgnoreCase("v1")` on a present sensors field. */
  predicate HasV1Sensor(c: Record) {
    c.sensors.Some? && Lower(c.sensors.value) == "v1"
  }

  /** Ignoring case, `v1` is written in exactly two ways. */
  lemma V1Spellings(s: string)
    ensures Lower(s) == "v1" <==> s == "v1" || s == "V1"
  {
    if Lower(s) == "v1" {
      assert LowerChar(s[0]) == 'v' && LowerChar(s[1]) == '1';
    }
  }

  /** Reference definition: how many records have the single sensor `V1`. */
  function CountV1(cells: seq<Record>): (n: nat)
    ensures n <= |cells|
  {
    if cells == [] then 0
    else
      var n := |cells| - 1;
      CountV1(cells[..n]) + (if HasV1Sensor(cells[n]) then 1 else 0)
  }

  function V1Positions(cells: seq<Record>): set<nat> {
    set j: nat | j < |cells| && HasV1Sensor(cells[j])
  }

  /** The count is the number of positions that hold a `V1` record. */
  lemma {:induction false} CountV1Positions(cells: seq<Record>)
    ensures CountV1(cells) == |V1Positions(cells)|
  {
    if cells != [] {
      var n := |cells| - 1;
      CountV1Positions(cells[..n]);
      assert forall j :: 0 <= j < n ==> cells[..n][j] == cells[j];
      if HasV1Sensor(cells[n]) {
        assert V1Positions(cells) == V1Positions(cells[..n]) + {n};
      } else {
        assert V1Positions(cells) == V1Positions(cells[..n]);
      }
    }
  }

  /** Counting a list in two parts adds up. */
  lemma {:induction false} CountV1Append(a: seq<Record>, b: seq<Record>)
    ensures CountV1(a + b) == CountV1(a) + CountV1(b)
    decreases |b|
  {
    if b == [] {
      assert a + b == a;
    } else {
      var n := |b| - 1;
      CountV1Append(a, b[..n]);
      assert (a + b)[..|a + b| - 1] == a + b[..n];
    }
  }

  /** `countPhonesWithOneFeatureSensor`. */
  method CountPhonesWithOneFeatureSensor(cells: seq<Record>) returns (count: nat)
    ensures count == CountV1(cells)
    ensures count == |V1Positions(cells)|
  {
    count := 0;
    for i := 0 to |cells|
      invariant count == CountV1(cells[..i])
    {
      assert cells[..i + 1][..i] == cells[..i];
      var sensors := cells[i].sensors;
      if sensors.Some? && Lower(sensors.value) == "v1" {
        count := count + 1;
      }
    }
    assert cells[..|cells|] == cells;
    CountV1Positions(cells);
  }

  // ---------------------------------------------------------------------------------------
  // findYearWithMostLaunches

  /** Only announcements after 1999 are counted. */
  const FirstCountedYear: nat := 2000

  /** Reference definition: how many records were announced in year `y`. */
  function YearCount(cells: seq<Record>, y: nat): (n: nat)
    ensures n <= |cells|
  {
    if cells == [] then 0
    else
      var n := |cells| - 1;
      YearCount(cells[..n], y) + (if cells[n].announced == Some(y) then 1 else 0)
  }

  /** A year has a positive count exactly when some record was announced in it. */
  lemma {:induction false} YearCountPositive(cells: seq<Record>, y: nat)
    ensures YearCount(cells, y) > 0 <==> exists c :: c in cells && c.announced == Some(y)
  {
    if cells != [] {
      var n := |cells| - 1;
      YearCountPositive(cells[..n], y);
      assert cells == cells[..n] + [cells[n]];
    }
  }

  /** The record's announcement is counted. */
  predicate Counted(c: Record) {
    c.announced.Some? && c.announced.value >= FirstCountedYear
  }

  /** The `yearCounts` map: every counted year that occurs, with its number of records. */
  method CountLaunchesByYear(cells: seq<Record>) returns (counts: map<nat, nat>)
    ensures forall y :: y in counts <==> y >= FirstCountedYear && YearCount(cells, y) > 0
    ensures forall y :: y in counts ==> counts[y] == YearCount(cells, y)
  {
    counts := map[];
    for i := 0 to |cells|
      invariant forall y :: y in counts <==> y >= FirstCountedYear && YearCount(cells[..i], y) > 0
      invariant forall y :: y in counts ==> counts[y] == YearCount(cells[..i], y)
    {
      assert cells[..i + 1][..i] == cells[..i];
      var year := cells[i].announced;
      if year.Some? && year.value > 1999 {
        var y := year.value;
        counts := counts[y := (if y in counts then counts[y] else 0) + 1];
      }
    }
    assert cells[..|cells|] == cells;
  }

  /** The counted years in the order of their first announcement, each once: one visiting order
      of the `yearCounts` map that meets the requirement of `FindYearWithMostLaunches`. */
  function CountedYears(cells: seq<Record>): (order: seq<nat>)
    ensures forall y :: y in order <==> y >= FirstCountedYear && YearCount(cells, y) > 0
    ensures forall a, b :: 0 <= a < b < |order| ==> order[a] != order[b]
  {
    if cells == [] then []
    else
      var n := |cells| - 1;
      var prev := CountedYears(cells[..n]);
      if Counted(cells[n]) && cells[n].announced.value !in prev then prev + [cells[n].announced.value]
      else prev
  }

  /** The scan over the map's entries, visited in `order`: a strictly greater count replaces the
      best so far, so 0 is returned when no visited count is positive, and of several equally
      large counts the first visited wins. */
  method MostFrequentKey(counts: map<nat, nat>, order: seq<nat>) returns (best: nat)
    requires forall y :: y in order ==> y in counts
    ensures (forall k :: 0 <= k < |order| ==> counts[order[k]] == 0) ==> best == 0
    ensures (exists k :: 0 <= k < |order| && counts[order[k]] > 0) ==>
      best in order && counts[best] > 0 &&
      forall k :: 0 <= k < |order| ==> counts[order[k]] <= counts[best]
    ensures (exists k :: 0 <= k < |order| && counts[order[k]] > 0) ==>
      exists k :: 0 <= k < |order| && order[k] == best && forall j :: 0 <= j < k ==> counts[order[j]] < counts[best]
  {
    best := 0;
    var bestCount: nat := 0;
    ghost var at := 0;
    for i := 0 to |order|
      invariant bestCount == 0 ==> best == 0
      invariant bestCount > 0 ==> at < i && order[at] == best && counts[best] == bestCount
      invariant bestCount > 0 ==> forall j :: 0 <= j < at ==> counts[order[j]] < bestCount
      invariant forall k :: 0 <= k < i ==> counts[order[k]] <= bestCount
    {
      var y := order[i];
      if counts[y] > bestCount {
        bestCount := counts[y];
        best := y;
        at := i;
      }
    }
  }

  /** `findYearWithMostLaunches`. The map is visited in `order`, which lists each counted year;
      which of several equally busy years wins depends on it, and nothing below does. */
  method FindYearWithMostLaunches(cells: seq<Record>, order: seq<nat>) returns (year: nat)
    requires forall y :: y in order <==> y >= FirstCountedYear && YearCount(cells, y) > 0
    ensures year == 0 <==> forall c :: c in cells ==> !Counted(c)
    ensures year != 0 ==> year >= FirstCountedYear && YearCount(cells, year) > 0
    ensures year != 0 ==> forall y :: y >= FirstCountedYear ==> YearCount(cells, y) <= YearCount(cells, year)
    ensures year != 0 ==>
      exists k :: 0 <= k < |order| && order[k] == year &&
        forall j :: 0 <= j < k ==> YearCount(cells, order[j]) < YearCount(cells, year)
  {
    var counts := CountLaunchesByYear(cells);
    year := MostFrequentKey(counts, order);
    if c :| c in cells && Counted(c) {
      var y := c.announced.value;
      YearCountPositive(cells, y);
      var k :| 0 <= k < |order| && order[k] == y;
      assert counts[order[k]] > 0;
      forall y' | y' >= FirstCountedYear
        ensures YearCount(cells, y') <= YearCount(cells, year)
      {
        if YearCount(cells, y') > 0 {
          var k' :| 0 <= k' < |order| && order[k'] == y';
        }
      }
      assert year in order;
    } else if |order| > 0 {
      YearCountPositive(cells, order[0]);
      assert false;
    }
  }

  // ---------------------------------------------------------------------------------------
  // calculateAverageWeightByOEM

  /** The record's weight counts towards manufacturer `oem`. */
  predicate WeighedFor(c: Record, oem: string) {
    c.oem == oem && c.weight.Some?
  }

  /** Reference definition: the total weight of the weighed records of `oem`. */
  function WeightSum(cells: seq<Record>, oem: string): nat {
    if cells == [] then 0
    else
      var n := |cells| - 1;
      WeightSum(cells[..n], oem) + (if WeighedFor(cells[n], oem) then cells[n].weight.value else 0)
  }

  /** Reference definition: the number of weighed records of `oem`. */
  function WeighedCount(cells: seq<Record>, oem: string): (n: nat)
    ensures n <= |cells|
  {
    if cells == [] then 0
    else
      var n := |cells| - 1;
      WeighedCount(cells[..n], oem) + (if WeighedFor(cells[n], oem) then 1 else 0)
  }

  /** A manufacturer has weighed records exactly when one of its records has a weight. */
  lemma {:induction false} WeighedCountPositive(cells: seq<Record>, oem: string)
    ensures WeighedCount(cells, oem) > 0 <==> exists c :: c in cells && WeighedFor(c, oem)
  {
    if cells != [] {
      var n := |cells| - 1;
      WeighedCountPositive(cells[..n], oem);
      assert cells == cells[..n] + [cells[n]];
    }
  }

  /** The average lies within the range of the weights it averages: when every weight of `oem`
      is between `lo` and `hi`, the total is between `lo` and `hi` times the count. */
  lemma {:induction false} AverageBetween(cells: seq<Record>, oem: string, lo: nat, hi: nat)
    requires forall c :: c in cells && WeighedFor(c, oem) ==> lo <= c.weight.value <= hi
    ensures lo * WeighedCount(cells, oem) <= WeightSum(cells, oem) <= hi * WeighedCount(cells, oem)
  {
    if cells != [] {
      var n := |cells| - 1;
      assert forall c :: c in cells[..n] ==> c in cells;
      AverageBetween(cells[..n], oem, lo, hi);
      var count := WeighedCount(cells[..n], oem);
      if WeighedFor(cells[n], oem) {
        MulSucc(lo, count);
        MulSucc(hi, count);
      }
    }
  }

  /** `sums` and `counts` hold the totals and counts of `prefix`, keyed by the manufacturers
      that have a weighed record in it. */
  ghost predicate Tallied(prefix: seq<Record>, sums: map<string, nat>, counts: map<string, nat>) {
    (forall oem :: oem in sums <==> WeighedCount(prefix, oem) > 0) &&
    (forall oem :: oem in counts <==> oem in sums) &&
    (forall oem :: oem in sums ==> sums[oem] == WeightSum(prefix, oem)) &&
    (forall oem :: oem !in sums ==> WeightSum(prefix, oem) == 0) &&
    (forall oem :: oem in counts ==> counts[oem] == WeighedCount(prefix, oem))
  }

  /** One loop step of `calculateAverageWeightByOEM` keeps the tally. */
  lemma TallyStep(cells: seq<Record>, i: nat, sums: map<string, nat>, counts: map<string, nat>)
    requires i < |cells| && Tallied(cells[..i], sums, counts)
    ensures cells[i].weight.None? ==> Tallied(cells[..i + 1], sums, counts)
    ensures cells[i].weight.Some? ==>
      var oem := cells[i].oem;
      Tallied(cells[..i + 1],
        sums[oem := (if oem in sums then sums[oem] else 0) + cells[i].weight.value],
        counts[oem := (if oem in counts then counts[oem] else 0) + 1])
  {
    assert cells[..i + 1][..i] == cells[..i];
  }

  lemma MulSucc(a: nat, b: nat)
    ensures a * (b + 1) == a * b + a
  {
  }

  /** An average kept as the exact total and count it divides (the division is in floating point
      in the program). */
  datatype Mean = Mean(total: nat, count: nat)

  /** `calculateAverageWeightByOEM`: the sums and counts per manufacturer, then one average per
      key of the sums. */
  method CalculateAverageWeightByOem(cells: seq<Record>) returns (averages: map<string, Mean>)
    ensures forall oem :: oem in averages <==> WeighedCount(cells, oem) > 0
    ensures forall oem :: oem in averages ==>
      averages[oem] == Mean(WeightSum(cells, oem), WeighedCount(cells, oem))
  {
    var sums: map<string, nat> := map[];
    var counts: map<string, nat> := map[];
    for i := 0 to |cells|
      invariant Tallied(cells[..i], sums, counts)
    {
      TallyStep(cells, i, sums, counts);
      var oem := cells[i].oem;
      var weight := cells[i].weight;
      if weight.Some? {
        sums := sums[oem := (if oem in sums then sums[oem] else 0) + weight.value];
        counts := counts[oem := (if oem in counts then counts[oem] else 0) + 1];
      }
    }
    assert cells[..|cells|] == cells;
    averages := map oem | oem in sums :: Mean(sums[oem], counts[oem]);
  }
}
