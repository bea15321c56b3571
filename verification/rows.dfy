/** Building a `Cell` from the twelve fields of a CSV row (`createCellFromCsvRow` and the `Cell`
    constructor). */
module Rows {
  import opened Optional
  import opened Text
  import opened Regex
  import opened Cell
  import opened CellLaws

  /** Every normalized field of `c` is in the form its normalizer produces. */
  predicate Normalized(c: Record) {
    (c.announced.Some? ==> c.announced.value <= 9999) &&
    (c.status.Released? ==> c.status.year <= 9999) &&
    (c.dimensions.Some? ==> ParseBodyDimensions(c.dimensions.value) == c.dimensions) &&
    (c.sim.Some? ==> IsStripped(c.sim.value) && !IsYesNo(c.sim.value)) &&
    IsStripped(c.displayType) &&
    (c.displaySize.Some? ==> WellFormedDecimal(c.displaySize.value)) &&
    IsStripped(c.resolution) &&
    (c.sensors.Some? ==> IsStripped(c.sensors.value) && MatchesAlnumLine(c.sensors.value)) &&
    (c.platform.Some? ==> |c.platform.value| > 0 && !IsBlank(c.platform.value[0]) && ',' !in c.platform.value)
  }

  /** The `Cell` constructor: the manufacturer and model are stored as given, every other field
      goes through its normalizer. `parseDisplayType` and `parseDisplayResolution` are both
      `trim`. */
  function NewCell(oem: string, model: string, launchAnnounced: string, launchStatus: string,
                   bodyDimensions: string, bodyWeight: string, bodySim: string, displayType: string,
                   displaySize: string, displayResolution: string, featuresSensors: string,
                   platformOs: string): (c: Record)
    ensures c.oem == oem && c.model == model
    ensures c.announced == ParseYear(launchAnnounced) && c.status == ParseLaunchStatus(launchStatus)
    ensures c.dimensions == ParseBodyDimensions(bodyDimensions) && c.weight == ParseBodyWeight(bodyWeight)
    ensures c.sim == ParseBodySim(bodySim) && c.displayType == Trim(displayType)
    ensures c.displaySize == ParseDisplaySize(displaySize) && c.resolution == Trim(displayResolution)
    ensures c.sensors == ParseFeaturesSensors(featuresSensors) && c.platform == ParsePlatformOs(platformOs)
    ensures Normalized(c)
  {
    var c := Record(oem, model, ParseYear(launchAnnounced), ParseLaunchStatus(launchStatus),
      ParseBodyDimensions(bodyDimensions), ParseBodyWeight(bodyWeight), ParseBodySim(bodySim),
      Trim(displayType), ParseDisplaySize(displaySize),
      Trim(displayResolution), ParseFeaturesSensors(featuresSensors),
      ParsePlatformOs(platformOs));
    CellFieldsNormalized(c, bodyDimensions, bodySim, featuresSensors, platformOs);
    c
  }

  /** The dimensions, SIM, sensors and platform of a freshly built record are in normal form. */
  lemma CellFieldsNormalized(c: Record, bodyDimensions: string, bodySim: string,
                             featuresSensors: string, platformOs: string)
    requires c.dimensions == ParseBodyDimensions(bodyDimensions)
    requires c.sim == ParseBodySim(bodySim)
    requires c.sensors == ParseFeaturesSensors(featuresSensors)
    requires c.platform == ParsePlatformOs(platformOs)
    ensures c.dimensions.Some? ==> ParseBodyDimensions(c.dimensions.value) == c.dimensions
    ensures c.sim.Some? ==> IsStripped(c.sim.value) && !IsYesNo(c.sim.value)
    ensures c.sensors.Some? ==> IsStripped(c.sensors.value) && MatchesAlnumLine(c.sensors.value)
    ensures c.platform.Some? ==> |c.platform.value| > 0 && !IsBlank(c.platform.value[0]) && ',' !in c.platform.value
  {
    if c.dimensions.Some? {
      DimensionsIdempotent(bodyDimensions);
    }
    YesNoTrimmed(bodySim);
    if c.platform.Some? {
      assert c.platform.value[0] == Trim(platformOs)[0];
    }
  }

  /** The number of fields a row must have. */
  const FieldCount: nat := 12

  /** `createCellFromCsvRow`: a row with fewer than twelve fields is rejected; otherwise every
      field is trimmed and the first twelve, in column order, build a record (later fields are
      ignored). */
  function RecordOfRow(row: seq<string>): (r: Option<Record>)
    ensures r.None? <==> |row| < FieldCount
    ensures r.Some? ==> r.value.oem == Trim(row[0]) && r.value.model == Trim(row[1])
    ensures r.Some? ==> IsStripped(r.value.oem) && IsStripped(r.value.model) && Normalized(r.value)
    ensures r.Some? ==>
      r.value.announced == ParseYear(Trim(row[2])) && r.value.status == ParseLaunchStatus(Trim(row[3])) &&
      r.value.dimensions == ParseBodyDimensions(Trim(row[4])) && r.value.weight == ParseBodyWeight(Trim(row[5])) &&
      r.value.sim == ParseBodySim(Trim(row[6])) && r.value.displayType == Trim(row[7]) &&
      r.value.displaySize == ParseDisplaySize(Trim(row[8])) && r.value.resolution == Trim(row[9]) &&
      r.value.sensors == ParseFeaturesSensors(Trim(row[10])) && r.value.platform == ParsePlatformOs(Trim(row[11]))
  {
    if |row| < FieldCount then None
    else
      TrimIdempotent(row[7]);
      TrimIdempotent(row[9]);
      Some(NewCell(Trim(row[0]), Trim(row[1]), Trim(row[2]), Trim(row[3]), Trim(row[4]),
        Trim(row[5]), Trim(row[6]), Trim(row[7]), Trim(row[8]), Trim(row[9]), Trim(row[10]),
        Trim(row[11])))
  }

  /** Every field of `row`, trimmed. */
  function TrimAll(row: seq<string>): (t: seq<string>)
    ensures |t| == |row|
    ensures forall k :: 0 <= k < |row| ==> t[k] == Trim(row[k])
  {
    seq(|row|, k requires 0 <= k < |row| => Trim(row[k]))
  }

  /** Padding around the fields does not matter: a row and its trimmed copy build the same record. */
  lemma RecordOfTrimmedRow(row: seq<string>)
    ensures RecordOfRow(TrimAll(row)) == RecordOfRow(row)
  {
    if |row| >= FieldCount {
      forall k | 0 <= k < FieldCount
        ensures Trim(TrimAll(row)[k]) == Trim(row[k])
      {
        TrimIdempotent(row[k]);
      }
    }
  }

  /** Fields after the twelfth are ignored. */
  lemma RecordIgnoresExtraFields(row: seq<string>, extra: seq<string>)
    requires |row| >= FieldCount
    ensures RecordOfRow(row + extra) == RecordOfRow(row)
  {
    assert forall k :: 0 <= k < FieldCount ==> (row + extra)[k] == row[k];
  }
}
