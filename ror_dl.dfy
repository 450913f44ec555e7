/**
  * Turning the downloaded ROR dump into the minimised dataset the matcher
  * loads: each organisation keeps its id, its names of more than four
  * characters and its locations, behind a placeholder organisation that
  * nothing is meant to match.
  */
module RorDownload {
  import opened PyStr
  import opened RorData
  import Scheme

  // ----------------------------------------------------------------------
  // The records of the ROR dump (schema v2), keys that may be missing as
  // `Option`s
  // ----------------------------------------------------------------------

  /** An entry of `names`: its `value`. */
  datatype NameEntry = NameEntry(value: Option<string>)

  /** The `geonames_details` of a location: `name` and `country_name`. */
  datatype GeoDetails = GeoDetails(name: Option<string>, countryName: Option<string>)

  /** An entry of `locations`. */
  datatype LocationEntry = LocationEntry(geonamesDetails: Option<GeoDetails>)

  /** One organisation of the dump: its `id`, `names` and `locations`. */
  datatype RorRecord = RorRecord(id: string, names: Option<seq<NameEntry>>, locations: Option<seq<LocationEntry>>)

  // ----------------------------------------------------------------------
  // _get_org_names
  // ----------------------------------------------------------------------

  /** `name.get("value", "")`. */
  function NameValue(n: NameEntry): string { GetOr(n.value, "") }

  /** A name long enough to keep: acronyms and other short names are dropped. */
  predicate LongName(name: string) { |name| > 4 }

  /** `_get_org_names`: the name values longer than four characters, in order. */
  function OrgNames(org: RorRecord): seq<string> {
    Scheme.Filter(Scheme.Map(GetOr(org.names, []), NameValue), LongName)
  }

  /** `_get_org_names`. */
  method GetOrgNames(org: RorRecord) returns (names: seq<string>)
    ensures names == OrgNames(org)
  {
    var orgNames := GetOr(org.names, []);
    names := [];
    for i := 0 to |orgNames|
      invariant names == Scheme.Filter(Scheme.Map(orgNames[..i], NameValue), LongName)
    {
      Scheme.MapStep(orgNames, NameValue, i);
      Scheme.FilterAppend(Scheme.Map(orgNames[..i], NameValue), NameValue(orgNames[i]), LongName);
      var nameValue := NameValue(orgNames[i]);
      if |nameValue| > 4 {
        names := names + [nameValue];
      }
    }
    assert orgNames[..|orgNames|] == orgNames;
  }

  /**
    * A kept name is the value of some entry and has more than four
    * characters, and every such value is kept; with no `names` key there
    * are none.
    */
  lemma OrgNamesKept(org: RorRecord, name: string)
    ensures name in OrgNames(org) <==>
      org.names.Some? && |name| > 4 && exists k :: 0 <= k < |org.names.value| && NameValue(org.names.value[k]) == name
    ensures org.names.None? ==> OrgNames(org) == []
  {
    var entries := GetOr(org.names, []);
    var values := Scheme.Map(entries, NameValue);
    Scheme.FilterIn(values, LongName, name);
    Scheme.MapAt(entries, NameValue);
    if name in values {
      var k :| 0 <= k < |values| && values[k] == name;
    }
    if org.names.Some? && exists k :: 0 <= k < |entries| && NameValue(entries[k]) == name {
      var k :| 0 <= k < |entries| && NameValue(entries[k]) == name;
      assert values[k] == name;
    }
  }

  // ----------------------------------------------------------------------
  // _get_org_location
  // ----------------------------------------------------------------------

  /** One location: the geonames name and country, `""` where missing. */
  function LocationOf(entry: LocationEntry): ResearchLocation {
    var geo := GetOr(entry.geonamesDetails, GeoDetails(None, None));
    ResearchLocation(GetOr(geo.name, ""), GetOr(geo.countryName, ""))
  }

  /** `_get_org_location`. */
  function OrgLocations(org: RorRecord): seq<ResearchLocation> {
    Scheme.Map(GetOr(org.locations, []), LocationOf)
  }

  /** `_get_org_location`. */
  method GetOrgLocation(org: RorRecord) returns (locations: seq<ResearchLocation>)
    ensures locations == OrgLocations(org)
  {
    var orgLocations := GetOr(org.locations, []);
    locations := [];
    for i := 0 to |orgLocations|
      invariant locations == Scheme.Map(orgLocations[..i], LocationOf)
    {
      Scheme.MapStep(orgLocations, LocationOf, i);
      var geoDetails := GetOr(orgLocations[i].geonamesDetails, GeoDetails(None, None));
      var locationName := GetOr(geoDetails.name, "");
      var locationCountry := GetOr(geoDetails.countryName, "");
      locations := locations + [ResearchLocation(locationName, locationCountry)];
    }
    assert orgLocations[..|orgLocations|] == orgLocations;
  }

  /**
    * One location per entry, in order; a missing `geonames_details`, `name`
    * or `country_name` gives `""`.
    */
  lemma OrgLocationsEach(org: RorRecord)
    ensures var ls := OrgLocations(org);
      |ls| == |GetOr(org.locations, [])| &&
      forall k :: 0 <= k < |ls| ==>
        var geo := org.locations.value[k].geonamesDetails;
        (geo.None? ==> ls[k] == ResearchLocation("", "")) &&
        (geo.Some? ==> ls[k].locationName == (if geo.value.name.Some? then geo.value.name.value else "") &&
                       ls[k].countryName == (if geo.value.countryName.Some? then geo.value.countryName.value else ""))
  {
    Scheme.MapAt(GetOr(org.locations, []), LocationOf);
  }

  // ----------------------------------------------------------------------
  // _minimize_dataset and the dataset file name
  // ----------------------------------------------------------------------

  /** The placeholder first organisation: empty affiliations match it rather than a real one. */
  const Sentinel: ResearchOrganization :=
    ResearchOrganization("https://ror.org", ["Incredibly unlikely match for anything, not supposed to be a real match!"], [])

  /** The organisation a record becomes. */
  function OrgOf(record: RorRecord): ResearchOrganization {
    ResearchOrganization(record.id, OrgNames(record), OrgLocations(record))
  }

  /** `_minimize_dataset` on the records read from `datasetFile`. */
  method MinimizeDataset(datasetFile: string, dataset: seq<RorRecord>) returns (r: RorDataset)
    ensures r == RorDataset(datasetFile, [Sentinel] + Scheme.Map(dataset, OrgOf))
  {
    var researchOrganizations := [Sentinel];
    for i := 0 to |dataset|
      invariant researchOrganizations == [Sentinel] + Scheme.Map(dataset[..i], OrgOf)
    {
      Scheme.MapStep(dataset, OrgOf, i);
      var names := GetOrgNames(dataset[i]);
      var locations := GetOrgLocation(dataset[i]);
      researchOrganizations := researchOrganizations + [ResearchOrganization(dataset[i].id, names, locations)];
    }
    assert dataset[..|dataset|] == dataset;
    r := RorDataset(datasetFile, researchOrganizations);
  }

  /**
    * The placeholder comes first, with no locations and a name nothing
    * resembles; then one organisation per record, in order, with the
    * record's id.
    */
  lemma MinimizedLayout(datasetFile: string, dataset: seq<RorRecord>)
    ensures var data := [Sentinel] + Scheme.Map(dataset, OrgOf);
      |data| == |dataset| + 1 && data[0] == Sentinel && data[0].locations == [] && |data[0].names| == 1 &&
      GetRorId(data[0].rorId) == "ror.org" &&
      forall k :: 0 <= k < |dataset| ==> data[k + 1] == OrgOf(dataset[k]) && data[k + 1].rorId == dataset[k].id
  {
    SentinelShape();
    OrgsAfterSentinel(dataset);
  }

  lemma OrgsAfterSentinel(dataset: seq<RorRecord>)
    ensures var data := [Sentinel] + Scheme.Map(dataset, OrgOf);
      |data| == |dataset| + 1 && forall k :: 0 <= k < |dataset| ==> data[k + 1] == OrgOf(dataset[k])
  {
    var data := [Sentinel] + Scheme.Map(dataset, OrgOf);
    Scheme.MapAt(dataset, OrgOf);
    forall k | 0 <= k < |dataset|
      ensures data[k + 1] == OrgOf(dataset[k])
    {
      assert data[k + 1] == Scheme.Map(dataset, OrgOf)[k];
    }
  }

  lemma SentinelShape()
    ensures Sentinel.locations == [] && |Sentinel.names| == 1 && GetRorId(Sentinel.rorId) == "ror.org"
  {
    RorIdExampleSentinel();
  }

  /** `removesuffix`: `s` without `suffix` when it ends with it. */
  function RemoveSuffix(s: string, suffix: string): (r: string)
    ensures EndsWith(s, suffix) && suffix != [] ==> r + suffix == s
    ensures !EndsWith(s, suffix) || suffix == [] ==> r == s
  {
    if suffix != [] && EndsWith(s, suffix) then s[..|s| - |suffix|] else s
  }

  /** The name of the dataset file inside the release zip. */
  function DatasetFileName(zipFileName: string): string {
    RemoveSuffix(zipFileName, ".zip") + "_schema_v2.json"
  }

  /**
    * `<base>.zip` holds `<base>_schema_v2.json`; a name without the `.zip`
    * ending keeps it whole.
    */
  lemma DatasetFileNameOf(base: string, other: string)
    ensures DatasetFileName(base + ".zip") == base + "_schema_v2.json"
    ensures !EndsWith(other, ".zip") ==> DatasetFileName(other) == other + "_schema_v2.json"
  {
    var z := base + ".zip";
    assert z[|z| - 4..] == ".zip";
    assert z[..|z| - 4] == base;
  }
}
