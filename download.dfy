/**
  * The string helpers of the arXiv download: the id and version of an
  * abstract URL, the publication date of a Kaggle metadata record, its
  * author list, the arXiv categories of an API entry and the choice of the
  * LaTeX member of a one-file source archive.
  */
module Download {
  import opened PyStr
  import opened Authors
  import Scheme

  // ----------------------------------------------------------------------
  // _get_arxiv_id
  // ----------------------------------------------------------------------

  const AbsPrefix: string := "http://arxiv.org/abs/"

  /**
    * `_get_arxiv_id`: the version runs from the last `v`; the id is what
    * comes before it without the abstract prefix. Without any `v` the
    * version is `v1` and the slice `[:-1]` drops the last character.
    */
  function ArxivId(arxivAbsUrl: string): (string, string) {
    var versionIndex := RFind(arxivAbsUrl, "v");
    var paperVersion := if versionIndex != -1 then arxivAbsUrl[versionIndex..] else "v1";
    (Replace(Slice(arxivAbsUrl, 0, versionIndex), AbsPrefix, ""), paperVersion)
  }

  /** `RFind` of one character is its last position. */
  lemma RFindLast(s: string, c: char, p: nat)
    requires p < |s| && s[p] == c && forall j :: p < j < |s| ==> s[j] != c
    ensures RFind(s, [c]) == p
  {
    assert s[p..p + 1] == [c];
    assert OccursAt(s, [c], p);
    var r := RFind(s, [c]);
    forall j | p < j
      ensures !OccursAt(s, [c], j)
    {
      if j < |s| {
        assert s[j..j + 1] == [s[j]];
      }
    }
  }

  /** `http://arxiv.org/abs/<id>v<n>` gives `<id>` and `v<n>`. */
  lemma ArxivIdVersioned(id: string, n: string)
    requires 'v' !in n && !Contains(id, AbsPrefix)
    ensures ArxivId(AbsPrefix + id + "v" + n) == (id, "v" + n)
  {
    var url := AbsPrefix + id + "v" + n;
    var p := |AbsPrefix + id|;
    forall j | p < j < |url|
      ensures url[j] != 'v'
    {
      assert url[j] == n[j - p - 1];
    }
    assert url[p] == 'v';
    RFindLast(url, 'v', p);
    assert RFind(url, "v") == p;
    var head := AbsPrefix + id;
    assert Slice(url, 0, p) == url[0..p] == head;
    assert head[..|AbsPrefix|] == AbsPrefix;
    assert head[|AbsPrefix|..] == id;
    assert Replace(head, AbsPrefix, "") == "" + Replace(id, AbsPrefix, "");
    ReplaceAbsent(id, AbsPrefix, "");
    assert url[p..] == "v" + n;
    assert Replace(id, AbsPrefix, "") == id;
    assert Replace(Slice(url, 0, p), AbsPrefix, "") == id;
    assert ArxivId(url) == (Replace(Slice(url, 0, p), AbsPrefix, ""), url[p..]);
    assert ArxivId(url) == (id, "v" + n);
  }

  /**
    * An abstract URL without a version finds the `v` of `arxiv`: the id
    * becomes `http://arxi` and the version the rest of the URL.
    */
  lemma ArxivIdUnversioned(id: string)
    requires 'v' !in id
    ensures ArxivId(AbsPrefix + id) == ("http://arxi", "v.org/abs/" + id)
  {
    var url := AbsPrefix + id;
    forall j | 11 < j < |url|
      ensures url[j] != 'v'
    {
      if j >= |AbsPrefix| {
        assert url[j] == id[j - |AbsPrefix|];
      }
    }
    RFindLast(url, 'v', 11);
    assert url[..11] == "http://arxi";
    assert url[11..] == "v.org/abs/" + id;
  }

  /** A text without any `v` keeps the version `v1` and loses its last character. */
  lemma ArxivIdNoV(url: string)
    requires 'v' !in url
    ensures ArxivId(url) == (if url == [] then [] else url[..|url| - 1], "v1")
  {
    ContainsChar(url, 'v');
    var cut := Slice(url, 0, -1);
    forall i | 0 <= i <= |cut| - |AbsPrefix|
      ensures !OccursAt(cut, AbsPrefix, i)
    {
      assert cut[i..i + |AbsPrefix|][11] == cut[i + 11];
      assert cut[i + 11] in url;
    }
    ReplaceAbsent(cut, AbsPrefix, "");
  }

  // ----------------------------------------------------------------------
  // _replace_month_abbr
  // ----------------------------------------------------------------------

  const Months: map<string, string> := map[
    "Jan" := "01", "Feb" := "02", "Mar" := "03", "Apr" := "04", "May" := "05", "Jun" := "06",
    "Jul" := "07", "Aug" := "08", "Sep" := "09", "Oct" := "10", "Nov" := "11", "Dec" := "12"]

  /**
    * `_replace_month_abbr`: the second space-separated token becomes the
    * month number; `None` is the `IndexError` of a text with one token or
    * the `KeyError` of an unknown abbreviation.
    */
  function ReplaceMonthAbbr(dateStr: string): Option<string> {
    var parts := Split(dateStr, " ");
    if |parts| < 2 || parts[1] !in Months then None
    else Some(Join(parts[1 := Months[parts[1]]], " "))
  }

  /**
    * The result raises exactly without a known abbreviation as second token;
    * otherwise its tokens are those of the input with only the second one
    * replaced by its month number.
    */
  lemma ReplaceMonthAbbrTokens(dateStr: string)
    ensures var parts := Split(dateStr, " ");
      ReplaceMonthAbbr(dateStr).None? <==> |parts| < 2 || parts[1] !in Months
    ensures var parts := Split(dateStr, " ");
      ReplaceMonthAbbr(dateStr).Some? ==> Split(ReplaceMonthAbbr(dateStr).value, " ") == parts[1 := Months[parts[1]]]
  {
    var parts := Split(dateStr, " ");
    if |parts| >= 2 && parts[1] in Months {
      var v := Months[parts[1]];
      MonthUnspaced(parts[1]);
      SplitPiecesLackSep(dateStr, " ");
      TokenReplaced(parts, v);
    }
  }

  /** No month number holds a blank. */
  lemma MonthUnspaced(abbr: string)
    requires abbr in Months
    ensures ' ' !in Months[abbr]
  {
  }

  /** Replacing a token by one without blanks keeps the split of the joined text. */
  lemma TokenReplaced(parts: seq<string>, v: string)
    requires |parts| >= 2 && ' ' !in v
    requires forall p :: p in parts ==> !Contains(p, " ")
    ensures Split(Join(parts[1 := v], " "), " ") == parts[1 := v]
  {
    var np := parts[1 := v];
    forall k | 0 <= k < |np|
      ensures ' ' !in np[k]
    {
      if k != 1 {
        assert parts[k] in parts;
        ContainsChar(parts[k], ' ');
      }
    }
    SplitJoinChar(np, ' ');
  }

  // ----------------------------------------------------------------------
  // Dates: strptime("%d %m %Y %H:%M:%S %Z") and strftime("%Y-%m-%dT%H:%M:%SZ")
  // ----------------------------------------------------------------------

  datatype DateTime = DateTime(year: nat, month: nat, day: nat, hour: nat, minute: nat, second: nat)

  predicate LeapYear(year: nat) {
    year % 4 == 0 && (year % 100 != 0 || year % 400 == 0)
  }

  function DaysIn(month: nat, year: nat): nat {
    if month == 2 then (if LeapYear(year) then 29 else 28)
    else if month in {4, 6, 9, 11} then 30
    else 31
  }

  /** A date and time `datetime` accepts. */
  predicate ValidDateTime(dt: DateTime) {
    1 <= dt.year <= 9999 && 1 <= dt.month <= 12 && 1 <= dt.day <= DaysIn(dt.month, dt.year) &&
    dt.hour <= 23 && dt.minute <= 59 && dt.second <= 59
  }

  /** One or two digits of a value in `[lo, hi]`: what `%d`, `%m`, `%H`, `%M` and `%S` match. */
  predicate SmallNumber(t: string, lo: nat, hi: nat) {
    1 <= |t| <= 2 && IsDigits(t) && lo <= DigitsValue(t) <= hi
  }

  /** The day, month, year and zone tokens `strptime` accepts. */
  predicate DateTokens(day: string, month: string, year: string, zone: string) {
    SmallNumber(day, 1, 31) && SmallNumber(month, 1, 12) && |year| == 4 && IsDigits(year) &&
    Lower(zone) in {"utc", "gmt"}
  }

  /** The hour, minute and second tokens `strptime` accepts; `%S` allows up to 61. */
  predicate TimeTokens(hms: seq<string>) {
    |hms| == 3 && SmallNumber(hms[0], 0, 23) && SmallNumber(hms[1], 0, 59) && SmallNumber(hms[2], 0, 61)
  }

  /** The date of the five space-separated tokens, if they make one. */
  function ParseFields(ts: seq<string>): (r: Option<DateTime>)
    ensures r.Some? ==> ValidDateTime(r.value)
  {
    if |ts| != 5 then None
    else
      var hms := Split(ts[3], ":");
      if !(DateTokens(ts[0], ts[1], ts[2], ts[4]) && TimeTokens(hms)) then None
      else
        var dt := DateTime(DigitsValue(ts[2]), DigitsValue(ts[1]), DigitsValue(ts[0]),
                           DigitsValue(hms[0]), DigitsValue(hms[1]), DigitsValue(hms[2]));
        if ValidDateTime(dt) then Some(dt) else None
  }

  /**
    * `datetime.strptime(s, "%d %m %Y %H:%M:%S %Z")` on single-space
    * separated fields with the zone `UTC` or `GMT` in any case; `None` is
    * the `ValueError`.
    */
  function ParseDate(s: string): (r: Option<DateTime>)
    ensures r.Some? ==> ValidDateTime(r.value)
  {
    ParseFields(Split(s, " "))
  }

  /** The text `<h>:<m>:<sec>`. */
  function TimeText(h: string, m: string, sec: string): string {
    h + ":" + (m + ":" + sec)
  }

  /** The text `<day> <month> <year> <h>:<m>:<sec> <zone>`. */
  function DateText(day: string, month: string, year: string, h: string, m: string, sec: string, zone: string): string {
    day + " " + (month + " " + (year + " " + (TimeText(h, m, sec) + " " + zone)))
  }

  /** Splitting on a character that `a` lacks cuts `a` off first. */
  lemma SplitFirst(a: string, b: string, c: char)
    requires c !in a
    ensures Split(a + [c] + b, [c]) == [a] + Split(b, [c])
  {
    var s := a + [c] + b;
    assert s[|a|..|a| + 1] == [c];
    assert OccursAt(s, [c], |a|);
    forall k | 0 <= k < |a|
      ensures !OccursAt(s, [c], k)
    {
      assert s[k..k + 1] == [a[k]];
    }
    assert Find(s, [c]) == |a|;
    assert s[..|a|] == a && s[|a| + 1..] == b;
  }

  lemma SplitNone(a: string, c: char)
    requires c !in a
    ensures Split(a, [c]) == [a]
  {
    ContainsChar(a, c);
  }

  lemma DigitsLack(t: string, c: char)
    requires IsDigits(t) && !IsDigitChar(c)
    ensures c !in t
  {
  }

  /**
    * A date text of digit fields splits into its five tokens, the time into
    * its three: parsing it checks exactly the field ranges and the date.
    */
  lemma ParseDateText(day: string, month: string, year: string, h: string, m: string, sec: string, zone: string)
    requires IsDigits(day) && IsDigits(month) && IsDigits(year) && IsDigits(h) && IsDigits(m) && IsDigits(sec)
    requires ' ' !in zone
    ensures var dt := DateTime(DigitsValue(year), DigitsValue(month), DigitsValue(day), DigitsValue(h), DigitsValue(m), DigitsValue(sec));
      ParseDate(DateText(day, month, year, h, m, sec, zone)) ==
        if DateTokens(day, month, year, zone) && TimeTokens([h, m, sec]) && ValidDateTime(dt) then Some(dt) else None
  {
    TimeSplit(h, m, sec);
    DateSplit(day, month, year, TimeText(h, m, sec), zone);
  }

  /** A time of digit fields splits into them and holds no space. */
  lemma TimeSplit(h: string, m: string, sec: string)
    requires IsDigits(h) && IsDigits(m) && IsDigits(sec)
    ensures Split(TimeText(h, m, sec), ":") == [h, m, sec]
    ensures ' ' !in TimeText(h, m, sec)
  {
    DigitsLack(h, ':');
    DigitsLack(m, ':');
    DigitsLack(sec, ':');
    DigitsLack(h, ' ');
    DigitsLack(m, ' ');
    DigitsLack(sec, ' ');
    SplitNone(sec, ':');
    SplitFirst(m, sec, ':');
    SplitFirst(h, m + ":" + sec, ':');
  }

  /** Five space-free tokens joined by single spaces split back into them. */
  lemma DateSplit(day: string, month: string, year: string, time: string, zone: string)
    requires IsDigits(day) && IsDigits(month) && IsDigits(year) && ' ' !in time && ' ' !in zone
    ensures Split(day + " " + (month + " " + (year + " " + (time + " " + zone))), " ") == [day, month, year, time, zone]
  {
    DigitsLack(day, ' ');
    DigitsLack(month, ' ');
    DigitsLack(year, ' ');
    SplitNone(zone, ' ');
    SplitFirst(time, zone, ' ');
    SplitFirst(year, time + " " + zone, ' ');
    SplitFirst(month, year + " " + (time + " " + zone), ' ');
    SplitFirst(day, month + " " + (year + " " + (time + " " + zone)), ' ');
  }

  function DigitChar(d: nat): char
    requires d < 10
  {
    ('0' as int + d) as char
  }

  /** The decimal digits of `n`, without leading zeros. */
  function Decimal(n: nat): (r: string)
    ensures IsDigits(r) && DigitsValue(r) == n
    decreases n
  {
    if n < 10 then
      assert [DigitChar(n)][..0] == [];
      [DigitChar(n)]
    else
      var r := Decimal(n / 10) + [DigitChar(n % 10)];
      assert r[..|r| - 1] == Decimal(n / 10);
      r
  }

  /** Two digits, zero-padded, as `%m`, `%d`, `%H`, `%M` and `%S` print. */
  function Pad2(n: nat): (r: string)
    requires n < 100
    ensures |r| == 2 && IsDigits(r) && DigitsValue(r) == n
  {
    var r := [DigitChar(n / 10), DigitChar(n % 10)];
    assert r[..1] == Decimal(n / 10) by {
      assert Decimal(n / 10) == [DigitChar(n / 10)];
    }
    r
  }

  lemma DecimalFour(n: nat)
    requires 1000 <= n <= 9999
    ensures |Decimal(n)| == 4
  {
    assert Decimal(n) == Decimal(n / 10) + [DigitChar(n % 10)];
    assert Decimal(n / 10) == Decimal(n / 100) + [DigitChar(n / 10 % 10)];
    assert Decimal(n / 100) == Decimal(n / 1000) + [DigitChar(n / 100 % 10)];
  }

  /** `strftime("%Y-%m-%dT%H:%M:%SZ")`. */
  function FormatIso(dt: DateTime): string
    requires ValidDateTime(dt)
  {
    Decimal(dt.year) + "-" + Pad2(dt.month) + "-" + Pad2(dt.day) + "T" +
    Pad2(dt.hour) + ":" + Pad2(dt.minute) + ":" + Pad2(dt.second) + "Z"
  }

  /**
    * For a four-digit year the ISO text is twenty characters whose fields,
    * at fixed positions between fixed separators, read back as the year,
    * month, day, hour, minute and second.
    */
  lemma FormatIsoFields(dt: DateTime)
    requires ValidDateTime(dt) && dt.year >= 1000
    ensures var r := FormatIso(dt);
      |r| == 20 && r[4] == '-' && r[7] == '-' && r[10] == 'T' && r[13] == ':' && r[16] == ':' && r[19] == 'Z' &&
      IsDigits(r[0..4]) && DigitsValue(r[0..4]) == dt.year &&
      IsDigits(r[5..7]) && DigitsValue(r[5..7]) == dt.month &&
      IsDigits(r[8..10]) && DigitsValue(r[8..10]) == dt.day &&
      IsDigits(r[11..13]) && DigitsValue(r[11..13]) == dt.hour &&
      IsDigits(r[14..16]) && DigitsValue(r[14..16]) == dt.minute &&
      IsDigits(r[17..19]) && DigitsValue(r[17..19]) == dt.second
  {
    DecimalFour(dt.year);
    IsoShape(Decimal(dt.year), Pad2(dt.month), Pad2(dt.day), Pad2(dt.hour), Pad2(dt.minute), Pad2(dt.second));
  }

  /** Where the fields of an ISO text sit, for fields of width four and two. */
  lemma IsoShape(y: string, mo: string, d: string, h: string, mi: string, s: string)
    requires |y| == 4 && |mo| == 2 && |d| == 2 && |h| == 2 && |mi| == 2 && |s| == 2
    ensures var r := y + "-" + mo + "-" + d + "T" + h + ":" + mi + ":" + s + "Z";
      |r| == 20 && r[4] == '-' && r[7] == '-' && r[10] == 'T' && r[13] == ':' && r[16] == ':' && r[19] == 'Z' &&
      r[0..4] == y && r[5..7] == mo && r[8..10] == d && r[11..13] == h && r[14..16] == mi && r[17..19] == s
  {
    var date := y + "-" + mo + "-" + d;
    var time := h + ":" + mi + ":" + s;
    assert date[0..4] == y && date[5..7] == mo && date[8..10] == d;
    assert time[0..2] == h && time[3..5] == mi && time[6..8] == s;
    var r := date + "T" + time + "Z";
    assert y + "-" + mo + "-" + d + "T" + h + ":" + mi + ":" + s + "Z" == r;
    assert r[0..10] == date && r[11..19] == time;
  }

  /** The date as `_replace_month_abbr` leaves it: `%d %m %Y %H:%M:%S GMT`, zero-padded. */
  function RenderDate(dt: DateTime): string
    requires ValidDateTime(dt)
  {
    DateText(Pad2(dt.day), Pad2(dt.month), Decimal(dt.year), Pad2(dt.hour), Pad2(dt.minute), Pad2(dt.second), "GMT")
  }

  /** Parsing a rendered date with a four-digit year gives the date back. */
  lemma ParseRenderDate(dt: DateTime)
    requires ValidDateTime(dt) && dt.year >= 1000
    ensures ParseDate(RenderDate(dt)) == Some(dt)
  {
    DecimalFour(dt.year);
    assert Lower("GMT") == "gmt";
    ParseDateText(Pad2(dt.day), Pad2(dt.month), Decimal(dt.year), Pad2(dt.hour), Pad2(dt.minute), Pad2(dt.second), "GMT");
  }

  // ----------------------------------------------------------------------
  // _get_kaggle_version_data
  // ----------------------------------------------------------------------

  /** An entry of `versions`: its `version` and `created` fields. */
  datatype VersionEntry = VersionEntry(version: Option<string>, created: Option<string>)

  /**
    * The publication date of a `created` text such as
    * `Mon, 2 Apr 2007 19:18:42 GMT`: the weekday part is cut off, the month
    * replaced by its number, the rest parsed and printed in ISO form.
    */
  function PublishedOn(created: string): Option<string> {
    match ReplaceMonthAbbr(Slice(created, 5, |created|))
    case None => None
    case Some(publishedOn) =>
      match ParseDate(publishedOn)
      case None => None
      case Some(dt) => Some(FormatIso(dt))
  }

  /**
    * `_get_kaggle_version_data` on the `versions` and `update_date` fields:
    * the latest version and the first creation date in the arXiv format;
    * `None` is the error an empty list, an unknown month or a malformed
    * date raises.
    */
  function KaggleVersionData(versions: Option<seq<VersionEntry>>, updateDate: Option<string>): Option<(string, string)> {
    LatestVersionData(GetOr(versions, FallbackVersions(updateDate)))
  }

  /** The single version `v1` created on the update date, used when the metadata lists no versions. */
  function FallbackVersions(updateDate: Option<string>): seq<VersionEntry> {
    [VersionEntry(Some("v1"), Some(GetOr(updateDate, "")))]
  }

  /** The latest version of `paperVersions` and the publication date of its first one. */
  function LatestVersionData(paperVersions: seq<VersionEntry>): Option<(string, string)> {
    if paperVersions == [] then None
    else
      var paperVersion := GetOr(paperVersions[|paperVersions| - 1].version, "");
      var created := GetOr(paperVersions[0].created, "");
      match PublishedOn(created)
      case None => None
      case Some(published) => Some((paperVersion, published))
  }

  lemma MonthShape(mon: string)
    requires mon in Months
    ensures ' ' !in mon
  {
    assert mon in {"Jan", "Feb", "Mar", "Apr", "May", "Jun", "Jul", "Aug", "Sep", "Oct", "Nov", "Dec"};
  }

  /** Only the month token changes: the day before it and everything after it stay as they are. */
  lemma ReplaceInSecond(d: string, mon: string, rest: string)
    requires ' ' !in d && mon in Months
    ensures ReplaceMonthAbbr(d + " " + (mon + " " + rest)) == Some(d + " " + (Months[mon] + " " + rest))
  {
    var tail := Split(rest, " ");
    SecondToken(d, mon, rest);
    var replaced := Split(d + " " + (mon + " " + rest), " ")[1 := Months[mon]];
    assert replaced == [d] + ([Months[mon]] + tail);
    JoinAround(d, Months[mon], rest);
  }

  lemma SecondToken(d: string, mon: string, rest: string)
    requires ' ' !in d && mon in Months
    ensures Split(d + " " + (mon + " " + rest), " ") == [d] + ([mon] + Split(rest, " "))
  {
    MonthShape(mon);
    SplitFirst(mon, rest, ' ');
    SplitFirst(d, mon + " " + rest, ' ');
  }

  lemma JoinAround(d: string, m: string, rest: string)
    ensures Join([d] + ([m] + Split(rest, " ")), " ") == d + " " + (m + " " + rest)
  {
    var tail := Split(rest, " ");
    JoinSplit(rest, " ");
    JoinCons(m, tail, " ");
    JoinCons(d, [m] + tail, " ");
  }

  /**
    * A first version created at `<day>, <d> <Mon> <rest>` gives the latest
    * version and the date parsed from `<d> <number> <rest>`: the weekday
    * and its comma and space are dropped before the month is replaced.
    */
  lemma KaggleVersionDataOf(versions: seq<VersionEntry>, updateDate: Option<string>,
                            weekday: string, d: string, mon: string, rest: string)
    requires |weekday| == 3 && versions != [] && versions[0].created == Some(weekday + ", " + (d + " " + (mon + " " + rest)))
    requires ' ' !in d && mon in Months
    ensures var r := KaggleVersionData(Some(versions), updateDate);
      var dt := ParseDate(d + " " + (Months[mon] + " " + rest));
      (r.Some? <==> dt.Some?) &&
      (r.Some? ==> r.value == (GetOr(versions[|versions| - 1].version, ""), FormatIso(dt.value)))
  {
    var dt := ParseDate(d + " " + (Months[mon] + " " + rest));
    var created := GetOr(versions[0].created, "");
    assert created == weekday + ", " + (d + " " + (mon + " " + rest));
    PublishedOnOf(weekday, d, mon, rest);
    var p := PublishedOn(created);
    assert p.Some? <==> dt.Some?;
    KaggleVersionDataSome(versions, updateDate);
  }

  /** With a non-empty `versions` list, the latest version and the first creation date when that parses. */
  lemma KaggleVersionDataSome(versions: seq<VersionEntry>, updateDate: Option<string>)
    requires versions != []
    ensures var r := KaggleVersionData(Some(versions), updateDate);
      var p := PublishedOn(GetOr(versions[0].created, ""));
      (r.Some? <==> p.Some?) && (r.Some? ==> r.value == (GetOr(versions[|versions| - 1].version, ""), p.value))
  {
    assert GetOr(Some(versions), FallbackVersions(updateDate)) == versions;
  }

  lemma PublishedOnOf(weekday: string, d: string, mon: string, rest: string)
    requires |weekday| == 3 && ' ' !in d && mon in Months
    ensures var dt := ParseDate(d + " " + (Months[mon] + " " + rest));
      PublishedOn(weekday + ", " + (d + " " + (mon + " " + rest))) == if dt.Some? then Some(FormatIso(dt.value)) else None
  {
    var tail := d + " " + (mon + " " + rest);
    WeekdayCut(weekday, tail);
    ReplaceInSecond(d, mon, rest);
  }

  /** Cutting the first five characters drops a three-letter weekday with its comma and space. */
  lemma WeekdayCut(weekday: string, tail: string)
    requires |weekday| == 3
    ensures var created := weekday + ", " + tail; Slice(created, 5, |created|) == tail
  {
    var created := weekday + ", " + tail;
    assert created[5..] == tail;
  }

  /**
    * Without `versions` the creation date is the update date, which in the
    * dataset's `%Y-%m-%d` form holds no space: the default always raises.
    */
  lemma KaggleVersionDataDefault(updateDate: Option<string>)
    requires updateDate.Some? ==> ' ' !in updateDate.value
    ensures KaggleVersionData(None, updateDate).None?
  {
    var created := GetOr(updateDate, "");
    var cut := Slice(created, 5, |created|);
    assert forall k :: 0 <= k < |cut| ==> cut[k] in created;
    SplitNone(cut, ' ');
  }

  /** "Mon, 2 Apr 2007 19:18:42 GMT" is published on "2007-04-02T19:18:42Z". */
  lemma KaggleVersionExample(versions: seq<VersionEntry>)
    requires versions == [VersionEntry(Some("v1"), Some("Mon, 2 Apr 2007 19:18:42 GMT"))]
    ensures KaggleVersionData(Some(versions), None) == Some(("v1", "2007-04-02T19:18:42Z"))
  {
    CreatedExample();
    KaggleVersionDataOf(versions, None, "Mon", "2", "Apr", "2007 19:18:42 GMT");
    AprilExample();
    FormatExample();
  }

  lemma CreatedExample()
    ensures "Mon, 2 Apr 2007 19:18:42 GMT" == "Mon" + ", " + ("2" + " " + ("Apr" + " " + "2007 19:18:42 GMT"))
  {
  }

  lemma AprilExample()
    ensures ParseDate("2" + " " + (Months["Apr"] + " " + "2007 19:18:42 GMT")) == Some(DateTime(2007, 4, 2, 19, 18, 42))
  {
    assert Months["Apr"] == "04";
    ParseExample();
  }

  lemma ParseExample()
    ensures ParseDate("2" + " " + ("04" + " " + "2007 19:18:42 GMT")) == Some(DateTime(2007, 4, 2, 19, 18, 42))
  {
    assert "2" + " " + ("04" + " " + "2007 19:18:42 GMT") == DateText("2", "04", "2007", "19", "18", "42", "GMT");
    DigitExamples();
    assert Lower("GMT") == "gmt";
    ParseDateText("2", "04", "2007", "19", "18", "42", "GMT");
  }

  lemma DigitExamples()
    ensures IsDigits("2") && DigitsValue("2") == 2
    ensures IsDigits("04") && DigitsValue("04") == 4
    ensures IsDigits("2007") && DigitsValue("2007") == 2007
    ensures IsDigits("19") && DigitsValue("19") == 19
    ensures IsDigits("18") && DigitsValue("18") == 18
    ensures IsDigits("42") && DigitsValue("42") == 42
  {
    assert "2"[..0] == [] && "04"[..1] == "0" && "19"[..1] == "1" && "18"[..1] == "1" && "42"[..1] == "4";
    assert "2007"[..3] == "200" && "200"[..2] == "20" && "20"[..1] == "2";
  }

  lemma FormatExample()
    ensures FormatIso(DateTime(2007, 4, 2, 19, 18, 42)) == "2007-04-02T19:18:42Z"
  {
    YearExample();
    PadExamples();
  }

  lemma YearExample()
    ensures Decimal(2007) == "2007"
  {
    assert Decimal(2) == "2";
    assert Decimal(20) == "20";
    assert Decimal(200) == "200";
  }

  lemma PadExamples()
    ensures Pad2(4) == "04" && Pad2(2) == "02" && Pad2(19) == "19" && Pad2(18) == "18" && Pad2(42) == "42"
  {
  }

  // ----------------------------------------------------------------------
  // _get_kaggle_author_list
  // ----------------------------------------------------------------------

  /**
    * One entry of `authors_parsed`: keyname, given names and suffix, then
    * affiliations; `None` is the `IndexError` of an empty entry.
    */
  function KaggleAuthor(author: seq<string>): Option<Author> {
    if author == [] then None
    else
      var keyname := Strip(author[0]);
      var givenName := if |author| > 1 then Strip(author[1]) else "";
      var suffix := if |author| > 2 then Strip(author[2]) else "";
      Some(Author(Join([givenName, keyname, suffix], " "), if |author| > 3 then author[3..] else []))
  }

  /** `_get_kaggle_author_list` on the `authors_parsed` field. */
  function KaggleAuthors(authorList: Option<seq<seq<string>>>): Option<seq<Author>> {
    Scheme.Collect(KaggleAuthor, GetOr(authorList, []))
  }

  /** `_get_kaggle_author_list`. */
  method GetKaggleAuthorList(authorsParsed: Option<seq<seq<string>>>) returns (r: Option<seq<Author>>)
    ensures r == KaggleAuthors(authorsParsed)
  {
    var authorList := GetOr(authorsParsed, []);
    var authors := [];
    for i := 0 to |authorList|
      invariant Scheme.Collect(KaggleAuthor, authorList[..i]) == Some(authors)
    {
      Scheme.CollectStep(KaggleAuthor, authorList, i);
      var author := KaggleAuthorOf(authorList[i]);
      if author.None? {
        Scheme.CollectNone(KaggleAuthor, authorList);
        return None;
      }
      authors := authors + [author.value];
    }
    assert authorList[..|authorList|] == authorList;
    r := Some(authors);
  }

  /** The body of the loop of `_get_kaggle_author_list` for one entry. */
  method KaggleAuthorOf(author: seq<string>) returns (r: Option<Author>)
    ensures r == KaggleAuthor(author)
  {
    if |author| == 0 {
      return None;
    }
    var keyname := Strip(author[0]);
    var givenName := if |author| > 1 then Strip(author[1]) else "";
    var suffix := if |author| > 2 then Strip(author[2]) else "";
    var extra := if |author| > 3 then author[3..] else [];
    var affiliations := CopyAffiliations(extra);
    var name := Join([givenName, keyname, suffix], " ");
    r := Some(Author(name, affiliations));
  }

  /** The affiliations of an entry, appended one by one. */
  method CopyAffiliations(extra: seq<string>) returns (affiliations: seq<string>)
    ensures affiliations == extra
  {
    affiliations := [];
    for j := 0 to |extra|
      invariant affiliations == extra[..j]
    {
      affiliations := affiliations + [extra[j]];
    }
    assert extra[..|extra|] == extra;
  }

  /**
    * The list raises exactly when an entry is empty; otherwise author `k` is
    * named given names, keyname and suffix joined by single spaces, which
    * stay when a part is empty, and holds the entry's elements from index 3
    * on as affiliations.
    */
  lemma KaggleAuthorsOf(authorList: seq<seq<string>>)
    ensures KaggleAuthors(Some(authorList)).None? <==> exists k :: 0 <= k < |authorList| && authorList[k] == []
    ensures var r := KaggleAuthors(Some(authorList));
      r.Some? ==>
        |r.value| == |authorList| &&
        forall k :: 0 <= k < |authorList| ==>
          var a := authorList[k];
          r.value[k].name == (if |a| > 1 then Strip(a[1]) else "") + " " + Strip(a[0]) + " " + (if |a| > 2 then Strip(a[2]) else "") &&
          r.value[k].affiliations == (if |a| > 3 then a[3..] else [])
  {
    Scheme.CollectNone(KaggleAuthor, authorList);
    if KaggleAuthors(Some(authorList)).Some? {
      Scheme.CollectAt(KaggleAuthor, authorList);
      forall a, b, c: string
        ensures Join([a, b, c], " ") == a + " " + b + " " + c
      {
        JoinThree(a, b, c);
      }
    }
  }

  lemma JoinThree(a: string, b: string, c: string)
    ensures Join([a, b, c], " ") == a + " " + b + " " + c
  {
    JoinCons(a, [b, c], " ");
    JoinCons(b, [c], " ");
    assert [a] + [b, c] == [a, b, c];
    assert [b] + [c] == [b, c];
  }

  // ----------------------------------------------------------------------
  // _str_contains_digit_char and _get_categories
  // ----------------------------------------------------------------------

  predicate HasDigit(s: string) {
    exists i :: 0 <= i < |s| && IsDigitChar(s[i])
  }

  /** `_str_contains_digit_char`. */
  method StrContainsDigitChar(s: string) returns (r: bool)
    ensures r <==> HasDigit(s)
  {
    for i := 0 to |s|
      invariant forall k :: 0 <= k < i ==> !IsDigitChar(s[k])
    {
      if IsDigitChar(s[i]) {
        return true;
      }
    }
    return false;
  }

  /** An arXiv category: no `;`, exactly one `.` and no digit. */
  predicate ArxivCategory(c: string) {
    ';' !in c && Count(c, ".") == 1 && !HasDigit(c)
  }

  /**
    * `_get_categories` on the `term`s of the category tags and that of the
    * primary category tag, if any.
    */
  function Categories(categoryTerms: seq<string>, primaryCategory: Option<string>): seq<string> {
    if categoryTerms == [] then (if primaryCategory.Some? then [primaryCategory.value] else [])
    else Scheme.Filter(categoryTerms, ArxivCategory)
  }

  /** `_get_categories`. */
  method GetCategories(categoryTerms: seq<string>, primaryCategory: Option<string>) returns (categories: seq<string>)
    ensures categories == Categories(categoryTerms, primaryCategory)
  {
    if |categoryTerms| == 0 {
      if primaryCategory.Some? {
        return [primaryCategory.value];
      }
      return [];
    }
    categories := [];
    for i := 0 to |categoryTerms|
      invariant categories == Scheme.Filter(categoryTerms[..i], ArxivCategory)
    {
      Scheme.FilterStep(categoryTerms, ArxivCategory, i);
      var categoryContent := categoryTerms[i];
      if ';' in categoryContent {
        continue;
      }
      if Count(categoryContent, ".") != 1 {
        continue;
      }
      var hasDigit := StrContainsDigitChar(categoryContent);
      if hasDigit {
        continue;
      }
      categories := categories + [categoryContent];
    }
    assert categoryTerms[..|categoryTerms|] == categoryTerms;
  }

  /**
    * With category tags, exactly the arXiv-style terms are kept, in order
    * and at most as many as there are tags; without, only the primary
    * category is given.
    */
  lemma CategoriesKept(categoryTerms: seq<string>, primaryCategory: Option<string>, c: string)
    ensures categoryTerms != [] ==> |Categories(categoryTerms, primaryCategory)| <= |categoryTerms|
    ensures c in Categories(categoryTerms, primaryCategory) <==>
      if categoryTerms == [] then primaryCategory == Some(c) else c in categoryTerms && ArxivCategory(c)
  {
    Scheme.FilterIn(categoryTerms, ArxivCategory, c);
  }

  /** A text with one `.`, found at `i`, counts it once. */
  lemma CountOneDot(s: string, i: nat)
    requires i < |s| && s[i] == '.' && forall k :: 0 <= k < |s| && k != i ==> s[k] != '.'
    ensures Count(s, ".") == 1
  {
    CountSingle(s, i);
  }

  lemma {:induction false} CountSingle(s: string, i: nat)
    requires i < |s| && s[i] == '.' && forall k :: 0 <= k < |s| && k != i ==> s[k] != '.'
    ensures Count(s, ".") == 1
    decreases i
  {
    if i == 0 {
      assert s[..1] == ".";
      CountNone(s[1..]);
    } else {
      assert s[..1] == [s[0]];
      CountSingle(s[1..], i - 1);
    }
  }

  lemma {:induction false} CountNone(s: string)
    requires '.' !in s
    ensures Count(s, ".") == 0
    decreases |s|
  {
    if |s| >= 1 {
      assert s[..1] == [s[0]];
      CountNone(s[1..]);
    }
  }

  /** `cs.LG` is an arXiv category. */
  lemma CategoryExample()
    ensures ArxivCategory("cs.LG")
  {
    CountOneDot("cs.LG", 2);
  }

  /** An ACM class list, an MSC code and a bare archive name are not. */
  lemma NonCategoryExamples()
    ensures !ArxivCategory("I.2.6; I.5.1")
    ensures !ArxivCategory("68T05")
    ensures !ArxivCategory("math")
  {
    assert "I.2.6; I.5.1"[5] == ';';
    assert IsDigitChar("68T05"[0]);
    CountNone("math");
  }

  // ----------------------------------------------------------------------
  // _process_single_member
  // ----------------------------------------------------------------------

  /** `re.sub("[^0-9]", "", arxivId)`. */
  function DigitsOnly(arxivId: string): string {
    Scheme.Filter(arxivId, IsDigitChar)
  }

  /** A member holding only a PDF, HTML or PostScript rendering. */
  predicate RenderedOnly(name: string) {
    EndsWith(name, ".pdf") || EndsWith(name, ".html") || EndsWith(name, ".ps")
  }

  /**
    * `_process_single_member` for the one member of an archive: `renamed`
    * is whether the member, once extracted, could be renamed `main.tex`.
    */
  function ProcessSingleMember(tarMemberName: string, arxivId: string, renamed: bool): bool {
    if RenderedOnly(tarMemberName) then false
    else if tarMemberName != arxivId && tarMemberName != DigitsOnly(arxivId) then false
    else renamed
  }

  /**
    * A member is taken iff it is not a rendering, is named exactly the id or
    * its digits, and could be renamed; the digits of an id are exactly its
    * digit characters.
    */
  lemma ProcessSingleMemberAccepts(tarMemberName: string, arxivId: string, renamed: bool, c: char)
    ensures ProcessSingleMember(tarMemberName, arxivId, renamed) <==>
      !RenderedOnly(tarMemberName) && (tarMemberName == arxivId || tarMemberName == DigitsOnly(arxivId)) && renamed
    ensures c in DigitsOnly(arxivId) <==> c in arxivId && IsDigitChar(c)
  {
    Scheme.FilterIn(arxivId, IsDigitChar, c);
  }

  /** A text of digits never ends like a rendering. */
  lemma DigitsNotRendered(t: string)
    requires IsDigits(t)
    ensures !RenderedOnly(t)
  {
    DigitsNoDotSuffix(t, ".pdf");
    DigitsNoDotSuffix(t, ".html");
    DigitsNoDotSuffix(t, ".ps");
  }

  /** A text of digits does not end with a suffix that starts with a dot. */
  lemma DigitsNoDotSuffix(t: string, suffix: string)
    requires IsDigits(t) && suffix != [] && suffix[0] == '.'
    ensures !EndsWith(t, suffix)
  {
    if |suffix| <= |t| {
      assert t[|t| - |suffix|..][0] == t[|t| - |suffix|];
    }
  }

  /**
    * An old-style id `<archive>/<number>`, as `cs/9810022`, has the number
    * as its digits: the member named by the number alone is taken.
    */
  lemma OldStyleIdMember(archive: string, number: string, renamed: bool)
    requires forall k :: 0 <= k < |archive| ==> !IsDigitChar(archive[k])
    requires IsDigits(number)
    ensures DigitsOnly(archive + "/" + number) == number
    ensures ProcessSingleMember(number, archive + "/" + number, renamed) == renamed
  {
    var prefix := archive + "/";
    assert forall k :: 0 <= k < |prefix| ==> !IsDigitChar(prefix[k]);
    Scheme.FilterConcat(prefix, number, IsDigitChar);
    Scheme.FilterAllOrNone(prefix, IsDigitChar);
    Scheme.FilterAllOrNone(number, IsDigitChar);
    DigitsNotRendered(number);
  }
}
