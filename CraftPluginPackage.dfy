/**
 * The `CraftPluginPackage` record and its `jsonSerialize` mapping: ten
 * fields, written out under ten fixed keys, with `updated` rendered in the
 * `Y-m-d H:i:s` layout of PHP's `DateTime::format`.
 */
module CraftPluginPackage {
  import opened Wrappers
  import opened PhpStrings

  /**
   * One plugin of the listing. `description` and `testLibrary` may be null;
   * `updated` is the Unix timestamp of the latest version.
   */
  datatype Package = Package(
    name: string,
    description: Option<string>,
    handle: string,
    repository: string,
    testLibrary: Option<string>,
    version: string,
    downloads: int,
    dependents: int,
    favers: int,
    updated: int)

  /** The wall-clock fields a `DateTime` shows in its time zone. */
  datatype CivilTime = CivilTime(year: int, month: int, day: int, hour: int, minute: int, second: int)
  {
    predicate Valid()
    {
      1 <= month <= 12 && 1 <= day <= 31 && 0 <= hour < 24 && 0 <= minute < 60 && 0 <= second < 60
    }
  }

  /** What a `DateTime` can hold: every field in its range. */
  type DateTimeValue = c: CivilTime | c.Valid() witness CivilTime(1970, 1, 1, 0, 0, 0)

  function Zeros(n: nat): (s: string)
    ensures |s| == n && AllDigits(s)
  {
    if n == 0 then "" else "0" + Zeros(n - 1)
  }

  lemma {:induction false} ZerosIgnored(k: nat, s: string)
    requires AllDigits(s)
    ensures AllDigits(Zeros(k) + s)
    ensures DigitsValue(Zeros(k) + s) == DigitsValue(s)
  {
    if k > 0 {
      ZerosIgnored(k - 1, s);
      assert Zeros(k) + s == "0" + (Zeros(k - 1) + s);
      LeadingZeroIgnored(Zeros(k - 1) + s);
    } else {
      assert Zeros(k) + s == s;
    }
  }

  /** The digits of `n`, left-padded with zeros to at least `width` characters. */
  function PadDigits(n: nat, width: nat): (s: string)
    ensures AllDigits(s)
    ensures |s| == if |NatToString(n)| < width then width else |NatToString(n)|
    ensures DigitsValue(s) == n
  {
    var digits := NatToString(n);
    var k := if |digits| < width then width - |digits| else 0;
    ZerosIgnored(k, digits);
    NatToStringRoundTrip(n);
    Zeros(k) + digits
  }

  /** Format character `Y`: at least four digits, with a minus sign before years BCE. */
  function FormatYear(y: int): string
  {
    if y < 0 then "-" + PadDigits(-y, 4) else PadDigits(y, 4)
  }

  /** Two zero-padded digits, for the month, day, hour, minute and second. */
  function Two(n: nat): (s: string)
    requires n < 100
    ensures |s| == 2 && IsDigit(s[0]) && IsDigit(s[1])
  {
    [DigitChar(n / 10), DigitChar(n % 10)]
  }

  /** The value of two digit characters. */
  function PairValue(hi: char, lo: char): nat
    requires IsDigit(hi) && IsDigit(lo)
  {
    (hi as int - '0' as int) * 10 + (lo as int - '0' as int)
  }

  lemma TwoRoundTrip(n: nat)
    requires n < 100
    ensures PairValue(Two(n)[0], Two(n)[1]) == n
  {
  }

  /** The fixed-width `-m-d H:i:s` part of the layout. */
  function FormatClock(c: DateTimeValue): (t: string)
    ensures |t| == 15
  {
    var mo, d, h, mi, se := Two(c.month), Two(c.day), Two(c.hour), Two(c.minute), Two(c.second);
    ['-', mo[0], mo[1], '-', d[0], d[1], ' ', h[0], h[1], ':', mi[0], mi[1], ':', se[0], se[1]]
  }

  /** `DateTime::format('Y-m-d H:i:s')`. */
  function FormatDateTime(c: DateTimeValue): (t: string)
    ensures |t| >= 19
  {
    YearRoundTrip(c.year);
    ClockRoundTrip(c);
    var y, clock := FormatYear(c.year), FormatClock(c);
    assert (y + clock)[|y|..] == clock;
    y + clock
  }

  function ParseYear(y: string): Option<int>
  {
    if |y| > 0 && y[0] == '-' then
      if |y| >= 5 && AllDigits(y[1..]) then Some(-(DigitsValue(y[1..]) as int)) else None
    else if |y| >= 4 && AllDigits(y) then Some(DigitsValue(y))
    else None
  }

  /** Whether `t` has digits at `i` and `i + 1`. */
  predicate DigitsAt(t: string, i: nat)
  {
    i + 1 < |t| && IsDigit(t[i]) && IsDigit(t[i + 1])
  }

  /** Reads a `Y-m-d H:i:s` string back into its fields; None when it is not in that layout. */
  function ParseDateTime(s: string): Option<CivilTime>
  {
    if |s| < 19 then None
    else
      var year := ParseYear(s[..|s| - 15]);
      var t := s[|s| - 15..];
      if year.Some? && t[0] == '-' && t[3] == '-' && t[6] == ' ' && t[9] == ':' && t[12] == ':'
         && DigitsAt(t, 1) && DigitsAt(t, 4) && DigitsAt(t, 7) && DigitsAt(t, 10) && DigitsAt(t, 13)
      then Some(CivilTime(year.value, PairValue(t[1], t[2]), PairValue(t[4], t[5]), PairValue(t[7], t[8]),
                          PairValue(t[10], t[11]), PairValue(t[13], t[14])))
      else None
  }

  lemma YearRoundTrip(y: int)
    ensures |FormatYear(y)| >= 4
    ensures ParseYear(FormatYear(y)) == Some(y)
  {
    var s := FormatYear(y);
    if y < 0 {
      assert s[1..] == PadDigits(-y, 4);
    }
  }

  lemma ClockRoundTrip(c: DateTimeValue)
    ensures var t := FormatClock(c);
      && t[0] == '-' && t[3] == '-' && t[6] == ' ' && t[9] == ':' && t[12] == ':'
      && DigitsAt(t, 1) && DigitsAt(t, 4) && DigitsAt(t, 7) && DigitsAt(t, 10) && DigitsAt(t, 13)
      && PairValue(t[1], t[2]) == c.month && PairValue(t[4], t[5]) == c.day
      && PairValue(t[7], t[8]) == c.hour && PairValue(t[10], t[11]) == c.minute
      && PairValue(t[13], t[14]) == c.second
  {
    TwoRoundTrip(c.month);
    TwoRoundTrip(c.day);
    TwoRoundTrip(c.hour);
    TwoRoundTrip(c.minute);
    TwoRoundTrip(c.second);
  }

  /** Every formatted date reads back as the same fields: the layout loses nothing. */
  lemma DateTimeRoundTrip(c: DateTimeValue)
    ensures ParseDateTime(FormatDateTime(c)) == Some(c)
  {
    var y, t := FormatYear(c.year), FormatClock(c);
    YearRoundTrip(c.year);
    ClockRoundTrip(c);
    var s := FormatDateTime(c);
    assert s[..|s| - 15] == y;
    assert s[|s| - 15..] == t;
  }

  /** The values `json_encode` can produce for one field. */
  datatype JsonValue = JString(str: string) | JInt(num: int) | JNull

  /** The keys of `jsonSerialize`'s array, in order. */
  const JsonKeys: seq<string> :=
    ["name", "description", "handle", "repository", "testLibrary",
     "version", "downloads", "dependents", "favers", "updated"]

  function KeysOf(obj: seq<(string, JsonValue)>): seq<string>
  {
    seq(|obj|, i requires 0 <= i < |obj| => obj[i].0)
  }

  function NullableString(s: Option<string>): JsonValue
  {
    match s
    case None => JNull
    case Some(v) => JString(v)
  }

  /** The value `jsonSerialize` writes under `JsonKeys[i]`. */
  function FieldValue(p: Package, localTime: int -> DateTimeValue, i: nat): JsonValue
    requires i < |JsonKeys|
  {
    match i
    case 0 => JString(p.name)
    case 1 => NullableString(p.description)
    case 2 => JString(p.handle)
    case 3 => JString(p.repository)
    case 4 => NullableString(p.testLibrary)
    case 5 => JString(p.version)
    case 6 => JInt(p.downloads)
    case 7 => JInt(p.dependents)
    case 8 => JInt(p.favers)
    case _ => JString(FormatDateTime(localTime(p.updated)))
  }

  /**
   * `jsonSerialize`: the record as an ordered key/value array. `localTime` is
   * the time-zone conversion `DateTime` applies to the timestamp.
   */
  function JsonSerialize(p: Package, localTime: int -> DateTimeValue): (obj: seq<(string, JsonValue)>)
    ensures KeysOf(obj) == JsonKeys
  {
    seq(|JsonKeys|, i requires 0 <= i < |JsonKeys| => (JsonKeys[i], FieldValue(p, localTime, i)))
  }

  /** What a reader of the JSON output sees for one record. */
  datatype Row = Row(
    name: string,
    description: Option<string>,
    handle: string,
    repository: string,
    testLibrary: Option<string>,
    version: string,
    downloads: int,
    dependents: int,
    favers: int,
    updated: CivilTime)

  /** The record's fields, with `updated` shown as wall-clock time. */
  function RowOf(p: Package, localTime: int -> DateTimeValue): Row
  {
    Row(p.name, p.description, p.handle, p.repository, p.testLibrary,
        p.version, p.downloads, p.dependents, p.favers, localTime(p.updated))
  }

  function AsString(v: JsonValue): Option<string>
  {
    if v.JString? then Some(v.str) else None
  }

  function AsNullableString(v: JsonValue): Option<Option<string>>
  {
    match v
    case JString(s) => Some(Some(s))
    case JNull => Some(None)
    case JInt(_) => None
  }

  lemma NullableRoundTrip(s: Option<string>)
    ensures AsNullableString(NullableString(s)) == Some(s)
  {
  }

  function AsInt(v: JsonValue): Option<int>
  {
    if v.JInt? then Some(v.num) else None
  }

  /** Reads one serialised record back; None unless it has the ten keys, in order, with values of the right kinds. */
  function DecodeRow(obj: seq<(string, JsonValue)>): Option<Row>
  {
    if KeysOf(obj) != JsonKeys then None
    else
      var name := AsString(obj[0].1);
      var description := AsNullableString(obj[1].1);
      var handle := AsString(obj[2].1);
      var repository := AsString(obj[3].1);
      var testLibrary := AsNullableString(obj[4].1);
      var version := AsString(obj[5].1);
      var downloads := AsInt(obj[6].1);
      var dependents := AsInt(obj[7].1);
      var favers := AsInt(obj[8].1);
      var updated := if obj[9].1.JString? then ParseDateTime(obj[9].1.str) else None;
      if name.None? || description.None? || handle.None? || repository.None? || testLibrary.None?
         || version.None? || downloads.None? || dependents.None? || favers.None? || updated.None?
      then None
      else Some(Row(name.value, description.value, handle.value, repository.value, testLibrary.value,
                    version.value, downloads.value, dependents.value, favers.value, updated.value))
  }

  /** An object with the ten keys and values of the right kinds decodes to the row those values spell. */
  lemma DecodeFields(obj: seq<(string, JsonValue)>, r: Row)
    requires KeysOf(obj) == JsonKeys
    requires obj[0].1 == JString(r.name) && AsNullableString(obj[1].1) == Some(r.description)
    requires obj[2].1 == JString(r.handle) && obj[3].1 == JString(r.repository)
    requires AsNullableString(obj[4].1) == Some(r.testLibrary) && obj[5].1 == JString(r.version)
    requires obj[6].1 == JInt(r.downloads) && obj[7].1 == JInt(r.dependents) && obj[8].1 == JInt(r.favers)
    requires obj[9].1.JString? && ParseDateTime(obj[9].1.str) == Some(r.updated)
    ensures DecodeRow(obj) == Some(r)
  {
  }

  /**
   * Reading back what `jsonSerialize` wrote gives the record's nine plain
   * fields unchanged and the wall-clock time of `updated`.
   */
  lemma SerializeRoundTrip(p: Package, localTime: int -> DateTimeValue)
    ensures DecodeRow(JsonSerialize(p, localTime)) == Some(RowOf(p, localTime))
  {
    var obj := JsonSerialize(p, localTime);
    DateTimeRoundTrip(localTime(p.updated));
    NullableRoundTrip(p.description);
    NullableRoundTrip(p.testLibrary);
    DecodeFields(obj, RowOf(p, localTime));
  }
}
