/**
 * The four option checks at the head of `execute`: `limit`, `orderBy`,
 * `order` and `output`, run in that order, the first failure deciding the
 * message.
 */
module Options {
  import opened Wrappers
  import opened PhpStrings

  /** The option values as the console passes them on, defaults already filled in. */
  datatype RawOptions = RawOptions(limit: string, orderBy: string, order: string, output: Option<string>)

  /** `--limit 2 --orderBy downloads --order desc`, no `--output`. */
  const DefaultOptions := RawOptions("2", "downloads", "desc", None)

  /** The record fields a run can be sorted by. */
  datatype OrderField = Downloads | Favers | Dependents | TestLibrary | Updated

  datatype Direction = Asc | Desc

  const AllowedOrderBy: seq<string> := ["downloads", "favers", "dependents", "testLibrary", "updated"]

  function FieldName(f: OrderField): string
  {
    match f
    case Downloads => "downloads"
    case Favers => "favers"
    case Dependents => "dependents"
    case TestLibrary => "testLibrary"
    case Updated => "updated"
  }

  /** `in_array($orderBy, $allowedOrderBy)`, resolved to the field it names. */
  function ParseOrderBy(s: string): (r: Option<OrderField>)
    ensures r.Some? <==> s in AllowedOrderBy
    ensures r.Some? ==> FieldName(r.value) == s
  {
    if s == "downloads" then Some(Downloads)
    else if s == "favers" then Some(Favers)
    else if s == "dependents" then Some(Dependents)
    else if s == "testLibrary" then Some(TestLibrary)
    else if s == "updated" then Some(Updated)
    else None
  }

  /** `strtolower($order)` checked against `asc` and `desc`. */
  function ParseOrder(s: string): (r: Option<Direction>)
    ensures r == Some(Asc) <==> ToLower(s) == "asc"
    ensures r == Some(Desc) <==> ToLower(s) == "desc"
    ensures r.None? <==> ToLower(s) !in ["asc", "desc"]
  {
    var o := ToLower(s);
    if o == "asc" then Some(Asc) else if o == "desc" then Some(Desc) else None
  }

  /** The order check does not depend on letter case. */
  lemma ParseOrderIgnoresCase(s: string)
    ensures ParseOrder(ToUpper(s)) == ParseOrder(s)
    ensures ParseOrder(ToLower(s)) == ParseOrder(s)
  {
    ToLowerIgnoresCase(s);
  }

  /** `is_numeric($limit) && $limit >= 1`. */
  function LimitOk(s: string): (ok: bool)
    ensures ok ==> IsNumeric(s) && s[0] != '-'
    ensures IsNumeric(s) && IsDigit(s[0]) ==> (ok <==> exists i :: 0 <= i < |s| && s[i] != '0')
  {
    if IsNumeric(s) && IsDigit(s[0]) then
      DigitsValuePositive(s);
      NumericValue(s) >= 1
    else
      IsNumeric(s) && NumericValue(s) >= 1
  }

  /** A limit written as a decimal integer passes exactly when it is at least one. */
  lemma LimitOfInt(n: int)
    ensures LimitOk(IntToString(n)) <==> n >= 1
  {
    IntToStringRoundTrip(n);
  }

  predicate EndsWith(s: string, suffix: string)
  {
    |s| >= |suffix| && s[|s| - |suffix|..] == suffix
  }

  /**
   * `!($outputPath && substr($outputPath, -5) != '.json')`: a falsy path
   * (absent, empty or "0") is not checked at all.
   */
  function OutputOk(o: Option<string>): (ok: bool)
    ensures ok <==> !Truthy(o) || EndsWith(o.value, ".json")
  {
    !(Truthy(o) && SubstrTail(o.value, 5) != ".json")
  }

  /** The options once they have passed the checks. `output` is None for table output. */
  datatype ValidOptions = ValidOptions(limit: int, orderBy: OrderField, order: Direction, output: Option<string>)

  const InvalidLimitMessage := "Invalid limit option"
  const InvalidOrderByMessage := "Invalid orderBy option"
  const InvalidOrderMessage := "Invalid order option"
  const InvalidOutputMessage := "Invalid output option. Valid output ends with .json"

  /** The four checks, in the order `execute` runs them; the first that fails gives the message. */
  function Validate(raw: RawOptions): (r: Result<ValidOptions, string>)
    ensures r == Err(InvalidLimitMessage) <==> !LimitOk(raw.limit)
    ensures r == Err(InvalidOrderByMessage) <==>
      LimitOk(raw.limit) && raw.orderBy !in AllowedOrderBy
    ensures r == Err(InvalidOrderMessage) <==>
      LimitOk(raw.limit) && raw.orderBy in AllowedOrderBy
      && ToLower(raw.order) != "asc" && ToLower(raw.order) != "desc"
    ensures r == Err(InvalidOutputMessage) <==>
      LimitOk(raw.limit) && raw.orderBy in AllowedOrderBy
      && (ToLower(raw.order) == "asc" || ToLower(raw.order) == "desc")
      && Truthy(raw.output) && !EndsWith(raw.output.value, ".json")
    ensures r.Err? ==>
      r.error in [InvalidLimitMessage, InvalidOrderByMessage, InvalidOrderMessage, InvalidOutputMessage]
    ensures r.Ok? ==>
      && r.value.limit == NumericValue(raw.limit) >= 1
      && FieldName(r.value.orderBy) == raw.orderBy
      && (r.value.order == Asc <==> ToLower(raw.order) == "asc")
      && r.value.output == (if Truthy(raw.output) then raw.output else None)
  {
    if !LimitOk(raw.limit) then Err(InvalidLimitMessage)
    else
      var orderBy := ParseOrderBy(raw.orderBy);
      if orderBy.None? then Err(InvalidOrderByMessage)
      else
        var order := ParseOrder(raw.order);
        if order.None? then Err(InvalidOrderMessage)
        else if !OutputOk(raw.output) then Err(InvalidOutputMessage)
        else Ok(ValidOptions(NumericValue(raw.limit), orderBy.value, order.value,
                        if Truthy(raw.output) then raw.output else None))
  }

  /** The unit tests' limits `five` and `-5` are rejected with the limit message. */
  lemma RejectedLimitScenarios()
    ensures Validate(DefaultOptions.(limit := "five")) == Err(InvalidLimitMessage)
    ensures Validate(DefaultOptions.(limit := "-5")) == Err(InvalidLimitMessage)
  {
    assert !IsDigit('f');
  }

  /** The unit tests' `orderBy`, `order` and `output` values are rejected with their own messages. */
  lemma RejectedOptionScenarios()
    ensures Validate(DefaultOptions.(orderBy := "version")) == Err(InvalidOrderByMessage)
    ensures Validate(DefaultOptions.(order := "dasc")) == Err(InvalidOrderMessage)
    ensures Validate(DefaultOptions.(output := Some("output_file.txt"))) == Err(InvalidOutputMessage)
  {
    assert DigitsValue("2") == 2;
    assert ToLower("desc") == "desc";
    assert ToLower("dasc") == "dasc";
  }

  /** The unit tests' all-valid options, with `order` in capitals, and the defaults pass. */
  lemma AcceptedScenarios()
    ensures Validate(RawOptions("1", "dependents", "ASC", Some("tests/output_file.json")))
      == Ok(ValidOptions(1, Dependents, Asc, Some("tests/output_file.json")))
    ensures Validate(DefaultOptions) == Ok(ValidOptions(2, Downloads, Desc, None))
  {
    assert DigitsValue("1") == 1;
    assert DigitsValue("2") == 2;
    assert ToLower("ASC") == "asc";
    assert ToLower("desc") == "desc";
  }
}
