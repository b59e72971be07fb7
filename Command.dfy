/**
 * `CraftPluginListCommand::execute`: validate the options, list the
 * `craft-plugin` package names, build one record per eligible package up to
 * the limit, sort the records and hand them to the chosen output.
 */
module Command {
  import opened Wrappers
  import opened PhpStrings
  import opened CraftPluginPackage
  import opened Options
  import opened Dataset
  import opened Sorting

  /** `Command::SUCCESS` and `Command::FAILURE`. */
  const SuccessCode := 0
  const FailureCode := 1

  /** Written when the listing or a package detail cannot be fetched. */
  const FetchErrorMessage := "Something went wrong"

  /** Where the sorted records go: a JSON file, or a table on the terminal. */
  datatype Destination = JsonFile(path: string) | Terminal

  /** What a run ends with: the error line it writes, or the records and their destination. */
  datatype RunOutcome = Failed(message: string) | Listed(packages: seq<Package>, destination: Destination)

  /** A truthy `--output` names the JSON file; anything else means the terminal table. */
  function DestinationOf(output: Option<string>): (d: Destination)
    ensures d.JsonFile? <==> Truthy(output)
    ensures d.JsonFile? ==> output == Some(d.path)
  {
    if Truthy(output) then JsonFile(output.value) else Terminal
  }

  /**
   * One run of the command. `listing` is the answer to the listing request
   * (`None` when it fails), `fetch` the answer to each detail request;
   * `requested` is the names whose details were requested, in order.
   */
  method Execute(raw: RawOptions, listing: Option<seq<string>>, fetch: string -> Fetch)
    returns (code: int, outcome: RunOutcome, requested: seq<string>)
    ensures code == (if outcome.Listed? then SuccessCode else FailureCode)
    ensures Validate(raw).Err? ==> outcome == Failed(Validate(raw).error) && requested == []
    ensures Validate(raw).Ok? && listing.None? ==> outcome == Failed(FetchErrorMessage) && requested == []
    ensures Validate(raw).Ok? && listing.Some? ==>
              var opts := Validate(raw).value;
              var run := Run(listing.value, fetch, opts.limit, []);
              && requested == listing.value[..run.requests]
              && (run.outcome.Aborted? ==> outcome == Failed(FetchErrorMessage))
              && (run.outcome.Built? ==>
                    && outcome.Listed?
                    && multiset(outcome.packages) == multiset(Take(Eligibles(listing.value, fetch), opts.limit))
                    && Ordered(outcome.packages, opts.orderBy, opts.order)
                    && outcome.destination == DestinationOf(opts.output))
  {
    requested := [];
    var validated := Validate(raw);
    if validated.Err? {
      return FailureCode, Failed(validated.error), requested;
    }
    var opts := validated.value;
    if listing.None? {
      return FailureCode, Failed(FetchErrorMessage), requested;
    }
    var built;
    built, requested := BuildPackages(listing.value, fetch, opts.limit);
    if built.Aborted? {
      return FailureCode, Failed(FetchErrorMessage), requested;
    }
    var ps := built.packages;
    var a := new Package[|ps|](k requires 0 <= k < |ps| => ps[k]);
    assert a[..] == ps;
    SortPackages(a, opts.orderBy, opts.order);
    code, outcome := SuccessCode, Listed(a[..], DestinationOf(opts.output));
  }
}
