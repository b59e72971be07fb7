/**
 * The loop of `execute` that walks the listed package names in order,
 * fetches each detail, and pushes a record for every eligible package until
 * `limit` records have been pushed. A failed request aborts the whole run.
 */
module Dataset {
  import opened Wrappers
  import opened CraftPluginPackage
  import opened Records

  /** What the detail request for one name yields: the decoded detail, or an exception thrown by the request (a connection error or an HTTP error status). */
  datatype Fetch = Fetched(detail: PackageDetail) | FetchFailed

  /** The loop's result: the records pushed, or an abort on a failed request. */
  datatype BuildOutcome = Built(packages: seq<Package>) | Aborted

  /** The outcome of the loop and how many detail requests it issued. */
  datatype BuildRun = BuildRun(outcome: BuildOutcome, requests: nat)

  /** The record one name contributes when its request succeeds: one record if eligible, none otherwise. */
  function AcceptedAt(name: string, fetch: string -> Fetch): (r: seq<Package>)
    ensures |r| <= 1
  {
    match fetch(name)
    case FetchFailed => []
    case Fetched(d) => if Accept(d).Some? then [Accept(d).value] else []
  }

  /** The records of every eligible package in the listing, in listing order, ignoring the limit. */
  function Eligibles(names: seq<string>, fetch: string -> Fetch): seq<Package>
  {
    if |names| == 0 then [] else AcceptedAt(names[0], fetch) + Eligibles(names[1..], fetch)
  }

  /** The first `n` elements of `s`, or all of them when there are fewer; none when `n` is not positive. */
  function Take(s: seq<Package>, n: int): (r: seq<Package>)
    ensures |r| == if n <= 0 then 0 else if n < |s| then n else |s|
    ensures r == s[..|r|]
  {
    s[..if n <= 0 then 0 else if n < |s| then n else |s|]
  }

  lemma TakeConcat(a: seq<Package>, b: seq<Package>, n: int)
    requires |a| <= n
    ensures Take(a + b, n) == a + Take(b, n - |a|)
  {
    var r := Take(a + b, n);
    assert r == a + Take(b, n - |a|);
  }

  /**
   * The loop from the point where `names` is what is left of the listing and
   * `acc` holds the records pushed so far.
   */
  function Run(names: seq<string>, fetch: string -> Fetch, limit: int, acc: seq<Package>): (r: BuildRun)
    ensures r.requests <= |names|
  {
    if |names| == 0 || |acc| >= limit then BuildRun(Built(acc), 0)
    else
      match fetch(names[0])
      case FetchFailed => BuildRun(Aborted, 1)
      case Fetched(_) =>
        var rest := Run(names[1..], fetch, limit, acc + AcceptedAt(names[0], fetch));
        BuildRun(rest.outcome, rest.requests + 1)
  }

  /** One round of the loop on a successful request: `after` is `acc` with the round's record, if any, pushed. */
  lemma RunStep(names: seq<string>, i: nat, fetch: string -> Fetch, limit: int, acc: seq<Package>, after: seq<Package>)
    requires i < |names| && |acc| < limit && fetch(names[i]).Fetched?
    requires after == acc + AcceptedAt(names[i], fetch)
    ensures Run(names[i..], fetch, limit, acc).outcome == Run(names[i + 1..], fetch, limit, after).outcome
    ensures Run(names[i..], fetch, limit, acc).requests == Run(names[i + 1..], fetch, limit, after).requests + 1
  {
    var rest := names[i..];
    assert rest[0] == names[i] && rest[1..] == names[i + 1..];
  }

  /** The loop stops, keeping what it has pushed, at the end of the listing or once the limit is reached. */
  lemma RunStops(names: seq<string>, i: nat, fetch: string -> Fetch, limit: int, acc: seq<Package>)
    requires i <= |names| && (i == |names| || |acc| >= limit)
    ensures Run(names[i..], fetch, limit, acc) == BuildRun(Built(acc), 0)
  {
  }

  /** The round whose request fails aborts the loop. */
  lemma RunStepFails(names: seq<string>, i: nat, fetch: string -> Fetch, limit: int, acc: seq<Package>)
    requires i < |names| && |acc| < limit && fetch(names[i]).FetchFailed?
    ensures Run(names[i..], fetch, limit, acc) == BuildRun(Aborted, 1)
  {
    assert names[i..][0] == names[i];
  }

  /**
   * When the loop finishes, it has pushed the first `limit - |acc|` eligible
   * records of the remaining names, in listing order.
   */
  lemma {:induction false} RunTakesEligibles(names: seq<string>, fetch: string -> Fetch, limit: int, acc: seq<Package>)
    requires Run(names, fetch, limit, acc).outcome.Built?
    ensures Run(names, fetch, limit, acc).outcome.packages == acc + Take(Eligibles(names, fetch), limit - |acc|)
  {
    if |names| == 0 || |acc| >= limit {
      assert Take(Eligibles(names, fetch), limit - |acc|) == [];
    } else {
      var a := AcceptedAt(names[0], fetch);
      RunTakesEligibles(names[1..], fetch, limit, acc + a);
      TakeConcat(a, Eligibles(names[1..], fetch), limit - |acc|);
    }
  }

  /** From the start of the listing: the records pushed are the first `limit` eligible ones. */
  lemma RunFromStartTakesEligibles(names: seq<string>, fetch: string -> Fetch, limit: int)
    requires Run(names, fetch, limit, []).outcome.Built?
    ensures Run(names, fetch, limit, []).outcome.packages == Take(Eligibles(names, fetch), limit)
  {
    RunTakesEligibles(names, fetch, limit, []);
    assert [] + Take(Eligibles(names, fetch), limit - 0) == Take(Eligibles(names, fetch), limit);
  }

  /** A run that does not abort keeps min(limit, number of eligible names) records. */
  lemma BuiltCount(names: seq<string>, fetch: string -> Fetch, limit: int)
    requires limit >= 1 && Run(names, fetch, limit, []).outcome.Built?
    ensures var n := |Eligibles(names, fetch)|;
      |Run(names, fetch, limit, []).outcome.packages| == if limit < n then limit else n
  {
    RunFromStartTakesEligibles(names, fetch, limit);
  }

  lemma EligiblesPrefix(names: seq<string>, fetch: string -> Fetch, j: nat)
    requires 0 < j <= |names|
    ensures Eligibles(names[..j], fetch) == AcceptedAt(names[0], fetch) + Eligibles(names[1..][..j - 1], fetch)
  {
    assert names[..j][1..] == names[1..][..j - 1];
  }

  /**
   * The loop aborts exactly when some listed name's request fails while
   * fewer than `limit` records have been pushed before it.
   */
  lemma {:induction false} RunAbortsIff(names: seq<string>, fetch: string -> Fetch, limit: int, acc: seq<Package>)
    ensures Run(names, fetch, limit, acc).outcome.Aborted? <==>
      exists j :: 0 <= j < |names| && fetch(names[j]).FetchFailed? &&
        |acc| + |Eligibles(names[..j], fetch)| < limit
  {
    if |names| == 0 || |acc| >= limit {
    } else if fetch(names[0]).FetchFailed? {
      assert names[..0] == [];
      assert fetch(names[0]).FetchFailed? && |acc| + |Eligibles(names[..0], fetch)| < limit;
    } else {
      var a := AcceptedAt(names[0], fetch);
      var rest := names[1..];
      RunAbortsIff(rest, fetch, limit, acc + a);
      if Run(names, fetch, limit, acc).outcome.Aborted? {
        var k :| 0 <= k < |rest| && fetch(rest[k]).FetchFailed? && |acc + a| + |Eligibles(rest[..k], fetch)| < limit;
        EligiblesPrefix(names, fetch, k + 1);
        assert fetch(names[k + 1]).FetchFailed? && |acc| + |Eligibles(names[..k + 1], fetch)| < limit;
      }
      if exists j :: 0 <= j < |names| && fetch(names[j]).FetchFailed? && |acc| + |Eligibles(names[..j], fetch)| < limit {
        var j :| 0 <= j < |names| && fetch(names[j]).FetchFailed? && |acc| + |Eligibles(names[..j], fetch)| < limit;
        assert j > 0;
        EligiblesPrefix(names, fetch, j);
        assert fetch(rest[j - 1]).FetchFailed? && |acc + a| + |Eligibles(rest[..j - 1], fetch)| < limit;
      }
    }
  }

  /**
   * Requests are issued only while fewer than `limit` records have been
   * pushed; every request but an aborting last one succeeded; and a loop
   * that stops before the end of the listing stops because the limit was
   * reached.
   */
  lemma {:induction false} RunRequests(names: seq<string>, fetch: string -> Fetch, limit: int, acc: seq<Package>)
    ensures var r := Run(names, fetch, limit, acc);
      forall j :: 0 <= j < r.requests ==> |acc| + |Eligibles(names[..j], fetch)| < limit
    ensures var r := Run(names, fetch, limit, acc);
      forall j :: 0 <= j < r.requests ==> (fetch(names[j]).FetchFailed? <==> r.outcome.Aborted? && j == r.requests - 1)
    ensures var r := Run(names, fetch, limit, acc);
      r.outcome.Built? && r.requests < |names| ==> |acc| + |Eligibles(names[..r.requests], fetch)| >= limit
  {
    var r := Run(names, fetch, limit, acc);
    if |names| == 0 || |acc| >= limit {
      assert names[..0] == [];
    } else if fetch(names[0]).FetchFailed? {
      assert names[..0] == [];
    } else {
      var a := AcceptedAt(names[0], fetch);
      var rest := names[1..];
      RunRequests(rest, fetch, limit, acc + a);
      assert names[..0] == [];
      forall j | 1 <= j <= r.requests
        ensures Eligibles(names[..j], fetch) == a + Eligibles(rest[..j - 1], fetch)
      {
        EligiblesPrefix(names, fetch, j);
      }
      assert forall j :: 1 <= j < |names| ==> names[j] == rest[j - 1];
    }
  }

  /**
   * Every record the loop can push comes from a listed name whose detail was
   * fetched and accepted.
   */
  lemma {:induction false} EligiblesComeFromAccepted(names: seq<string>, fetch: string -> Fetch, p: Package)
    requires p in Eligibles(names, fetch)
    ensures exists j :: 0 <= j < |names| && fetch(names[j]).Fetched? && Accept(fetch(names[j]).detail) == Some(p)
  {
    if p in AcceptedAt(names[0], fetch) {
      assert fetch(names[0]).Fetched? && Accept(fetch(names[0]).detail) == Some(p);
    } else {
      EligiblesComeFromAccepted(names[1..], fetch, p);
      var j :| 0 <= j < |names[1..]| && fetch(names[1..][j]).Fetched? && Accept(fetch(names[1..][j]).detail) == Some(p);
      assert names[1..][j] == names[j + 1];
    }
  }

  /**
   * The body of the loop for one fetched detail: the latest version, the two
   * skip checks, the test library, and the record; None when skipped.
   */
  method MakeRecord(detail: PackageDetail) returns (record: Option<Package>)
    ensures record == Accept(detail)
  {
    var latest := SelectLatestVersion(detail.versions);
    if IsAbandoned(detail.abandoned) {
      return None;
    }
    if latest.None? || HandleOf(detail.versions[latest.value]).None? {
      return None;
    }
    var v := detail.versions[latest.value];
    var testLibrary := FindTestLibrary(v.requireDev);
    record := Some(Package(detail.name, detail.description, HandleOf(v).value, detail.repository,
                           testLibrary, v.version, detail.monthlyDownloads, detail.dependents,
                           detail.favers, v.time));
  }

  /** One round of the loop: request the detail of `name` and push its record if the package is kept. */
  method Visit(name: string, fetch: string -> Fetch, packages: seq<Package>)
    returns (fetched: bool, after: seq<Package>)
    ensures fetched <==> fetch(name).Fetched?
    ensures after == packages + AcceptedAt(name, fetch)
  {
    after := packages;
    var response := fetch(name);
    if response.FetchFailed? {
      return false, after;
    }
    var record := MakeRecord(response.detail);
    if record.Some? {
      after := after + [record.value];
    }
    return true, after;
  }

  /**
   * The loop as `execute` runs it: `requested` lists the names whose detail
   * was requested, in order.
   */
  method BuildPackages(names: seq<string>, fetch: string -> Fetch, limit: int)
    returns (outcome: BuildOutcome, requested: seq<string>)
    ensures outcome == Run(names, fetch, limit, []).outcome
    ensures requested == names[..Run(names, fetch, limit, []).requests]
    ensures outcome.Built? ==> outcome.packages == Take(Eligibles(names, fetch), limit)
  {
    var packages: seq<Package> := [];
    requested := [];
    var i := 0;
    ghost var whole := Run(names, fetch, limit, []);
    ghost var eligible := Take(Eligibles(names, fetch), limit);
    if whole.outcome.Built? {
      RunFromStartTakesEligibles(names, fetch, limit);
    }
    assert whole.outcome.Built? ==> whole.outcome.packages == eligible;
    assert names[..] == names;
    while i < |names|
      invariant 0 <= i <= |names|
      invariant requested == names[..i]
      invariant Run(names[i..], fetch, limit, packages).outcome == whole.outcome
      invariant Run(names[i..], fetch, limit, packages).requests + i == whole.requests
      invariant whole.outcome.Built? ==> whole.outcome.packages == eligible
    {
      if |packages| >= limit {
        RunStops(names, i, fetch, limit, packages);
        break;
      }
      var name := names[i];
      assert names[..i + 1] == names[..i] + [name];
      requested := requested + [name];
      ghost var before := packages;
      var fetched;
      fetched, packages := Visit(name, fetch, packages);
      if !fetched {
        RunStepFails(names, i, fetch, limit, before);
        outcome := Aborted;
        return;
      }
      RunStep(names, i, fetch, limit, before, packages);
      i := i + 1;
    }
    RunStops(names, i, fetch, limit, packages);
    outcome := Built(packages);
  }
}
