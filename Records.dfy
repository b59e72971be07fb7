/**
 * What the build loop of `execute` does with one fetched package detail:
 * pick the latest version, skip abandoned packages and versions without
 * `extra.handle`, find the test library, and make the record.
 */
module Records {
  import opened Wrappers
  import opened PhpStrings
  import opened CraftPluginPackage

  /** One `require-dev` entry, in the order the registry's JSON object lists it. */
  datatype Dependency = Dependency(name: string, constraint: string)

  /** The `extra` object of a version; only `handle` is read. */
  datatype Extra = Extra(handle: Option<string>)

  /** One entry of `versions`; `time` is the timestamp `strtotime` gives for its publish time. */
  datatype Version = Version(version: string, time: int, extra: Option<Extra>, requireDev: Option<seq<Dependency>>)

  /** The registry's `abandoned` field: missing, a boolean, or the name of a replacement package. */
  datatype Abandoned = NotSet | Flag(flag: bool) | Replacement(package: string)

  /** The decoded `package` object of a detail response. */
  datatype PackageDetail = PackageDetail(
    name: string,
    description: Option<string>,
    repository: string,
    monthlyDownloads: int,
    dependents: int,
    favers: int,
    abandoned: Abandoned,
    versions: seq<Version>)

  /** `isset($detail->abandoned) && $detail->abandoned`. */
  function IsAbandoned(a: Abandoned): (r: bool)
    ensures a.NotSet? ==> !r
    ensures a.Flag? ==> (r <==> a.flag)
    ensures a.Replacement? && |a.package| > 1 ==> r
    ensures a.Replacement? && (a.package == "" || a.package == "0") ==> !r
  {
    match a
    case NotSet => false
    case Flag(b) => b
    case Replacement(p) => Truthy(Some(p))
  }

  /** `$version->extra->handle` when both are set. */
  function HandleOf(v: Version): (h: Option<string>)
    ensures h.Some? <==> v.extra.Some? && v.extra.value.handle.Some?
    ensures h.Some? ==> v.extra.value.handle == h
  {
    if v.extra.Some? then v.extra.value.handle else None
  }

  /** The testing libraries a `require-dev` key is matched against. */
  const TestFrameworks: seq<string> :=
    ["phpunit/phpunit", "atoum/atoum", "behat/behat", "codeception/codeception", "kahlan/kahlan",
     "laravel/dusk", "lens/lens", "phpspec/phpspec", "peridot-php/peridot", "simpletest/simpletest",
     "datasift/storyplayer"]

  /**
   * The position of the latest version: a version whose time no other
   * version exceeds, the earliest such one because the scan replaces its
   * candidate only on a strictly later time.
   */
  function LatestIndex(vs: seq<Version>): (r: Option<nat>)
    ensures r.None? <==> |vs| == 0
    ensures r.Some? ==> r.value < |vs|
    ensures r.Some? ==> forall j :: 0 <= j < |vs| ==> vs[j].time <= vs[r.value].time
    ensures r.Some? ==> forall j :: 0 <= j < r.value ==> vs[j].time < vs[r.value].time
  {
    if |vs| == 0 then None
    else
      match LatestIndex(vs[..|vs| - 1])
      case None => Some(0)
      case Some(k) => if vs[|vs| - 1].time > vs[k].time then Some(|vs| - 1) else Some(k)
  }

  /** The scan over `$packageDetail->versions` that keeps the latest version seen so far. */
  method SelectLatestVersion(vs: seq<Version>) returns (latest: Option<nat>)
    ensures latest == LatestIndex(vs)
    ensures latest.None? <==> |vs| == 0
    ensures latest.Some? ==>
      && latest.value < |vs|
      && (forall j :: 0 <= j < |vs| ==> vs[j].time <= vs[latest.value].time)
      && (forall j :: 0 <= j < latest.value ==> vs[j].time < vs[latest.value].time)
  {
    latest := None;
    var i := 0;
    while i < |vs|
      invariant 0 <= i <= |vs|
      invariant latest == LatestIndex(vs[..i])
    {
      assert vs[..i + 1][..i] == vs[..i];
      if latest.None? || vs[i].time > vs[latest.value].time {
        latest := Some(i);
      }
      i := i + 1;
    }
    assert vs[..i] == vs;
  }

  /**
   * The first dependency, in the object's own order, whose name is one of
   * `TestFrameworks`; None when there is none.
   */
  function FirstTestLibrary(deps: seq<Dependency>): (r: Option<string>)
    ensures r.None? <==> forall i :: 0 <= i < |deps| ==> deps[i].name !in TestFrameworks
    ensures r.Some? ==> r.value in TestFrameworks
    ensures r.Some? ==>
      exists i :: 0 <= i < |deps| && deps[i].name == r.value &&
        forall j :: 0 <= j < i ==> deps[j].name !in TestFrameworks
  {
    if |deps| == 0 then None
    else if deps[0].name in TestFrameworks then Some(deps[0].name)
    else
      var r := FirstTestLibrary(deps[1..]);
      assert forall i :: 1 <= i < |deps| ==> deps[i] == deps[1..][i - 1];
      assert r.Some? ==>
        exists i :: 1 <= i < |deps| && deps[i].name == r.value &&
          forall j :: 0 <= j < i ==> deps[j].name !in TestFrameworks;
      r
  }

  /** The test library of a version: null when `require-dev` is missing. */
  function TestLibraryOf(requireDev: Option<seq<Dependency>>): (r: Option<string>)
    ensures requireDev.None? ==> r.None?
    ensures r.Some? ==>
      && r.value in TestFrameworks
      && exists i :: 0 <= i < |requireDev.value| && requireDev.value[i].name == r.value
  {
    if requireDev.None? then None else FirstTestLibrary(requireDev.value)
  }

  /** The scan over `require-dev` that stops at the first known testing library. */
  method FindTestLibrary(requireDev: Option<seq<Dependency>>) returns (lib: Option<string>)
    ensures lib == TestLibraryOf(requireDev)
    ensures lib.Some? ==> requireDev.Some? && lib.value in TestFrameworks
  {
    lib := None;
    if requireDev.Some? {
      var deps := requireDev.value;
      var i := 0;
      while i < |deps|
        invariant 0 <= i <= |deps|
        invariant FirstTestLibrary(deps[i..]) == FirstTestLibrary(deps)
      {
        assert deps[i..][1..] == deps[i + 1..];
        if deps[i].name in TestFrameworks {
          lib := Some(deps[i].name);
          break;
        }
        i := i + 1;
      }
    }
  }

  /** Whether the loop keeps a package: it has a latest version, is not abandoned, and that version has a handle. */
  predicate Eligible(d: PackageDetail)
  {
    var latest := LatestIndex(d.versions);
    latest.Some? && !IsAbandoned(d.abandoned) && HandleOf(d.versions[latest.value]).Some?
  }

  /** The record the loop pushes for one package detail, or None when it skips the package. */
  function Accept(d: PackageDetail): (r: Option<Package>)
    ensures r.Some? <==> Eligible(d)
  {
    var latest := LatestIndex(d.versions);
    if IsAbandoned(d.abandoned) then None
    else if latest.None? || HandleOf(d.versions[latest.value]).None? then None
    else
      var v := d.versions[latest.value];
      Some(Package(d.name, d.description, HandleOf(v).value, d.repository, TestLibraryOf(v.requireDev),
                   v.version, d.monthlyDownloads, d.dependents, d.favers, v.time))
  }

  /**
   * What an accepted record is made of: a package that has versions and is
   * not abandoned; its own name, description, repository and counters; and
   * the handle, version label, time and test library of the first version
   * no other version is later than.
   */
  lemma AcceptedRecord(d: PackageDetail)
    requires Accept(d).Some?
    ensures |d.versions| > 0 && !IsAbandoned(d.abandoned)
    ensures var p := Accept(d).value;
      && p.name == d.name && p.description == d.description
      && p.repository == d.repository && p.downloads == d.monthlyDownloads
      && p.dependents == d.dependents && p.favers == d.favers
    ensures forall v :: v in d.versions ==> v.time <= Accept(d).value.updated
    ensures var p := Accept(d).value;
      exists k :: 0 <= k < |d.versions| && d.versions[k].time == p.updated
        && (forall j :: 0 <= j < k ==> d.versions[j].time < p.updated)
        && d.versions[k].version == p.version
        && HandleOf(d.versions[k]) == Some(p.handle)
        && TestLibraryOf(d.versions[k].requireDev) == p.testLibrary
    ensures var p := Accept(d).value;
      p.testLibrary.Some? ==> p.testLibrary.value in TestFrameworks
  {
    var k := LatestIndex(d.versions).value;
    var v := d.versions[k];
    assert v == d.versions[k];
    forall w | w in d.versions
      ensures w.time <= v.time
    {
      var j :| 0 <= j < |d.versions| && d.versions[j] == w;
    }
  }

  /** The latest of versions published in 2020, 2022 and 2021 is the 2022 one. */
  lemma LatestOfThree(a: Version, b: Version, c: Version)
    requires a.time == 1577836800 && b.time == 1654041600 && c.time == 1609459200
    ensures LatestIndex([a, b, c]) == Some(1)
  {
    assert [a, b, c][..2] == [a, b];
    assert [a, b][..1] == [a];
    assert [a][..0] == [];
  }

  /** The dependency order decides, not the order of `TestFrameworks`. */
  lemma TestLibraryFollowsDependencyOrder()
    ensures FirstTestLibrary([Dependency("kahlan/kahlan", "^5.0"), Dependency("phpunit/phpunit", "^9.0")])
      == Some("kahlan/kahlan")
  {
    assert "kahlan/kahlan" in TestFrameworks;
  }
}
