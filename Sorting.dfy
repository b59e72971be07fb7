/**
 * The `usort` call of `execute`: records are compared with `strcmp` on the
 * string form of the chosen field, so the integer fields and the `updated`
 * timestamp are ordered as decimal text, and `desc` negates the comparison.
 */
module Sorting {
  import opened Wrappers
  import opened PhpStrings
  import opened CraftPluginPackage
  import opened Options

  /** The integer a numeric sort field holds; for `updated`, its timestamp. */
  function FieldInt(p: Package, f: OrderField): int
    requires f != TestLibrary
  {
    match f
    case Downloads => p.downloads
    case Favers => p.favers
    case Dependents => p.dependents
    case Updated => p.updated
  }

  /**
   * The string `strcmp` receives for field `f`: the decimal rendering of an
   * integer field or of the timestamp, the test library itself, or "" for a
   * null test library.
   */
  function SortKey(p: Package, f: OrderField): (k: string)
    ensures f != TestLibrary ==> k == IntToString(FieldInt(p, f))
    ensures f != TestLibrary ==> IsNumeric(k) && NumericValue(k) == FieldInt(p, f)
    ensures f == TestLibrary && p.testLibrary.Some? ==> k == p.testLibrary.value
    ensures f == TestLibrary && p.testLibrary.None? ==> k == ""
  {
    if f == TestLibrary then
      match p.testLibrary
      case None => ""
      case Some(lib) => lib
    else
      IntToStringRoundTrip(FieldInt(p, f));
      IntToString(FieldInt(p, f))
  }

  /** The comparator handed to `usort`: `strcmp` on the keys, negated for `desc`. */
  function Compare(a: Package, b: Package, f: OrderField, d: Direction): (r: int)
    ensures -1 <= r <= 1
    ensures r == 0 <==> SortKey(a, f) == SortKey(b, f)
  {
    var c := Strcmp(SortKey(a, f), SortKey(b, f));
    if d == Asc then c else -c
  }

  lemma CompareAntisymmetric(a: Package, b: Package, f: OrderField, d: Direction)
    ensures Compare(a, b, f, d) == -Compare(b, a, f, d)
  {
    StrcmpAntisymmetric(SortKey(a, f), SortKey(b, f));
  }

  lemma CompareTransitive(a: Package, b: Package, c: Package, f: OrderField, d: Direction)
    requires Compare(a, b, f, d) <= 0 && Compare(b, c, f, d) <= 0
    ensures Compare(a, c, f, d) <= 0
  {
    var ka, kb, kc := SortKey(a, f), SortKey(b, f), SortKey(c, f);
    if d == Asc {
      StrcmpTransitive(ka, kb, kc);
    } else {
      StrcmpAntisymmetric(ka, kb);
      StrcmpAntisymmetric(kb, kc);
      StrcmpAntisymmetric(ka, kc);
      StrcmpTransitive(kc, kb, ka);
    }
  }

  /** Each element compares at most equal to the next one under `cmp`. */
  predicate SortedBy<T>(s: seq<T>, cmp: (T, T) -> int)
  {
    forall i :: 0 <= i < |s| - 1 ==> cmp(s[i], s[i + 1]) <= 0
  }

  /** `cmp` answers consistently when its arguments are swapped. */
  ghost predicate Antisymmetric<T(!new)>(cmp: (T, T) -> int)
  {
    forall x, y :: cmp(x, y) > 0 ==> cmp(y, x) < 0
  }

  /** "Compares at most equal" under `cmp` is transitive. */
  ghost predicate Transitive<T(!new)>(cmp: (T, T) -> int)
  {
    forall x, y, z :: cmp(x, y) <= 0 && cmp(y, z) <= 0 ==> cmp(x, z) <= 0
  }

  lemma {:induction false} SortedPairChain<T(!new)>(s: seq<T>, cmp: (T, T) -> int, i: nat, j: nat)
    requires Transitive(cmp) && SortedBy(s, cmp) && i < j < |s|
    ensures cmp(s[i], s[j]) <= 0
    decreases j - i
  {
    if j > i + 1 {
      SortedPairChain(s, cmp, i, j - 1);
      assert cmp(s[j - 1], s[j]) <= 0;
    }
  }

  /** Each record compares at most equal to the next one: `SortedBy` with `Compare` as comparator. */
  predicate AdjacentOrdered(s: seq<Package>, f: OrderField, d: Direction)
  {
    SortedBy(s, (x, y) => Compare(x, y, f, d))
  }

  /** Each record compares at most equal to every later one. */
  predicate Ordered(s: seq<Package>, f: OrderField, d: Direction)
  {
    forall i, j :: 0 <= i < j < |s| ==> Compare(s[i], s[j], f, d) <= 0
  }

  /**
   * In `asc` order each neighbour's key is `strcmp`-at-most the next one's;
   * in `desc` order at least.
   */
  lemma AdjacentOrderedByStrcmp(s: seq<Package>, f: OrderField, d: Direction)
    ensures AdjacentOrdered(s, f, d) <==>
      forall i :: 0 <= i < |s| - 1 ==>
        if d == Asc then Strcmp(SortKey(s[i], f), SortKey(s[i + 1], f)) <= 0
        else Strcmp(SortKey(s[i], f), SortKey(s[i + 1], f)) >= 0
  {
    var cmp := (x: Package, y: Package) => Compare(x, y, f, d);
    assert AdjacentOrdered(s, f, d) == SortedBy(s, cmp);
    forall i | 0 <= i < |s| - 1
      ensures cmp(s[i], s[i + 1]) == Compare(s[i], s[i + 1], f, d)
    {
    }
  }

  /** Because the comparator is transitive, ordering neighbours orders the whole sequence. */
  lemma AdjacentToOrdered(s: seq<Package>, f: OrderField, d: Direction)
    requires AdjacentOrdered(s, f, d)
    ensures Ordered(s, f, d)
  {
    var cmp := (x: Package, y: Package) => Compare(x, y, f, d);
    forall x: Package, y: Package, z: Package | cmp(x, y) <= 0 && cmp(y, z) <= 0
      ensures cmp(x, z) <= 0
    {
      CompareTransitive(x, y, z, f, d);
    }
    assert SortedBy(s, cmp);
    forall i, j | 0 <= i < j < |s|
      ensures Compare(s[i], s[j], f, d) <= 0
    {
      SortedPairChain(s, cmp, i, j);
    }
  }

  /** The `strcmp` keys of download counts 20, 500 and 3000. */
  lemma DownloadKeys(p: Package)
    ensures SortKey(p.(downloads := 20), Downloads) == "20"
    ensures SortKey(p.(downloads := 500), Downloads) == "500"
    ensures SortKey(p.(downloads := 3000), Downloads) == "3000"
  {
    assert NatToString(2) == "2" && NatToString(5) == "5" && NatToString(3) == "3";
    assert NatToString(30) == "30" && NatToString(50) == "50";
    assert NatToString(300) == "300";
  }

  /**
   * Ascending by monthly downloads, 20, 3000, 500 is in order and 20, 500,
   * 3000 is not: the counts are compared as decimal text.
   */
  lemma DownloadsOrderedAsText(p: Package)
    ensures AdjacentOrdered([p.(downloads := 20), p.(downloads := 3000), p.(downloads := 500)], Downloads, Asc)
    ensures !AdjacentOrdered([p.(downloads := 20), p.(downloads := 500), p.(downloads := 3000)], Downloads, Asc)
  {
    var p20, p500, p3000 := p.(downloads := 20), p.(downloads := 500), p.(downloads := 3000);
    DownloadKeys(p);
    assert Strcmp("20", "3000") < 0 && Strcmp("3000", "500") < 0 && Strcmp("500", "3000") > 0;
    var cmp := (x: Package, y: Package) => Compare(x, y, Downloads, Asc);
    assert cmp(p20, p3000) < 0 && cmp(p3000, p500) < 0 && cmp(p500, p3000) > 0;
    var s := [p20, p3000, p500];
    assert SortedBy(s, cmp);
    var u := [p20, p500, p3000];
    assert cmp(u[1], u[2]) > 0;
  }

  /**
   * While `s[j]` is moved down into the sorted `s[..i]`: every neighbour
   * pair of `s[..i + 1]` except the two touching `j` is ordered, and so are
   * the pair bridging over `j` and the pair just above it.
   */
  predicate Inserting<T>(s: seq<T>, j: nat, i: nat, cmp: (T, T) -> int)
  {
    && j <= i < |s|
    && (forall k :: 0 <= k < i && k != j - 1 && k != j ==> cmp(s[k], s[k + 1]) <= 0)
    && (0 < j < i ==> cmp(s[j - 1], s[j + 1]) <= 0)
    && (j < i ==> cmp(s[j], s[j + 1]) <= 0)
  }

  lemma InsertStart<T>(s: seq<T>, i: nat, cmp: (T, T) -> int)
    requires i < |s| && SortedBy(s[..i], cmp)
    ensures Inserting(s, i, i, cmp)
  {
    assert forall k :: 0 <= k < i ==> s[..i][k] == s[k];
  }

  /** Swapping `s[j]` below a larger neighbour keeps the insertion invariant one place lower. */
  lemma SwapDown<T(!new)>(s: seq<T>, j: nat, i: nat, cmp: (T, T) -> int)
    requires Antisymmetric(cmp)
    requires Inserting(s, j, i, cmp) && 0 < j && cmp(s[j - 1], s[j]) > 0
    ensures Inserting(s[j - 1 := s[j]][j := s[j - 1]], j - 1, i, cmp)
  {
  }

  lemma SwapPreservesMultiset<T>(s: seq<T>, j: nat)
    requires 0 < j < |s|
    ensures multiset(s[j - 1 := s[j]][j := s[j - 1]]) == multiset(s)
  {
  }

  lemma InsertDone<T>(s: seq<T>, j: nat, i: nat, cmp: (T, T) -> int)
    requires Inserting(s, j, i, cmp) && (j == 0 || cmp(s[j - 1], s[j]) <= 0)
    ensures SortedBy(s[..i + 1], cmp)
  {
  }

  /**
   * One insertion step: `a[..i]` is sorted; `a[i]` is swapped down past
   * every larger neighbour, leaving `a[..i + 1]` sorted.
   */
  method InsertDown<T(!new)>(a: array<T>, i: nat, cmp: (T, T) -> int)
    requires Antisymmetric(cmp)
    requires i < a.Length && SortedBy(a[..i], cmp)
    modifies a
    ensures SortedBy(a[..i + 1], cmp)
    ensures multiset(a[..]) == multiset(old(a[..]))
    ensures a[i + 1..] == old(a[i + 1..])
  {
    var j := i;
    InsertStart(a[..], i, cmp);
    while j > 0 && cmp(a[j - 1], a[j]) > 0
      invariant 0 <= j <= i
      invariant Inserting(a[..], j, i, cmp)
      invariant multiset(a[..]) == multiset(old(a[..]))
      invariant a[i + 1..] == old(a[i + 1..])
    {
      ghost var s := a[..];
      SwapDown(s, j, i, cmp);
      SwapPreservesMultiset(s, j);
      a[j - 1], a[j] := a[j], a[j - 1];
      assert a[..] == s[j - 1 := s[j]][j := s[j - 1]];
      j := j - 1;
    }
    InsertDone(a[..], j, i, cmp);
  }

  /**
   * `usort($array, $cmp)`: sorts the array in place by the comparator. The
   * comparator must answer consistently for swapped arguments and order
   * transitively, as PHP asks of a `usort` callback.
   */
  method Usort<T(!new)>(a: array<T>, cmp: (T, T) -> int)
    requires Antisymmetric(cmp) && Transitive(cmp)
    modifies a
    ensures SortedBy(a[..], cmp)
    ensures multiset(a[..]) == multiset(old(a[..]))
  {
    var i := 0;
    while i < a.Length
      invariant 0 <= i <= a.Length
      invariant SortedBy(a[..i], cmp)
      invariant multiset(a[..]) == multiset(old(a[..]))
    {
      InsertDown(a, i, cmp);
      i := i + 1;
    }
    assert a[..a.Length] == a[..];
  }

  /** The sort step of `execute`: the records reordered by the chosen field and direction. */
  method SortPackages(a: array<Package>, f: OrderField, d: Direction)
    modifies a
    ensures AdjacentOrdered(a[..], f, d) && Ordered(a[..], f, d)
    ensures multiset(a[..]) == multiset(old(a[..]))
  {
    var cmp := (x: Package, y: Package) => Compare(x, y, f, d);
    forall x: Package, y: Package
      ensures cmp(x, y) > 0 ==> cmp(y, x) < 0
    {
      CompareAntisymmetric(x, y, f, d);
    }
    forall x: Package, y: Package, z: Package
      ensures cmp(x, y) <= 0 && cmp(y, z) <= 0 ==> cmp(x, z) <= 0
    {
      if cmp(x, y) <= 0 && cmp(y, z) <= 0 {
        CompareTransitive(x, y, z, f, d);
      }
    }
    Usort(a, cmp);
    AdjacentToOrdered(a[..], f, d);
  }
}
