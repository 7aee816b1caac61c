/** The filter predicate and the comparator of the package list
    (`filter_accept` and `sort_less` in src/main.cpp). */
module Ordering {
  import opened PackageModel
  import opened Fuzzy

  datatype FilterMode = All | ExplicitOnly | AurOnly

  datatype SortMode = NameAsc | NameDesc | ExplicitFirst | AurFirst

  /** `filter_accept`: whether a package is shown under a filter mode. */
  function FilterAccept(p: Package, mode: FilterMode): (accepted: bool)
    ensures mode == All ==> accepted
    ensures mode == ExplicitOnly ==> (accepted <==> p.isExplicit)
    ensures mode == AurOnly ==> (accepted <==> p.isForeign)
  {
    match mode
    case All => true
    case ExplicitOnly => p.isExplicit
    case AurOnly => p.isForeign
  }

  /** `operator<` on `std::string`: lexicographic order on character codes,
      a proper prefix coming first. */
  function LexLess(a: string, b: string): (less: bool)
    ensures less ==> a != b
    ensures |a| < |b| && a == b[..|a|] ==> less
    decreases |a|
  {
    if a == [] then b != []
    else if b == [] then false
    else if a[0] != b[0] then a[0] < b[0]
    else
      assert |a| < |b| && a == b[..|a|] ==> a[1..] == b[1..][..|a| - 1];
      LexLess(a[1..], b[1..])
  }

  lemma {:induction false} LexLessIrreflexive(a: string)
    ensures !LexLess(a, a)
    decreases |a|
  {
    if a != [] {
      LexLessIrreflexive(a[1..]);
    }
  }

  lemma {:induction false} LexLessTransitive(a: string, b: string, c: string)
    requires LexLess(a, b) && LexLess(b, c)
    ensures LexLess(a, c)
    decreases |a|
  {
    if a != [] && a[0] == b[0] && b[0] == c[0] {
      LexLessTransitive(a[1..], b[1..], c[1..]);
    }
  }

  /** Any two different strings are ordered one way or the other. */
  lemma {:induction false} LexLessTotal(a: string, b: string)
    ensures a == b || LexLess(a, b) || LexLess(b, a)
    decreases |a|
  {
    if a != [] && b != [] && a[0] == b[0] {
      LexLessTotal(a[1..], b[1..]);
      if a[1..] == b[1..] {
        assert a == [a[0]] + a[1..] && b == [b[0]] + b[1..];
      }
    }
  }

  /** `sort_less`: the strict order of the package list under a sort mode.
      Names are compared case-insensitively; the two flag modes put flagged
      packages first and fall back to ascending names. */
  function SortLess(a: Package, b: Package, mode: SortMode): (less: bool)
    ensures less ==> !SameSortKey(a, b, mode)
    ensures mode == ExplicitFirst && a.isExplicit && !b.isExplicit ==> less
    ensures mode == AurFirst && a.isForeign && !b.isForeign ==> less
  {
    match mode
    case NameAsc => LexLess(Lower(a.name), Lower(b.name))
    case NameDesc => LexLess(Lower(b.name), Lower(a.name))
    case ExplicitFirst =>
      if a.isExplicit != b.isExplicit then a.isExplicit && !b.isExplicit
      else LexLess(Lower(a.name), Lower(b.name))
    case AurFirst =>
      if a.isForeign != b.isForeign then a.isForeign && !b.isForeign
      else LexLess(Lower(a.name), Lower(b.name))
  }

  /** What `sort_less` looks at: the two packages are indistinguishable to
      the comparator. */
  predicate SameSortKey(a: Package, b: Package, mode: SortMode) {
    && Lower(a.name) == Lower(b.name)
    && (mode == ExplicitFirst ==> a.isExplicit == b.isExplicit)
    && (mode == AurFirst ==> a.isForeign == b.isForeign)
  }

  lemma SortLessIrreflexive(a: Package, mode: SortMode)
    ensures !SortLess(a, a, mode)
  {
    LexLessIrreflexive(Lower(a.name));
  }

  lemma SortLessTransitive(a: Package, b: Package, c: Package, mode: SortMode)
    requires SortLess(a, b, mode) && SortLess(b, c, mode)
    ensures SortLess(a, c, mode)
  {
    var la, lb, lc := Lower(a.name), Lower(b.name), Lower(c.name);
    match mode
    case NameAsc => LexLessTransitive(la, lb, lc);
    case NameDesc => LexLessTransitive(lc, lb, la);
    case ExplicitFirst =>
      if a.isExplicit == b.isExplicit == c.isExplicit {
        LexLessTransitive(la, lb, lc);
      }
    case AurFirst =>
      if a.isForeign == b.isForeign == c.isForeign {
        LexLessTransitive(la, lb, lc);
      }
  }

  lemma SortLessAsymmetric(a: Package, b: Package, mode: SortMode)
    requires SortLess(a, b, mode)
    ensures !SortLess(b, a, mode)
  {
    if SortLess(b, a, mode) {
      SortLessTransitive(a, b, a, mode);
      SortLessIrreflexive(a, mode);
    }
  }

  /** Two packages are tied (neither precedes the other) exactly when the
      comparator sees the same key: incomparability is an equivalence, so
      `sort_less` is a strict weak order as `std::sort` requires. */
  lemma SortTieIff(a: Package, b: Package, mode: SortMode)
    ensures !SortLess(a, b, mode) && !SortLess(b, a, mode) <==> SameSortKey(a, b, mode)
  {
    LexLessTotal(Lower(a.name), Lower(b.name));
    LexLessIrreflexive(Lower(a.name));
  }

  /** Descending name order is ascending order with the arguments swapped. */
  lemma NameDescIsConverse(a: Package, b: Package)
    ensures SortLess(a, b, NameDesc) <==> SortLess(b, a, NameAsc)
  {
  }

  /** In the flag modes a flagged package precedes an unflagged one, and
      packages with equal flags are ordered by ascending name. */
  lemma FlaggedFirst(a: Package, b: Package)
    ensures a.isExplicit && !b.isExplicit ==> SortLess(a, b, ExplicitFirst) && !SortLess(b, a, ExplicitFirst)
    ensures a.isForeign && !b.isForeign ==> SortLess(a, b, AurFirst) && !SortLess(b, a, AurFirst)
    ensures a.isExplicit == b.isExplicit ==> (SortLess(a, b, ExplicitFirst) <==> SortLess(a, b, NameAsc))
    ensures a.isForeign == b.isForeign ==> (SortLess(a, b, AurFirst) <==> SortLess(a, b, NameAsc))
  {
  }

  /** Names differing only in case are tied in every mode ("Foo" and "foo"). */
  lemma CaseVariantsTie(a: Package, b: Package, mode: SortMode)
    requires a.name == "Foo" && b.name == "foo"
    requires a.isExplicit == b.isExplicit && a.isForeign == b.isForeign
    ensures !SortLess(a, b, mode) && !SortLess(b, a, mode)
  {
    assert Lower(a.name) == Lower(b.name) == "foo";
    SortTieIff(a, b, mode);
  }
}
