/** The synthetic provider (`DummyPackageManager::listInstalled` in
    src/DummyPackageManager.cpp): fifty records built from their number. */
module Dummy {
  import opened PackageModel
  import opened Decimal
  import opened Ordering
  import opened Visible

  const NAME_PREFIX: string := "package-"
  const VERSION_PREFIX: string := "1.0."
  const DESCRIPTION_PREFIX: string := "Dummy package number "

  /** The record at 0-based position `k`, numbered `k + 1`: only name,
      version and description are set. */
  function DummyRecord(k: nat): (p: Package)
    ensures !p.isForeign && !p.isExplicit
    ensures p.repo == "" && p.architecture == "" && p.installDate == ""
    ensures p.dependsOn == [] && p.requiredBy == []
  {
    Package(NAME_PREFIX + NatToString(k + 1),
            VERSION_PREFIX + NatToString((k + 1) % 10),
            DESCRIPTION_PREFIX + NatToString(k + 1),
            "", "", "", [], [], false, false)
  }

  /** `listInstalled`: for i = 1..50, push the record numbered i. */
  method ListInstalled() returns (result: seq<Package>)
    ensures |result| == 50
    ensures forall k :: 0 <= k < |result| ==> result[k] == DummyRecord(k)
  {
    result := [];
    for i := 1 to 51
      invariant |result| == i - 1
      invariant forall k :: 0 <= k < |result| ==> result[k] == DummyRecord(k)
    {
      var p := Package(NAME_PREFIX + NatToString(i),
                       VERSION_PREFIX + NatToString(i % 10),
                       DESCRIPTION_PREFIX + NatToString(i),
                       "", "", "", [], [], false, false);
      result := result + [p];
    }
  }

  /** The name of record `k` reads back as its number `k + 1`. */
  lemma DummyNameNumber(k: nat)
    ensures DummyRecord(k).name[..|NAME_PREFIX|] == NAME_PREFIX
    ensures AllDigits(DummyRecord(k).name[|NAME_PREFIX|..])
    ensures ParseNat(DummyRecord(k).name[|NAME_PREFIX|..]) == k + 1
  {
    assert DummyRecord(k).name[|NAME_PREFIX|..] == NatToString(k + 1);
    ParseNatToString(k + 1);
  }

  /** The description of record `k` ends in its number `k + 1`. */
  lemma DummyDescriptionNumber(k: nat)
    ensures DummyRecord(k).description[..|DESCRIPTION_PREFIX|] == DESCRIPTION_PREFIX
    ensures AllDigits(DummyRecord(k).description[|DESCRIPTION_PREFIX|..])
    ensures ParseNat(DummyRecord(k).description[|DESCRIPTION_PREFIX|..]) == k + 1
  {
    assert DummyRecord(k).description[|DESCRIPTION_PREFIX|..] == NatToString(k + 1);
    ParseNatToString(k + 1);
  }

  /** The version of record `k` is "1.0." and the last digit of `k + 1`. */
  lemma DummyVersion(k: nat)
    ensures |DummyRecord(k).version| == 5
    ensures DummyRecord(k).version[..4] == VERSION_PREFIX
    ensures DummyRecord(k).version[4] as int - '0' as int == (k + 1) % 10
  {
    var d := NatToString((k + 1) % 10);
    assert d == [DigitChar((k + 1) % 10)];
  }

  /** No two records share a name. */
  lemma DummyNamesDistinct(j: nat, k: nat)
    requires j != k
    ensures DummyRecord(j).name != DummyRecord(k).name
  {
    DummyNameNumber(j);
    DummyNameNumber(k);
  }

  /** Every record has a description, so none of them would be queried
      for details. */
  lemma DummyHasSummary(k: nat)
    ensures DummyRecord(k).description != ""
  {
    assert |DummyRecord(k).description| > |DESCRIPTION_PREFIX|;
  }

  /** Over records that carry neither flag, the explicit-only and the
      AUR-only views are empty whatever the query and the order. */
  lemma UnflaggedFiltersEmpty(packages: seq<Package>, query: string, fm: FilterMode, sm: SortMode, v: seq<int>)
    requires fm != All
    requires forall k :: 0 <= k < |packages| ==> !packages[k].isForeign && !packages[k].isExplicit
    requires IsVisibleOrder(packages, query, fm, sm, v)
    ensures v == []
  {
    VisibleEntriesAccepted(packages, query, fm, sm, v);
    HeadIsMember(v);
  }

  /** A non-empty list holds its first entry; stated apart so that the
      entry is named without indexing a list the facts above rule out. */
  lemma HeadIsMember(v: seq<int>)
    ensures v != [] ==> v[0] in v
  {
  }

  /** In particular the synthetic list shows nothing under those filters. */
  lemma DummyFiltersEmpty(packages: seq<Package>, query: string, fm: FilterMode, sm: SortMode, v: seq<int>)
    requires |packages| == 50 && forall k :: 0 <= k < 50 ==> packages[k] == DummyRecord(k)
    requires fm == ExplicitOnly || fm == AurOnly
    requires IsVisibleOrder(packages, query, fm, sm, v)
    ensures v == []
  {
    UnflaggedFiltersEmpty(packages, query, fm, sm, v);
  }
}
