/** The pacman adapter (`PacmanPackageManager::listInstalled` and
    `PacmanPackageManager::fillDetails` in src/PacmanPackageManager.cpp),
    with the process output given as the sequence of lines `fgets` reads,
    or `None` when `popen` fails. */
module Pacman {
  import opened Wrappers
  import opened PackageModel
  import opened Ascii
  import opened PacmanText

  /** A line without the one trailing newline `fgets` keeps. */
  function StripNewline(line: string): (l: string)
    ensures l == line || l + "\n" == line
    ensures |l| >= |line| - 1
    ensures line != [] && line[|line| - 1] == '\n' ==> l + "\n" == line
  {
    if line != [] && line[|line| - 1] == '\n' then line[..|line| - 1] else line
  }

  /** One line of the `pacman -Q` listing: skipped when empty or without a
      space; otherwise the name is the text before the first space and the
      version everything after it. */
  function ListingRecord(line: string): (r: Option<Package>)
    ensures r.Some? <==> ' ' in StripNewline(line)
    ensures r.Some? ==>
      && ' ' !in r.value.name
      && StripNewline(line) == r.value.name + " " + r.value.version
      && r.value == NewPackage(r.value.name, r.value.version)
  {
    var l := StripNewline(line);
    if l == [] then None
    else if ' ' !in l then None
    else
      var sep := Find(l, ' ');
      assert l == l[..sep] + " " + l[sep + 1..];
      Some(NewPackage(l[..sep], l[sep + 1..]))
  }

  /** The records of a listing, in line order. */
  function ListingRecords(lines: seq<string>): (ps: seq<Package>)
    ensures |ps| <= |lines|
    ensures forall k :: 0 <= k < |ps| ==>
      ' ' !in ps[k].name && HasNoDetails(ps[k]) && !ps[k].isForeign && !ps[k].isExplicit
  {
    if lines == [] then []
    else
      var last := ListingRecord(lines[|lines| - 1]);
      ListingRecords(lines[..|lines| - 1]) + (if last.Some? then [last.value] else [])
  }

  /** One more line adds its record, if it has one, at the end. */
  lemma ListingStep(lines: seq<string>, i: nat)
    requires i < |lines|
    ensures ListingRecords(lines[..i + 1]) ==
      ListingRecords(lines[..i]) + (if ListingRecord(lines[i]).Some? then [ListingRecord(lines[i]).value] else [])
  {
    assert lines[..i + 1][..i] == lines[..i];
  }

  /** The body of the `listInstalled` loop: drop the newline, skip an empty
      line or one without a space, split at the first space. */
  method ParseListingLine(raw: string) returns (record: Option<Package>)
    ensures record == ListingRecord(raw)
  {
    var line := raw;
    if line != [] && line[|line| - 1] == '\n' {
      line := line[..|line| - 1];
    }
    assert line == StripNewline(raw);
    if line == [] {
      return None;
    }
    if ' ' !in line {
      return None;
    }
    var sep := Find(line, ' ');
    var name := line[..sep];
    var version := line[sep + 1..];
    return Some(NewPackage(name, version));
  }

  /** `listInstalled`: no records when the process cannot be started;
      otherwise one record per well-formed line, in order. */
  method ListInstalled(output: Option<seq<string>>) returns (packages: seq<Package>)
    ensures output.None? ==> packages == []
    ensures output.Some? ==> packages == ListingRecords(output.value)
  {
    packages := [];
    if output.None? {
      return;
    }
    var lines := output.value;
    for i := 0 to |lines|
      invariant packages == ListingRecords(lines[..i])
    {
      ListingStep(lines, i);
      var record := ParseListingLine(lines[i]);
      if record.Some? {
        packages := packages + [record.value];
      }
    }
    assert lines[..|lines|] == lines;
  }

  /** Printing a record as "<name> <version>\n" and parsing the line gives
      the record back, whenever the name has no space. */
  lemma ListingRoundTrip(name: string, version: string)
    requires ' ' !in name
    ensures ListingRecord(name + " " + version + "\n") == Some(NewPackage(name, version))
  {
    var line := name + " " + version + "\n";
    assert StripNewline(line) == name + " " + version;
    var l := name + " " + version;
    assert l[|name|] == ' ';
    var sep := Find(l, ' ');
    assert sep == |name|;
    assert l[..sep] == name && l[sep + 1..] == version;
  }

  /** The example line "foo 1.2.3\n". */
  lemma ListingExample(line: string)
    requires line == "foo 1.2.3\n"
    ensures ListingRecord(line) == Some(NewPackage("foo", "1.2.3"))
  {
    ListingRoundTrip("foo", "1.2.3");
    assert "foo" + " " + "1.2.3" + "\n" == line;
  }

  /** The version keeps its own spaces: only the first space separates. */
  lemma VersionKeepsSpaces(line: string)
    requires line == "a b c"
    ensures ListingRecord(line) == Some(NewPackage("a", "b c"))
  {
    ListingRoundTrip("a", "b c");
    assert "a" + " " + "b c" + "\n" == line + "\n";
    assert StripNewline(line + "\n") == line == StripNewline(line);
  }

  /** A line starting with a space yields a record with an empty name: the
      parser does not insist on a non-empty name. */
  lemma LeadingSpaceGivesEmptyName(version: string)
    ensures ListingRecord(" " + version + "\n") == Some(NewPackage("", version))
  {
    ListingRoundTrip("", version);
    assert "" + " " + version + "\n" == " " + version + "\n";
  }

  /** Empty lines and lines without a space give no record. */
  lemma SkippedLines()
    ensures ListingRecord("\n") == None && ListingRecord("solo\n") == None
  {
    assert StripNewline("solo\n") == "solo";
  }

  /** The `pacman -Qi` fields `fillDetails` reads. */
  datatype Field = Description | Repository | Architecture | InstallDate | DependsOn | RequiredBy

  function Label(f: Field): (text: string)
    ensures |text| >= 3 && ':' !in text
  {
    match f
    case Description => "Description"
    case Repository => "Repository"
    case Architecture => "Architecture"
    case InstallDate => "Install Date"
    case DependsOn => "Depends On"
    case RequiredBy => "Required By"
  }

  /** The field a detail line belongs to: the first label of the source's
      `else if` chain that the line starts with. */
  function Matched(l: string): (m: Option<Field>)
    ensures m.Some? ==> StartsWith(l, Label(m.value))
    ensures m.None? ==>
              && !StartsWith(l, "Description") && !StartsWith(l, "Repository")
              && !StartsWith(l, "Architecture") && !StartsWith(l, "Install Date")
              && !StartsWith(l, "Depends On") && !StartsWith(l, "Required By")
  {
    if StartsWith(l, Label(Description)) then Some(Description)
    else if StartsWith(l, Label(Repository)) then Some(Repository)
    else if StartsWith(l, Label(Architecture)) then Some(Architecture)
    else if StartsWith(l, Label(InstallDate)) then Some(InstallDate)
    else if StartsWith(l, Label(DependsOn)) then Some(DependsOn)
    else if StartsWith(l, Label(RequiredBy)) then Some(RequiredBy)
    else None
  }

  /** No line starts with two different labels. */
  lemma LabelsExclusive(l: string, f: Field, g: Field)
    ensures StartsWith(l, Label(f)) && StartsWith(l, Label(g)) ==> f == g
  {
    if StartsWith(l, Label(f)) && StartsWith(l, Label(g)) {
      assert l[0] == Label(f)[0] == Label(g)[0];
      assert l[2] == Label(f)[2] == Label(g)[2];
    }
  }

  /** The order of the `else if` chain never matters: a line belongs to a
      field exactly when it starts with that field's label. */
  lemma MatchedIffLabel(l: string, f: Field)
    ensures Matched(l) == Some(f) <==> StartsWith(l, Label(f))
  {
    if StartsWith(l, Label(f)) {
      LabelsExclusive(l, f, Description);
      LabelsExclusive(l, f, Repository);
      LabelsExclusive(l, f, Architecture);
      LabelsExclusive(l, f, InstallDate);
      LabelsExclusive(l, f, DependsOn);
    }
  }

  /** What one detail line sets field `f` to: the trimmed text after the
      first colon of a line that belongs to the field. */
  function FieldValue(line: string, f: Field): Option<string> {
    var l := StripNewline(line);
    if Matched(l) == Some(f) then ColonValue(l) else None
  }

  /** The trimmed text after the first colon, if the line has one. */
  function ColonValue(l: string): Option<string> {
    if ':' in l then Some(Trimmed(l[Find(l, ':') + 1..])) else None
  }

  /** `ColonValue`, computed as each branch of the source does: find the
      colon, then trim what follows it. */
  method ValueAfterColon(l: string) returns (v: Option<string>)
    ensures v == ColonValue(l)
  {
    if ':' !in l {
      return None;
    }
    var colon := Find(l, ':');
    var value := Trim(l[colon + 1..]);
    return Some(value);
  }

  /** The position of the last present entry of `vs`, or -1 when none is. */
  function LastPresent<T>(vs: seq<Option<T>>): (k: int)
    ensures -1 <= k < |vs|
    ensures k >= 0 ==> vs[k].Some?
    ensures forall j :: k < j < |vs| ==> vs[j].None?
  {
    if vs == [] then -1
    else if vs[|vs| - 1].Some? then |vs| - 1
    else LastPresent(vs[..|vs| - 1])
  }

  /** The last value present in `vs`, if any. */
  function Latest<T>(vs: seq<Option<T>>): Option<T> {
    var k := LastPresent(vs);
    if k < 0 then None else vs[k]
  }

  /** `Latest` is present exactly when some entry is, and then it is an
      entry after which every entry is absent. */
  lemma LatestIsLast<T>(vs: seq<Option<T>>)
    ensures Latest(vs).Some? <==> exists k :: 0 <= k < |vs| && vs[k].Some?
    ensures Latest(vs).Some? ==>
      exists k :: 0 <= k < |vs| && vs[k] == Latest(vs) && forall j :: k < j < |vs| ==> vs[j].None?
  {
    var k := LastPresent(vs);
    if k >= 0 {
      assert vs[k] == Latest(vs);
    }
  }

  /** Conversely: an entry after which every entry is absent is the latest. */
  lemma LatestAt<T>(vs: seq<Option<T>>, k: nat)
    requires k < |vs| && vs[k].Some?
    requires forall j :: k < j < |vs| ==> vs[j].None?
    ensures Latest(vs) == vs[k]
  {
    var last := LastPresent(vs);
  }

  /** What each line sets field `f` to. */
  function FieldValues(lines: seq<string>, f: Field): (vs: seq<Option<string>>)
    ensures |vs| == |lines|
    ensures forall k :: 0 <= k < |lines| ==> vs[k] == FieldValue(lines[k], f)
  {
    seq(|lines|, k requires 0 <= k < |lines| => FieldValue(lines[k], f))
  }

  /** The value the last line carrying field `f` gives it, if any line does. */
  function LastValue(lines: seq<string>, f: Field): Option<string> {
    Latest(FieldValues(lines, f))
  }

  /** One more line either sets the field or leaves the last value as it was. */
  lemma ScanStep(lines: seq<string>, i: nat, f: Field)
    requires i < |lines|
    ensures LastValue(lines[..i + 1], f) ==
      if FieldValue(lines[i], f).Some? then FieldValue(lines[i], f) else LastValue(lines[..i], f)
  {
    var all := FieldValues(lines, f);
    assert FieldValues(lines[..i + 1], f) == all[..i + 1];
    assert FieldValues(lines[..i], f) == all[..i];
    LatestSnoc(all, i);
  }

  /** Extending a prefix by one entry: a present entry becomes the latest,
      an absent one leaves it. */
  lemma LatestSnoc<T>(vs: seq<Option<T>>, i: nat)
    requires i < |vs|
    ensures Latest(vs[..i + 1]) == if vs[i].Some? then vs[i] else Latest(vs[..i])
  {
    assert vs[..i + 1][..i] == vs[..i];
  }

  /** The record after the four in-place field updates of the loop. */
  function Scanned(pkg: Package, lines: seq<string>): Package {
    pkg.(description := LastValue(lines, Description).GetOr(pkg.description),
         repo := LastValue(lines, Repository).GetOr(pkg.repo),
         architecture := LastValue(lines, Architecture).GetOr(pkg.architecture),
         installDate := LastValue(lines, InstallDate).GetOr(pkg.installDate))
  }

  /** The record `fillDetails` leaves behind for the given detail output. */
  function Enriched(pkg: Package, lines: seq<string>): (r: Package)
    ensures r.name == pkg.name && r.version == pkg.version
    ensures r.isForeign == pkg.isForeign && r.isExplicit == pkg.isExplicit
    ensures forall k :: 0 <= k < |r.dependsOn| ==> IsName(r.dependsOn[k])
    ensures forall k :: 0 <= k < |r.requiredBy| ==> IsName(r.requiredBy[k])
  {
    var deps := LastValue(lines, DependsOn).GetOr("");
    var reqs := LastValue(lines, RequiredBy).GetOr("");
    Scanned(pkg, lines).(dependsOn := DepList(deps), requiredBy := DepList(reqs))
  }

  /** `fillDetails` reports success exactly when some line carried a
      description or a repository, even a blank one. */
  predicate Summarised(lines: seq<string>) {
    LastValue(lines, Description).Some? || LastValue(lines, Repository).Some?
  }

  /** Whether `fillDetails` would run the query for this record. */
  predicate NeedsQuery(pkg: Package) {
    pkg.description == "" && pkg.repo == ""
  }

  /** The variables of the `fillDetails` loop: the record being filled, the
      success flag and the two raw dependency values. */
  datatype Scan = Scan(pkg: Package, ok: bool, dependsRaw: string, requiredByRaw: string)

  /** What one line does to them: the field it belongs to takes the value
      after its colon, if it has one. */
  function StepLine(s: Scan, raw: string): (r: Scan)
    ensures r.pkg.name == s.pkg.name && r.pkg.version == s.pkg.version
    ensures r.pkg.dependsOn == s.pkg.dependsOn && r.pkg.requiredBy == s.pkg.requiredBy
    ensures r.pkg.isForeign == s.pkg.isForeign && r.pkg.isExplicit == s.pkg.isExplicit
    ensures s.ok ==> r.ok
    ensures Matched(StripNewline(raw)).None? || ColonValue(StripNewline(raw)).None? ==> r == s
  {
    var l := StripNewline(raw);
    var v := ColonValue(l);
    if v.None? then s
    else match Matched(l)
      case Some(Description) => s.(pkg := s.pkg.(description := v.value), ok := true)
      case Some(Repository) => s.(pkg := s.pkg.(repo := v.value), ok := true)
      case Some(Architecture) => s.(pkg := s.pkg.(architecture := v.value))
      case Some(InstallDate) => s.(pkg := s.pkg.(installDate := v.value))
      case Some(DependsOn) => s.(dependsRaw := v.value)
      case Some(RequiredBy) => s.(requiredByRaw := v.value)
      case None => s
  }

  /** The loop variables after the given lines, read field by field off the
      last line carrying each field. */
  function ScanOf(pkg: Package, lines: seq<string>): Scan {
    Scan(Scanned(pkg, lines), Summarised(lines),
         LastValue(lines, DependsOn).GetOr(""), LastValue(lines, RequiredBy).GetOr(""))
  }

  /** Stepping line by line agrees with reading each field's last line. */
  lemma ScanOfStep(pkg: Package, lines: seq<string>, i: nat)
    requires i < |lines|
    ensures ScanOf(pkg, lines[..i + 1]) == StepLine(ScanOf(pkg, lines[..i]), lines[i])
  {
    ScanStep(lines, i, Description);
    ScanStep(lines, i, Repository);
    ScanStep(lines, i, Architecture);
    ScanStep(lines, i, InstallDate);
    ScanStep(lines, i, DependsOn);
    ScanStep(lines, i, RequiredBy);
  }

  /** One pass of the `fillDetails` loop: the line sets at most one field. */
  method ScanLine(raw: string, pkg: Package, ok: bool, dependsRaw: string, requiredByRaw: string)
    returns (pkg': Package, ok': bool, dependsRaw': string, requiredByRaw': string)
    ensures Scan(pkg', ok', dependsRaw', requiredByRaw') == StepLine(Scan(pkg, ok, dependsRaw, requiredByRaw), raw)
  {
    pkg', ok', dependsRaw', requiredByRaw' := pkg, ok, dependsRaw, requiredByRaw;
    var line := raw;
    if line != [] && line[|line| - 1] == '\n' {
      line := line[..|line| - 1];
    }
    assert line == StripNewline(raw);
    if StartsWith(line, Label(Description)) {
      var value := ValueAfterColon(line);
      if value.Some? {
        pkg' := pkg'.(description := value.value);
        ok' := true;
      }
    } else if StartsWith(line, Label(Repository)) {
      var value := ValueAfterColon(line);
      if value.Some? {
        pkg' := pkg'.(repo := value.value);
        ok' := true;
      }
    } else if StartsWith(line, Label(Architecture)) {
      var value := ValueAfterColon(line);
      if value.Some? {
        pkg' := pkg'.(architecture := value.value);
      }
    } else if StartsWith(line, Label(InstallDate)) {
      var value := ValueAfterColon(line);
      if value.Some? {
        pkg' := pkg'.(installDate := value.value);
      }
    } else if StartsWith(line, Label(DependsOn)) {
      var value := ValueAfterColon(line);
      if value.Some? {
        dependsRaw' := value.value;
      }
    } else if StartsWith(line, Label(RequiredBy)) {
      var value := ValueAfterColon(line);
      if value.Some? {
        requiredByRaw' := value.value;
      }
    }
  }

  /** `fillDetails`: a record with a description or repository is already
      filled and reported as such; a failed `popen` reports failure and
      leaves the record alone; otherwise every line is scanned and the
      dependency lists are always replaced. */
  method FillDetails(pkg: Package, output: Option<seq<string>>) returns (ok: bool, filled: Package)
    ensures !NeedsQuery(pkg) ==> ok && filled == pkg
    ensures NeedsQuery(pkg) && output.None? ==> !ok && filled == pkg
    ensures NeedsQuery(pkg) && output.Some? ==>
      ok == Summarised(output.value) && filled == Enriched(pkg, output.value)
  {
    filled := pkg;
    if pkg.description != "" || pkg.repo != "" {
      return true, pkg;
    }
    if output.None? {
      return false, pkg;
    }
    var lines := output.value;
    ok := false;
    var dependsRaw := "";
    var requiredByRaw := "";
    for i := 0 to |lines|
      invariant Scan(filled, ok, dependsRaw, requiredByRaw) == ScanOf(pkg, lines[..i])
    {
      ScanOfStep(pkg, lines, i);
      filled, ok, dependsRaw, requiredByRaw := ScanLine(lines[i], filled, ok, dependsRaw, requiredByRaw);
    }
    assert lines[..|lines|] == lines;
    var depends := SplitDepList(dependsRaw);
    var requiredBy := SplitDepList(requiredByRaw);
    filled := filled.(dependsOn := depends, requiredBy := requiredBy);
  }

  /** "<key><padding>: <value>" has the value after its first colon, when
      neither the key nor the padding holds a colon. */
  lemma {:induction false} ColonLineValue(key: string, pad: string, value: string)
    requires ':' !in key
    requires forall i :: 0 <= i < |pad| ==> pad[i] == ' '
    requires value != [] ==> !IsSpace(value[0]) && !IsSpace(value[|value| - 1])
    ensures ColonValue(key + pad + ": " + value) == Some(value)
  {
    var l := key + pad + ": " + value;
    var c := |key| + |pad|;
    assert l[c] == ':';
    forall j | 0 <= j < c
      ensures l[j] != ':'
    {
      if j < |key| {
        assert l[j] == key[j];
      } else {
        assert l[j] == pad[j - |key|];
      }
    }
    assert Find(l, ':') == c;
    assert l[c + 1..] == " " + value;
    TrimAfterSpace(value);
  }

  /** A `pacman -Qi` line "<label><padding>: <value>" sets its field to the
      value, whatever colons the value itself holds. */
  lemma FieldLineValue(f: Field, pad: string, value: string)
    requires forall i :: 0 <= i < |pad| ==> pad[i] == ' '
    requires value != [] ==> !IsSpace(value[0]) && !IsSpace(value[|value| - 1])
    ensures FieldValue(Label(f) + pad + ": " + value + "\n", f) == Some(value)
  {
    var l := Label(f) + pad + ": " + value;
    assert StripNewline(l + "\n") == l;
    assert l[..|Label(f)|] == Label(f);
    MatchedIffLabel(l, f);
    ColonLineValue(Label(f), pad, value);
  }

  /** Without a "Depends On" line the dependency list comes out empty. */
  lemma AbsentDependsGivesNothing(pkg: Package, lines: seq<string>)
    requires forall k :: 0 <= k < |lines| ==> !StartsWith(StripNewline(lines[k]), Label(DependsOn))
    ensures Enriched(pkg, lines).dependsOn == []
  {
    var vs := FieldValues(lines, DependsOn);
    forall k | 0 <= k < |lines|
      ensures vs[k].None?
    {
      MatchedIffLabel(StripNewline(lines[k]), DependsOn);
    }
    LatestIsLast(vs);
    NoneAndEmptyGiveNothing();
  }

  /** The last description line decides the description; when its value is
      not blank the call reports success and the filled record is not
      queried again. */
  lemma LastDescriptionWins(pkg: Package, lines: seq<string>, k: nat, d: string)
    requires NeedsQuery(pkg)
    requires k < |lines| && FieldValue(lines[k], Description) == Some(d)
    requires forall j :: k < j < |lines| ==> FieldValue(lines[j], Description).None?
    ensures Summarised(lines)
    ensures Enriched(pkg, lines).description == d
    ensures d != "" ==> !NeedsQuery(Enriched(pkg, lines))
  {
    LatestAt(FieldValues(lines, Description), k);
  }

  /** When every description and repository value is blank, `fillDetails`
      may report success yet the record still looks unfilled, so the next
      call runs the query again. */
  lemma {:induction false} BlankSummaryQueriesAgain(pkg: Package, lines: seq<string>)
    requires NeedsQuery(pkg)
    requires forall k :: 0 <= k < |lines| ==> FieldValue(lines[k], Description).GetOr("") == ""
    requires forall k :: 0 <= k < |lines| ==> FieldValue(lines[k], Repository).GetOr("") == ""
    ensures NeedsQuery(Enriched(pkg, lines))
  {
    LatestIsLast(FieldValues(lines, Description));
    LatestIsLast(FieldValues(lines, Repository));
  }

  /** The line "Description     : " is such a blank summary: it alone makes
      the call succeed. */
  lemma BlankDescriptionSucceeds(line: string)
    requires line == Label(Description) + "     " + ": " + "" + "\n"
    ensures FieldValue(line, Description) == Some("")
    ensures FieldValue(line, Repository).None?
    ensures Summarised([line])
  {
    FieldLineValue(Description, "     ", "");
    MatchedIffLabel(StripNewline(line), Repository);
    assert FieldValues([line], Description) == [Some("")];
  }
}
