/** The package record shared by the providers and the view-state engine
    (struct `Package` of include/PackageManager.h). */
module PackageModel {

  /** One row of the package database. The two flags default to false in
      the source; no provider of the source ever sets them. */
  datatype Package = Package(
    name: string,
    version: string,
    description: string,
    repo: string,
    architecture: string,
    installDate: string,
    dependsOn: seq<string>,
    requiredBy: seq<string>,
    isForeign: bool,
    isExplicit: bool)

  /** A freshly listed record: name and version set, every detail field
      empty and both flags at their default `false`. */
  function NewPackage(name: string, version: string): (p: Package)
    ensures p.name == name && p.version == version
    ensures HasNoDetails(p) && !p.isForeign && !p.isExplicit
  {
    Package(name, version, "", "", "", "", [], [], false, false)
  }

  /** None of the lazily filled detail fields holds anything yet. */
  predicate HasNoDetails(p: Package) {
    p.description == "" && p.repo == "" && p.architecture == "" &&
    p.installDate == "" && p.dependsOn == [] && p.requiredBy == []
  }
}
