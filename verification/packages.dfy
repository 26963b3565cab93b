/** Package records of the ALPM databases as the backend sees them, the two
    identity predicates `pkg_equal` and `pkg_equals_to`, the search hits
    annotated with their database and installed flag (`PackageSource`), and
    the events a backend handler emits towards the daemon. */
module Packages {
  import opened Common
  import opened PackageIds

  /** A package record (`pmpkg_t`), reduced to the fields the backend reads;
      the architecture may be absent (NULL). */
  datatype Pkg = Pkg(name: string, version: string, arch: Option<string>, desc: string)

  /** `pkg_equal`: same name and same version, each compared exactly. */
  predicate PkgEqual(p1: Pkg, p2: Pkg) {
    p1.name == p2.name && p1.version == p2.version
  }

  /** `pkg_equals_to`: the name matches, and so does the version unless it
      is absent (NULL). */
  predicate PkgEqualsTo(pkg: Pkg, name: string, version: Option<string>) {
    pkg.name == name && (version.None? || pkg.version == version.value)
  }

  /** `pkg_equal` is an equivalence, and it is `pkg_equals_to` against the
      other package's name and version; `pkg_equals_to` without a version
      compares names only. */
  lemma PkgIdentity(p: Pkg, q: Pkg, s: Pkg)
    ensures PkgEqual(p, p)
    ensures PkgEqual(p, q) == PkgEqual(q, p)
    ensures PkgEqual(p, q) && PkgEqual(q, s) ==> PkgEqual(p, s)
    ensures PkgEqual(p, q) <==> PkgEqualsTo(p, q.name, Some(q.version))
    ensures PkgEqualsTo(p, q.name, None) <==> p.name == q.name
  {
  }

  /** A search hit (`PackageSource`): the record, the name of the database
      it came from, and whether it counts as installed. */
  datatype PackageSource = PackageSource(pkg: Pkg, repo: string, installed: bool)

  /** Kinds of error the backend reports. */
  datatype ErrorKind = TransactionError | PackageNotInstalled | InternalError

  /** Kinds of package announcement. */
  datatype Info = Installed | Available | Downloading

  /** What a handler reports to the daemon, in order. */
  datatype Event =
    | ErrorCode(kind: ErrorKind, details: string)
    | Package(info: Info, id: string, summary: string)
    | StatusRefreshCache
    | Finished

  /** The architecture `add_package` prints when the record has none. */
  const UnknownArch: string := "lala"

  /** The architecture `add_package` announces: the record's, or "lala". */
  function ArchOf(pkg: Pkg): string
  {
    if pkg.arch.Some? then pkg.arch.value else UnknownArch
  }

  /** `add_package`: announce a hit as installed or available under the
      identifier `name;version;arch;repo`, with its description. */
  function AddPackage(source: PackageSource): (e: Event)
    ensures e.Package?
    ensures e.info == Installed <==> source.installed
    ensures e.info == Available <==> !source.installed
    ensures e.summary == source.pkg.desc
  {
    var id := PackageId(source.pkg.name, source.pkg.version, ArchOf(source.pkg), source.repo);
    Package(if source.installed then Installed else Available, id, source.pkg.desc)
  }

  /** The identifier `add_package` announces takes apart into the hit's
      name, version, architecture and database name. */
  lemma AddPackageIdFields(source: PackageSource)
    requires Sep !in source.pkg.name && Sep !in source.pkg.version
    requires Sep !in ArchOf(source.pkg) && Sep !in source.repo
    ensures PackageFromId(AddPackage(source).id) == [source.pkg.name, source.pkg.version, ArchOf(source.pkg), source.repo]
  {
    PackageIdRoundTrip(source.pkg.name, source.pkg.version, ArchOf(source.pkg), source.repo);
  }
}
