/** Name search of the ALPM backend: `find_packages` (one database's hits,
    each annotated with an installed flag), `pkg_is_installed`,
    `filter_packages_installed`, and `backend_search_name`, which parses the
    filter, picks the databases, concatenates their hits, drops local
    duplicates and filters by the installed flag.

    libalpm is an oracle here: `Catalog.search` stands for `alpm_db_search`,
    and database handles are compared by identity as the C pointers are.

    Two pointer-level defects of the C code are not reproduced; the model
    keeps the sequence behaviour the code evidently aims at. The duplicate
    scan of `backend_search_name` and the version scan of `pkg_is_installed`
    read a `PackageSource *` as if it were a `pmpkg_t *`; and removing the
    head node in `filter_packages_installed` and in the duplicate scan never
    moves the caller's head pointer. */
module Search {
  import opened Common
  import opened Strings
  import opened AlpmList
  import opened Packages

  /** A database handle (`pmdb_t *`); `handle` gives it its identity. */
  datatype Db = Db(handle: nat, name: string)

  /** The libalpm session: the local database (absent when it could not be
      registered), the sync databases in configuration order, and the
      substring search `alpm_db_search` as an oracle. */
  datatype Catalog = Catalog(localdb: Option<Db>, syncdbs: seq<Db>, search: (Db, string) -> seq<Pkg>)

  // ---------------------------------------------------------------------
  // find_packages

  /** The inner loop of `find_packages` over the local hits: every
      comparison overwrites the flag. */
  function ScanLocal(local: seq<Pkg>, hit: Pkg, flag: bool): bool
  {
    if |local| == 0 then flag else ScanLocal(local[1..], hit, PkgEqual(local[0], hit))
  }

  /** The flag the inner loop leaves is decided by the last local hit alone. */
  lemma {:induction false} ScanLocalLastWins(local: seq<Pkg>, hit: Pkg, flag: bool)
    ensures ScanLocal(local, hit, flag) == if |local| == 0 then flag else PkgEqual(local[|local| - 1], hit)
  {
    if |local| > 0 {
      ScanLocalLastWins(local[1..], hit, PkgEqual(local[0], hit));
      if |local| > 1 {
        assert local[1..][|local| - 2] == local[|local| - 1];
      }
    }
  }

  /** The local database's hits for `term` (nothing without a local db). */
  function LocalHits(cat: Catalog, term: string): seq<Pkg>
  {
    if cat.localdb.Some? then cat.search(cat.localdb.value, term) else []
  }

  /** `hit` matches (`pkg_equal`) the LAST of the local hits for `term`. */
  predicate LastLocalMatch(cat: Catalog, term: string, hit: Pkg) {
    |LocalHits(cat, term)| > 0 && PkgEqual(LocalHits(cat, term)[|LocalHits(cat, term)| - 1], hit)
  }

  /** `hit` matches (`pkg_equal`) SOME local hit for `term`. */
  predicate AnyLocalMatch(cat: Catalog, term: string, hit: Pkg) {
    exists l :: l in LocalHits(cat, term) && PkgEqual(l, hit)
  }

  /** The installed flag of one hit: the loop's verdict when there are local
      hits to compare with, otherwise whether the hit came from the local
      database itself. */
  function InstalledFlag(local: seq<Pkg>, isLocal: bool, hit: Pkg): bool
  {
    if |local| > 0 then ScanLocal(local, hit, false) else isLocal
  }

  /** Tag every hit with its database name and installed flag, in order. */
  function Annotate(hits: seq<Pkg>, repo: string, local: seq<Pkg>, isLocal: bool): (r: seq<PackageSource>)
    ensures |r| == |hits|
    ensures forall k :: 0 <= k < |hits| ==> r[k].pkg == hits[k] && r[k].repo == repo
    ensures forall k :: 0 <= k < |hits| ==> r[k].installed == InstalledFlag(local, isLocal, hits[k])
  {
    if |hits| == 0 then []
    else [PackageSource(hits[0], repo, InstalledFlag(local, isLocal, hits[0]))] + Annotate(hits[1..], repo, local, isLocal)
  }

  /** `find_packages`: nothing for a NULL database or name; otherwise the
      database's hits in search order, tagged with the database name. Hits of
      the local database are all installed. A hit of another database is
      installed exactly when it matches the last local hit, so never when
      there is no local database or no local hit. */
  function FindPackages(cat: Catalog, name: Option<string>, db: Option<Db>): (r: seq<PackageSource>)
    ensures db.None? || name.None? ==> r == []
    ensures db.Some? && name.Some? ==> |r| == |cat.search(db.value, name.value)|
    ensures db.Some? && name.Some? ==> forall k :: 0 <= k < |r| ==>
              r[k].pkg == cat.search(db.value, name.value)[k] && r[k].repo == db.value.name
    ensures db.Some? && db == cat.localdb ==> forall k :: 0 <= k < |r| ==> r[k].installed
    ensures db.Some? && name.Some? && db != cat.localdb ==> forall k :: 0 <= k < |r| ==>
              r[k].installed == LastLocalMatch(cat, name.value, r[k].pkg)
  {
    if db.None? || name.None? then []
    else
      var hits := cat.search(db.value, name.value);
      var isLocal := db == cat.localdb;
      var local := if !isLocal && cat.localdb.Some? then cat.search(cat.localdb.value, name.value) else [];
      var r := Annotate(hits, db.value.name, local, isLocal);
      forall k | 0 <= k < |r|
        ensures !isLocal ==> r[k].installed == LastLocalMatch(cat, name.value, r[k].pkg)
      {
        ScanLocalLastWins(local, hits[k], false);
      }
      r
  }

  /** A hit flagged as installed by another database's search does match
      some local hit. */
  lemma LastLocalMatchIsAMatch(cat: Catalog, term: string, hit: Pkg)
    requires LastLocalMatch(cat, term, hit)
    ensures AnyLocalMatch(cat, term, hit)
  {
    var local := LocalHits(cat, term);
    assert local[|local| - 1] in local;
  }

  /** With at most one local hit, "matches the last local hit" and "matches
      some local hit" agree. */
  lemma SingleLocalHitAgrees(cat: Catalog, term: string, hit: Pkg)
    requires |LocalHits(cat, term)| <= 1
    ensures LastLocalMatch(cat, term, hit) <==> AnyLocalMatch(cat, term, hit)
  {
    if AnyLocalMatch(cat, term, hit) {
      var l :| l in LocalHits(cat, term) && PkgEqual(l, hit);
      assert LocalHits(cat, term) == [l];
    }
  }

  // ---------------------------------------------------------------------
  // pkg_is_installed

  /** Some hit in `result` has version `version` (the scan loop of
      `pkg_is_installed`). */
  function HasVersion(result: seq<PackageSource>, version: string): (b: bool)
    ensures b <==> exists k :: 0 <= k < |result| && result[k].pkg.version == version
  {
    if |result| == 0 then false
    else if result[0].pkg.version == version then true
    else
      var b := HasVersion(result[1..], version);
      assert forall k :: 1 <= k < |result| ==> result[k] == result[1..][k - 1];
      b
  }

  /** `pkg_is_installed`: false for a NULL name, without a local database, or
      when the local database has no hit for the name; true for a NULL
      version; otherwise true exactly when some local hit has that version. */
  function PkgIsInstalled(cat: Catalog, name: Option<string>, version: Option<string>): (r: bool)
    ensures r <==> name.Some? && cat.localdb.Some? && |cat.search(cat.localdb.value, name.value)| > 0 &&
                   (version.None? || exists p :: p in cat.search(cat.localdb.value, name.value) && p.version == version.value)
  {
    if name.None? then false
    else if cat.localdb.None? then false
    else
      var hits := cat.search(cat.localdb.value, name.value);
      var result := FindPackages(cat, name, cat.localdb);
      if |result| == 0 then false
      else if version.None? then true
      else
        var b := HasVersion(result, version.value);
        assert b ==> exists p :: p in hits && p.version == version.value by {
          if b {
            var k :| 0 <= k < |result| && result[k].pkg.version == version.value;
            assert hits[k] in hits;
          }
        }
        assert (exists p :: p in hits && p.version == version.value) ==> b by {
          if exists p :: p in hits && p.version == version.value {
            var p :| p in hits && p.version == version.value;
            var k :| 0 <= k < |hits| && hits[k] == p;
            assert result[k].pkg.version == version.value;
          }
        }
        b
  }

  // ---------------------------------------------------------------------
  // filter_packages_installed

  /** `filter_packages_installed`: remove every entry whose installed flag
      equals `filter`, keeping the others in order. */
  function FilterInstalled(packages: seq<PackageSource>, filter: bool): (r: seq<PackageSource>)
    ensures |r| <= |packages|
  {
    if |packages| == 0 then []
    else (if packages[0].installed == filter then [] else [packages[0]]) + FilterInstalled(packages[1..], filter)
  }

  /** The filter keeps exactly the entries whose flag differs from `filter`. */
  lemma {:induction false} FilterInstalledMembers(packages: seq<PackageSource>, filter: bool)
    ensures forall x :: x in FilterInstalled(packages, filter) <==> x in packages && x.installed != filter
  {
    if |packages| > 0 {
      FilterInstalledMembers(packages[1..], filter);
      assert packages == [packages[0]] + packages[1..];
    }
  }

  /** Filtering distributes over concatenation: survivors keep their order. */
  lemma {:induction false} FilterInstalledAppend(a: seq<PackageSource>, b: seq<PackageSource>, filter: bool)
    ensures FilterInstalled(a + b, filter) == FilterInstalled(a, filter) + FilterInstalled(b, filter)
  {
    if |a| == 0 {
      assert a + b == b;
    } else {
      assert (a + b)[1..] == a[1..] + b;
      FilterInstalledAppend(a[1..], b, filter);
    }
  }

  /** Filtering one more entry of `packages` appends it or not. */
  lemma FilterInstalledStep(packages: seq<PackageSource>, i: nat, filter: bool)
    requires i < |packages|
    ensures FilterInstalled(packages[..i + 1], filter) ==
              FilterInstalled(packages[..i], filter) + (if packages[i].installed == filter then [] else [packages[i]])
  {
    FilterInstalledAppend(packages[..i], [packages[i]], filter);
    assert packages[..i + 1] == packages[..i] + [packages[i]];
    assert [packages[i]][1..] == [];
  }

  /** A list whose entries all survive is left unchanged. */
  lemma {:induction false} FilterInstalledKeepsAll(packages: seq<PackageSource>, filter: bool)
    requires forall x :: x in packages ==> x.installed != filter
    ensures FilterInstalled(packages, filter) == packages
  {
    if |packages| > 0 {
      FilterInstalledKeepsAll(packages[1..], filter);
      assert packages == [packages[0]] + packages[1..];
    }
  }

  /** The walk of `filter_packages_installed`, visiting the entries in
      order: an entry whose flag equals `filter` is passed over (the C code
      unlinks its node) and every other one is collected in turn. The
      collected entries are exactly the filtered list. */
  method FilterPackagesInstalled(packages: seq<PackageSource>, filter: bool) returns (kept: seq<PackageSource>)
    ensures kept == FilterInstalled(packages, filter)
  {
    kept := [];
    var i := 0;
    while i < |packages|
      invariant 0 <= i <= |packages|
      invariant kept == FilterInstalled(packages[..i], filter)
    {
      FilterInstalledStep(packages, i, filter);
      if packages[i].installed != filter {
        kept := kept + [packages[i]];
      }
      i := i + 1;
    }
    assert packages[..i] == packages;
  }

  // ---------------------------------------------------------------------
  // backend_search_name

  /** The filter token that drops installed packages. */
  const InstalledToken: string := "installed"

  /** The filter token that searches the local database only. */
  const NotInstalledToken: string := "~installed"

  /** The two switches `backend_search_name` derives from the filter:
      `installed` is cleared by the token "installed", `ninstalled` by the
      token "~installed". */
  datatype Filters = Filters(installed: bool, ninstalled: bool)

  /** The separator of filter tokens. */
  const FilterSep: char := ';'

  /** Split the filter on `;` and look for the two known tokens; any other
      token is ignored. */
  function ParseFilter(filter: string): Filters
  {
    var sections := Split(filter, [FilterSep], None);
    Filters(InstalledToken !in sections, NotInstalledToken !in sections)
  }

  /** A filter written as `;`-joined tokens clears `installed` exactly when
      the token "installed" is among them and `ninstalled` exactly when
      "~installed" is; order and unknown tokens play no part. */
  lemma {:induction false} ParseFilterTokens(tokens: seq<string>)
    requires 1 <= |tokens|
    requires forall k :: 0 <= k < |tokens| ==> FilterSep !in tokens[k]
    ensures ParseFilter(Join(tokens, [FilterSep])) == Filters(InstalledToken !in tokens, NotInstalledToken !in tokens)
  {
    SplitJoinChar(tokens, FilterSep, None);
  }

  /** The sync databases as (non-NULL) handles. */
  function SyncHandles(cat: Catalog): (dbs: seq<Option<Db>>)
    ensures |dbs| == |cat.syncdbs|
    ensures forall k :: 0 <= k < |dbs| ==> dbs[k] == Some(cat.syncdbs[k])
  {
    Handles(cat.syncdbs)
  }

  /** Each database as a non-NULL handle. */
  function Handles(dbs: seq<Db>): (hs: seq<Option<Db>>)
    ensures |hs| == |dbs|
    ensures forall k :: 0 <= k < |dbs| ==> hs[k] == Some(dbs[k])
  {
    if |dbs| == 0 then [] else [Some(dbs[0])] + Handles(dbs[1..])
  }

  /** The databases `backend_search_name` queries: all sync databases unless
      "~installed" was given; the local database alone (possibly NULL) when
      only "~installed" was given; none when both tokens were. */
  function QueryDbs(cat: Catalog, f: Filters): (dbs: seq<Option<Db>>)
    ensures f.ninstalled ==> dbs == SyncHandles(cat)
    ensures !f.ninstalled && f.installed ==> dbs == [cat.localdb]
    ensures !f.ninstalled && !f.installed ==> dbs == []
  {
    var dbs := if f.installed && !f.ninstalled then [cat.localdb] else [];
    if f.ninstalled then Merge(dbs, SyncHandles(cat), ListCmp) else dbs
  }

  /** Each database's hits, in database order. */
  function DbHits(cat: Catalog, term: string, dbs: seq<Option<Db>>): (hits: seq<seq<PackageSource>>)
    ensures |hits| == |dbs|
  {
    seq(|dbs|, i requires 0 <= i < |dbs| => FindPackages(cat, Some(term), dbs[i]))
  }

  /** The loop that merges each database's hits onto the result. */
  function SearchDbs(cat: Catalog, term: string, dbs: seq<Option<Db>>, acc: seq<PackageSource>): seq<PackageSource>
  {
    MergeAll(acc, DbHits(cat, term, dbs), ListCmp)
  }

  /** The hits of every database in `dbs`, one database after the other. */
  function AllHits(cat: Catalog, term: string, dbs: seq<Option<Db>>): seq<PackageSource>
  {
    Concat(DbHits(cat, term, dbs))
  }

  /** Merging under `list_cmp_fn` in the search loop concatenates the
      databases' hits in database order. */
  lemma SearchDbsConcatenates(cat: Catalog, term: string, dbs: seq<Option<Db>>, acc: seq<PackageSource>)
    ensures SearchDbs(cat, term, dbs, acc) == acc + AllHits(cat, term, dbs)
  {
    MergeAllListCmpIsConcat(acc, DbHits(cat, term, dbs));
  }

  /** Some entry of `result` is the same package (`pkg_equal`) as `x`. */
  predicate Duplicated(x: PackageSource, result: seq<PackageSource>) {
    exists y :: y in result && PkgEqual(x.pkg, y.pkg)
  }

  /** The duplicate scan: every local entry that is the same package as some
      entry of `result` is unlinked; the rest keep their order. */
  function DropDuplicates(local: seq<PackageSource>, result: seq<PackageSource>): (r: seq<PackageSource>)
    ensures forall x :: x in r <==> x in local && !Duplicated(x, result)
    ensures |r| <= |local|
  {
    if |local| == 0 then []
    else (if Duplicated(local[0], result) then [] else [local[0]]) + DropDuplicates(local[1..], result)
  }

  /** The scan distributes over concatenation of the local hits: the
      survivors keep their order and their number. */
  lemma {:induction false} DropDuplicatesAppend(a: seq<PackageSource>, b: seq<PackageSource>, result: seq<PackageSource>)
    ensures DropDuplicates(a + b, result) == DropDuplicates(a, result) + DropDuplicates(b, result)
  {
    if |a| == 0 {
      assert a + b == b;
    } else {
      assert (a + b)[1..] == a[1..] + b;
      DropDuplicatesAppend(a[1..], b, result);
    }
  }

  /** Local hits none of which is the same package as a result entry are
      all kept, in order. */
  lemma {:induction false} DropDuplicatesKeepsAll(local: seq<PackageSource>, result: seq<PackageSource>)
    requires forall x :: x in local ==> !Duplicated(x, result)
    ensures DropDuplicates(local, result) == local
  {
    if |local| > 0 {
      DropDuplicatesKeepsAll(local[1..], result);
      assert local == [local[0]] + local[1..];
    }
  }

  /** One pass of the inner loop of the scan for the result entry `y`: the
      local entries that are not the same package as `y`. */
  function DropMatching(local: seq<PackageSource>, y: PackageSource): seq<PackageSource>
  {
    if |local| == 0 then []
    else (if PkgEqual(local[0].pkg, y.pkg) then [] else [local[0]]) + DropMatching(local[1..], y)
  }

  /** A pass keeps exactly the entries that are not the same package as
      `y`. */
  lemma {:induction false} DropMatchingMembers(local: seq<PackageSource>, y: PackageSource)
    ensures forall x :: x in DropMatching(local, y) <==> x in local && !PkgEqual(x.pkg, y.pkg)
  {
    if |local| > 0 {
      DropMatchingCons(local[0], local[1..], y);
      DropMatchingMembers(local[1..], y);
      assert local == [local[0]] + local[1..];
    }
  }

  /** A pass over an entry followed by more entries. */
  lemma DropMatchingCons(x: PackageSource, rest: seq<PackageSource>, y: PackageSource)
    ensures DropMatching([x] + rest, y) == (if PkgEqual(x.pkg, y.pkg) then [] else [x]) + DropMatching(rest, y)
  {
    assert ([x] + rest)[0] == x && ([x] + rest)[1..] == rest;
  }

  /** One pass distributes over concatenation. */
  lemma {:induction false} DropMatchingAppend(a: seq<PackageSource>, b: seq<PackageSource>, y: PackageSource)
    ensures DropMatching(a + b, y) == DropMatching(a, y) + DropMatching(b, y)
  {
    if |a| == 0 {
      assert a + b == b;
    } else {
      var x, tail := a[0], a[1..];
      var head := if PkgEqual(x.pkg, y.pkg) then [] else [x];
      assert a == [x] + tail;
      assert a + b == [x] + (tail + b);
      DropMatchingCons(x, tail + b, y);
      DropMatchingCons(x, tail, y);
      DropMatchingAppend(tail, b, y);
      assert head + (DropMatching(tail, y) + DropMatching(b, y)) == (head + DropMatching(tail, y)) + DropMatching(b, y);
    }
  }

  /** A pass over a single entry keeps it unless it is the same package. */
  lemma DropMatchingSingle(x: PackageSource, y: PackageSource)
    ensures DropMatching([x], y) == if PkgEqual(x.pkg, y.pkg) then [] else [x]
  {
    assert [x][1..] == [];
  }

  /** One more local entry seen by a pass is appended or dropped. */
  lemma {:induction false} DropMatchingStep(local: seq<PackageSource>, j: nat, y: PackageSource)
    requires j < |local|
    ensures DropMatching(local[..j + 1], y) ==
              DropMatching(local[..j], y) + (if PkgEqual(local[j].pkg, y.pkg) then [] else [local[j]])
  {
    assert local[..j + 1] == local[..j] + [local[j]];
    DropMatchingAppend(local[..j], [local[j]], y);
    DropMatchingSingle(local[j], y);
  }

  /** A pass for one more result entry over what the scan kept so far is
      the scan against the longer result. */
  lemma {:induction false} DropDuplicatesExtend(local: seq<PackageSource>, result: seq<PackageSource>, y: PackageSource)
    ensures DropMatching(DropDuplicates(local, result), y) == DropDuplicates(local, result + [y])
  {
    if |local| > 0 {
      var x := local[0];
      var head := if Duplicated(x, result) then [] else [x];
      DropDuplicatesExtend(local[1..], result, y);
      DropMatchingAppend(head, DropDuplicates(local[1..], result), y);
      assert Duplicated(x, result + [y]) <==> Duplicated(x, result) || PkgEqual(x.pkg, y.pkg) by {
        if PkgEqual(x.pkg, y.pkg) {
          assert y in result + [y];
        }
        if Duplicated(x, result) {
          var z :| z in result && PkgEqual(x.pkg, z.pkg);
          assert z in result + [y];
        }
      }
      assert [x][1..] == [];
    }
  }

  /** The inner loop of the scan for the result entry `y`: every local
      entry that is the same package is unlinked, the others are stepped
      past, in order. */
  method DropMatchingLoop(local: seq<PackageSource>, y: PackageSource) returns (next: seq<PackageSource>)
    ensures next == DropMatching(local, y)
  {
    next := [];
    var j := 0;
    while j < |local|
      invariant 0 <= j <= |local|
      invariant next == DropMatching(local[..j], y)
    {
      DropMatchingStep(local, j, y);
      if !PkgEqual(local[j].pkg, y.pkg) {
        next := next + [local[j]];
      }
      j := j + 1;
    }
    assert local[..j] == local;
  }

  /** The nested loops of the scan in `backend_search_name`: for each result
      entry in turn, every local entry that is the same package is unlinked
      and the others are stepped past. What is left is the functional scan,
      so the survivors keep their order. */
  method DropDuplicatesLoop(local: seq<PackageSource>, result: seq<PackageSource>) returns (kept: seq<PackageSource>)
    ensures kept == DropDuplicates(local, result)
  {
    kept := local;
    DropDuplicatesKeepsAll(local, []);
    assert result[..0] == [];
    var i := 0;
    while i < |result|
      invariant 0 <= i <= |result|
      invariant kept == DropDuplicates(local, result[..i])
    {
      var y := result[i];
      var next := DropMatchingLoop(kept, y);
      DropDuplicatesExtend(local, result[..i], y);
      PrefixStep(result, i);
      kept := next;
      i := i + 1;
    }
    assert result[..i] == result;
  }

  /** What `backend_search_name` hands back: the entries it announces and
      every event it emits, in order. */
  datatype SearchOutcome = SearchOutcome(results: seq<PackageSource>, events: seq<Event>)

  /** One `Package` event per entry, in order. */
  function Announce(results: seq<PackageSource>): (es: seq<Event>)
    ensures |es| == |results|
    ensures forall k :: 0 <= k < |results| ==> es[k] == AddPackage(results[k])
  {
    if |results| == 0 then [] else [AddPackage(results[0])] + Announce(results[1..])
  }

  /** The error `backend_search_name` reports when a search over both kinds
      of package finds no local database. */
  const NoLocalDb: Event := ErrorCode(InternalError, "Could not find local db")

  /** The duplicate scan and final merge of a search over both kinds of
      package: the local hits that are not the same package as any entry
      found so far are appended; without a local database nothing is. */
  function MergeLocal(cat: Catalog, term: string, result: seq<PackageSource>): seq<PackageSource>
  {
    if cat.localdb.Some? then
      Merge(result, DropDuplicates(FindPackages(cat, Some(term), cat.localdb), result), ListCmp)
    else Merge(result, [], ListCmp)
  }

  /** The two calls of `filter_packages_installed` at the end of the search. */
  function ApplyFilters(f: Filters, merged: seq<PackageSource>): seq<PackageSource>
  {
    var r1 := if !f.installed then FilterInstalled(merged, true) else merged;
    if !f.ninstalled then FilterInstalled(r1, false) else r1
  }

  /** The entries `backend_search_name` announces. */
  function SearchResults(cat: Catalog, f: Filters, term: string): seq<PackageSource>
  {
    var result := SearchDbs(cat, term, QueryDbs(cat, f), []);
    ApplyFilters(f, if f.ninstalled && f.installed then MergeLocal(cat, term, result) else result)
  }

  /** `backend_search_name`: the entries found, announced one by one, after
      the missing-local-database error if a search over both kinds of
      package has no local database, and then the end of the operation. */
  function SearchName(cat: Catalog, filter: string, term: string): SearchOutcome
  {
    var f := ParseFilter(filter);
    var results := SearchResults(cat, f, term);
    var errors := if f.ninstalled && f.installed && cat.localdb.None? then [NoLocalDb] else [];
    SearchOutcome(results, errors + Announce(results) + [Finished])
  }

  /** The sync databases' hits, one database after the other. */
  function SyncHits(cat: Catalog, term: string): seq<PackageSource>
  {
    AllHits(cat, term, SyncHandles(cat))
  }

  /** Announcements are `Package` events only. */
  lemma {:induction false} AnnounceOnlyPackages(results: seq<PackageSource>)
    ensures Finished !in Announce(results) && NoLocalDb !in Announce(results)
  {
    if |results| > 0 {
      AnnounceOnlyPackages(results[1..]);
      assert Announce(results) == [AddPackage(results[0])] + Announce(results[1..]);
    }
  }

  /** The shape of the search's event stream: optional errors, one
      announcement per entry, then the end. */
  lemma AnnouncedEvents(errors: seq<Event>, results: seq<PackageSource>)
    requires errors == [] || errors == [NoLocalDb]
    ensures var events := errors + Announce(results) + [Finished];
      && events[|events| - 1] == Finished
      && Count(events, Finished) == 1
      && (NoLocalDb in events <==> errors == [NoLocalDb])
      && events[|errors|..|events| - 1] == Announce(results)
  {
    var ann := Announce(results);
    var events := errors + ann + [Finished];
    AnnounceOnlyPackages(results);
    CountAppend(errors + ann, [Finished], Finished);
    CountAppend(errors, ann, Finished);
    assert events[|errors|..|events| - 1] == ann;
  }

  /** The search announces every entry it keeps, in order, after at most
      the missing-local-database error, and finishes exactly once, last. */
  lemma SearchNameEvents(cat: Catalog, filter: string, term: string)
    ensures var out := SearchName(cat, filter, term);
      && out.events[|out.events| - 1] == Finished
      && Count(out.events, Finished) == 1
      && out.events[|out.events| - 1 - |out.results|..|out.events| - 1] == Announce(out.results)
      && (NoLocalDb in out.events <==> ParseFilter(filter) == Filters(true, true) && cat.localdb.None?)
  {
    var f := ParseFilter(filter);
    var results := SearchResults(cat, f, term);
    var errors := if f.ninstalled && f.installed && cat.localdb.None? then [NoLocalDb] else [];
    assert SearchName(cat, filter, term) == SearchOutcome(results, errors + Announce(results) + [Finished]);
    AnnouncedEvents(errors, results);
  }

  /** With the token "installed" (and not "~installed") only the sync
      databases are searched and every entry flagged installed is dropped. */
  lemma SearchNameInstalledToken(cat: Catalog, filter: string, term: string)
    requires ParseFilter(filter) == Filters(false, true)
    ensures SearchName(cat, filter, term).results == FilterInstalled(SyncHits(cat, term), true)
    ensures forall x :: x in SearchName(cat, filter, term).results ==> !x.installed
  {
    var f := Filters(false, true);
    assert QueryDbs(cat, f) == SyncHandles(cat);
    SearchDbsConcatenates(cat, term, SyncHandles(cat), []);
    assert SearchDbs(cat, term, SyncHandles(cat), []) == SyncHits(cat, term);
    assert SearchResults(cat, f, term) == FilterInstalled(SyncHits(cat, term), true);
    FilterInstalledMembers(SyncHits(cat, term), true);
  }

  /** With the token "~installed" (and not "installed") only the local
      database is searched, and since all its hits are installed the filter
      keeps them all. */
  lemma SearchNameNotInstalledToken(cat: Catalog, filter: string, term: string)
    requires ParseFilter(filter) == Filters(true, false)
    ensures SearchName(cat, filter, term).results == FindPackages(cat, Some(term), cat.localdb)
    ensures forall x :: x in SearchName(cat, filter, term).results ==> x.installed
  {
    var f := Filters(true, false);
    var local := FindPackages(cat, Some(term), cat.localdb);
    assert QueryDbs(cat, f) == [cat.localdb];
    SearchDbsConcatenates(cat, term, [cat.localdb], []);
    assert DbHits(cat, term, [cat.localdb]) == [local];
    assert Concat([local]) == local + Concat([]);
    assert SearchDbs(cat, term, [cat.localdb], []) == local;
    FilterInstalledKeepsAll(local, false);
    assert SearchResults(cat, f, term) == local;
  }

  /** With both tokens nothing is searched and nothing is announced. */
  lemma SearchNameBothTokens(cat: Catalog, filter: string, term: string)
    requires ParseFilter(filter) == Filters(false, false)
    ensures SearchName(cat, filter, term).results == []
  {
    var f := Filters(false, false);
    assert QueryDbs(cat, f) == [];
    assert SearchResults(cat, f, term) == [];
  }

  /** The entries of a search over both kinds of package: the sync hits in
      database order, then the local hits that are not the same package as
      any sync hit; without a local database, the sync hits alone. */
  lemma SearchResultsBoth(cat: Catalog, term: string)
    ensures SearchResults(cat, Filters(true, true), term) ==
              SyncHits(cat, term) + (if cat.localdb.Some? then DropDuplicates(FindPackages(cat, Some(term), cat.localdb), SyncHits(cat, term)) else [])
  {
    var f := Filters(true, true);
    var sync := SyncHits(cat, term);
    assert QueryDbs(cat, f) == SyncHandles(cat);
    SearchDbsConcatenates(cat, term, SyncHandles(cat), []);
    assert SearchDbs(cat, term, SyncHandles(cat), []) == sync;
    if cat.localdb.Some? {
      MergeListCmpIsConcat(sync, DropDuplicates(FindPackages(cat, Some(term), cat.localdb), sync));
    } else {
      assert sync + [] == sync;
    }
  }

  /** Without either token the sync hits come first in database order, then
      the local hits that are not the same package as any sync hit. Without
      a local database the sync hits alone are kept and an internal error is
      reported first. */
  lemma SearchNameBoth(cat: Catalog, filter: string, term: string)
    requires ParseFilter(filter) == Filters(true, true)
    ensures cat.localdb.Some? ==>
              SearchName(cat, filter, term).results ==
              SyncHits(cat, term) + DropDuplicates(FindPackages(cat, Some(term), cat.localdb), SyncHits(cat, term))
    ensures cat.localdb.None? ==> SearchName(cat, filter, term).results == SyncHits(cat, term)
    ensures cat.localdb.None? ==> SearchName(cat, filter, term).events[0] == NoLocalDb
  {
    SearchResultsBoth(cat, term);
    if cat.localdb.None? {
      assert SyncHits(cat, term) + [] == SyncHits(cat, term);
    }
  }
}
