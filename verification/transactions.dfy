/** The transaction-driven operations of the ALPM backend: installing a
    package by id, installing a package file, removing an installed package
    and refreshing the sync databases.

    Each handler is modelled as the trace it produces: the libalpm calls it
    makes, each with the outcome libalpm reported where the handler looks at
    it, interleaved with the events it sends to the daemon. The outcomes are
    inputs, since they depend on the system libalpm manages. A small state
    machine describes the transaction lifecycle the handlers rely on (init,
    add target, prepare, commit, release), and the lemmas relate each
    handler's calls to it. */
module Transactions {
  import opened Common
  import opened Packages
  import opened PackageIds
  import opened Search

  /** `pmtranstype_t`: what a transaction does. */
  datatype TransKind = SyncKind | RemoveKind | AddKind

  /** `pmtransflag_t` bits the backend sets. */
  datatype TransFlag = NoDeps | Cascade

  /** A libalpm call, with the reported success where the handler tests it.
      `alpm_trans_addtarget`'s result is never looked at. */
  datatype LibCall =
    | TransInit(kind: TransKind, flags: set<TransFlag>, ok: bool)
    | AddTarget(target: string)
    | Prepare(ok: bool)
    | Commit(ok: bool)
    | Release
    | DbUpdate(force: bool, db: Db, ok: bool)

  /** One step of a handler: a library call or an event sent to the daemon. */
  datatype Step = Call(call: LibCall) | Emit(event: Event)

  /** What libalpm reports for the stages of one transaction, and the text
      of `alpm_strerror(pm_errno)` should one of them fail. */
  datatype Outcomes = Outcomes(initOk: bool, prepareOk: bool, commitOk: bool, reason: string)

  // ---------------------------------------------------------------------
  // Projections of a trace

  /** The events of a trace, in order. */
  function Events(t: seq<Step>): (es: seq<Event>)
    ensures |es| <= |t|
  {
    if |t| == 0 then []
    else (if t[0].Emit? then [t[0].event] else []) + Events(t[1..])
  }

  /** The library calls of a trace, in order. */
  function Calls(t: seq<Step>): (cs: seq<LibCall>)
    ensures |cs| <= |t|
    ensures |cs| + |Events(t)| == |t|
  {
    if |t| == 0 then []
    else (if t[0].Call? then [t[0].call] else []) + Calls(t[1..])
  }

  /** Both projections distribute over concatenation. */
  lemma {:induction false} ProjectAppend(a: seq<Step>, b: seq<Step>)
    ensures Events(a + b) == Events(a) + Events(b)
    ensures Calls(a + b) == Calls(a) + Calls(b)
  {
    if |a| == 0 {
      assert a + b == b;
    } else {
      assert (a + b)[1..] == a[1..] + b;
      ProjectAppend(a[1..], b);
      var ea, ca := if a[0].Emit? then [a[0].event] else [], if a[0].Call? then [a[0].call] else [];
      assert ea + (Events(a[1..]) + Events(b)) == (ea + Events(a[1..])) + Events(b);
      assert ca + (Calls(a[1..]) + Calls(b)) == (ca + Calls(a[1..])) + Calls(b);
    }
  }

  /** The projections of a one-step trace. */
  lemma ProjectOne(s: Step)
    ensures Events([s]) == (if s.Emit? then [s.event] else [])
    ensures Calls([s]) == (if s.Call? then [s.call] else [])
  {
    assert [s][1..] == [];
  }

  // ---------------------------------------------------------------------
  // The transaction lifecycle

  /** Where a libalpm transaction stands. */
  datatype TxState = Idle | Initialized | Prepared | Committed

  /** The lifecycle: a transaction is initialised only when none is open
      (and opens only if that succeeds), targets are added and it is prepared
      while initialised, committed once prepared, and released from any open
      state. Databases are updated inside an initialised transaction. A call
      out of turn is refused (None). */
  function Next(s: TxState, c: LibCall): (r: Option<TxState>)
    ensures r.Some? && r.value == Idle ==> c.TransInit? || c.Release?
    ensures c.Release? ==> (r.Some? <==> s != Idle)
  {
    match c
    case TransInit(_, _, ok) => if s == Idle then Some(if ok then Initialized else Idle) else None
    case AddTarget(_) => if s == Initialized then Some(Initialized) else None
    case Prepare(ok) => if s == Initialized then Some(if ok then Prepared else Initialized) else None
    case Commit(ok) => if s == Prepared then Some(if ok then Committed else Prepared) else None
    case Release => if s != Idle then Some(Idle) else None
    case DbUpdate(_, _, _) => if s == Initialized then Some(Initialized) else None
  }

  /** The state after a sequence of calls, or None if one is out of turn. */
  function Run(s: TxState, cs: seq<LibCall>): Option<TxState>
    decreases |cs|
  {
    if |cs| == 0 then Some(s)
    else match Next(s, cs[0])
      case None => None
      case Some(s') => Run(s', cs[1..])
  }

  /** Running two call sequences one after the other. */
  lemma {:induction false} RunAppend(s: TxState, a: seq<LibCall>, b: seq<LibCall>)
    requires Run(s, a).Some?
    ensures Run(s, a + b) == Run(Run(s, a).value, b)
    decreases |a|
  {
    if |a| == 0 {
      assert a + b == b;
    } else {
      assert (a + b)[0] == a[0] && (a + b)[1..] == a[1..] + b;
      RunAppend(Next(s, a[0]).value, a[1..], b);
    }
  }

  /** The state after a single call. */
  lemma RunOne(s: TxState, c: LibCall)
    ensures Run(s, [c]) == Next(s, c)
  {
    assert [c][1..] == [];
  }

  // ---------------------------------------------------------------------
  // The shared transaction sequence

  /** A failure report: the transaction error with libalpm's reason, then
      the end of the operation. */
  function FailSteps(reason: string): seq<Step>
  {
    [Emit(ErrorCode(TransactionError, reason)), Emit(Finished)]
  }

  /** The sequence install, install-file and remove share: initialise (on
      failure report and stop), add the one target, prepare (on failure
      report, then release), send `afterPrepare`, commit (on failure report,
      then release), and on success release and finish. */
  function RunTransaction(kind: TransKind, flags: set<TransFlag>, target: string, out: Outcomes, afterPrepare: seq<Event>): seq<Step>
  {
    if !out.initOk then [Call(TransInit(kind, flags, false))] + FailSteps(out.reason)
    else
      var begun := Begun(kind, flags, target, out.prepareOk);
      if !out.prepareOk then begun + FailSteps(out.reason) + [Call(Release)]
      else
        var committing := begun + EmitAll(afterPrepare) + [Call(Commit(out.commitOk))];
        if !out.commitOk then committing + FailSteps(out.reason) + [Call(Release)]
        else committing + [Call(Release), Emit(Finished)]
  }

  /** Events sent one after the other. */
  function EmitAll(es: seq<Event>): (t: seq<Step>)
    ensures Events(t) == es && Calls(t) == []
  {
    if |es| == 0 then []
    else
      var rest := EmitAll(es[1..]);
      ProjectAppend([Emit(es[0])], rest);
      ProjectOne(Emit(es[0]));
      assert es == [es[0]] + es[1..];
      [Emit(es[0])] + rest
  }

  /** Whether every stage of the transaction succeeded. */
  predicate AllOk(out: Outcomes) {
    out.initOk && out.prepareOk && out.commitOk
  }

  /** Projections of three pieces put together. */
  lemma Project3(a: seq<Step>, b: seq<Step>, c: seq<Step>)
    ensures Events(a + b + c) == Events(a) + Events(b) + Events(c)
    ensures Calls(a + b + c) == Calls(a) + Calls(b) + Calls(c)
  {
    ProjectAppend(a, b);
    ProjectAppend(a + b, c);
  }

  /** A failure report holds two events and no call. */
  lemma FailStepsProject(reason: string)
    ensures Events(FailSteps(reason)) == [ErrorCode(TransactionError, reason), Finished]
    ensures Calls(FailSteps(reason)) == []
  {
    ProjectAppend([Emit(ErrorCode(TransactionError, reason))], [Emit(Finished)]);
    ProjectOne(Emit(ErrorCode(TransactionError, reason)));
    ProjectOne(Emit(Finished));
    assert FailSteps(reason) == [Emit(ErrorCode(TransactionError, reason))] + [Emit(Finished)];
  }

  /** The three opening calls of the shared sequence. */
  function Begun(kind: TransKind, flags: set<TransFlag>, target: string, prepareOk: bool): seq<Step>
  {
    [Call(TransInit(kind, flags, true)), Call(AddTarget(target)), Call(Prepare(prepareOk))]
  }

  /** The opening holds no event and its three calls. */
  lemma BegunProject(kind: TransKind, flags: set<TransFlag>, target: string, prepareOk: bool)
    ensures Events(Begun(kind, flags, target, prepareOk)) == []
    ensures Calls(Begun(kind, flags, target, prepareOk)) == [TransInit(kind, flags, true), AddTarget(target), Prepare(prepareOk)]
  {
    var c0, c1, c2 := Call(TransInit(kind, flags, true)), Call(AddTarget(target)), Call(Prepare(prepareOk));
    ProjectOne(c0);
    ProjectOne(c1);
    ProjectOne(c2);
    Project3([c0], [c1], [c2]);
    assert Begun(kind, flags, target, prepareOk) == [c0] + [c1] + [c2];
  }

  /** The events the shared sequence should produce: `afterPrepare` exactly
      when initialisation and preparation succeeded, then one transaction
      error if a stage failed, then the end. */
  function ExpectedEvents(out: Outcomes, afterPrepare: seq<Event>): seq<Event>
  {
    (if out.initOk && out.prepareOk then afterPrepare else [])
    + (if AllOk(out) then [] else [ErrorCode(TransactionError, out.reason)]) + [Finished]
  }

  /** The calls the shared sequence should make: initialisation; if it
      succeeded, the target, preparation, commit if preparation succeeded,
      and a release at the very end. */
  function ExpectedCalls(kind: TransKind, flags: set<TransFlag>, target: string, out: Outcomes): seq<LibCall>
  {
    if !out.initOk then [TransInit(kind, flags, false)]
    else [TransInit(kind, flags, true), AddTarget(target), Prepare(out.prepareOk)]
         + (if out.prepareOk then [Commit(out.commitOk)] else []) + [Release]
  }

  /** The shared sequence makes exactly the expected calls and sends
      exactly the expected events. */
  lemma RunTransactionProjects(kind: TransKind, flags: set<TransFlag>, target: string, out: Outcomes, afterPrepare: seq<Event>)
    ensures Events(RunTransaction(kind, flags, target, out, afterPrepare)) == ExpectedEvents(out, afterPrepare)
    ensures Calls(RunTransaction(kind, flags, target, out, afterPrepare)) == ExpectedCalls(kind, flags, target, out)
  {
    FailStepsProject(out.reason);
    if !out.initOk {
      ProjectOne(Call(TransInit(kind, flags, false)));
      ProjectAppend([Call(TransInit(kind, flags, false))], FailSteps(out.reason));
    } else if !out.prepareOk {
      PrepareFailsProjects(kind, flags, target, out, afterPrepare);
    } else {
      CommitProjects(kind, flags, target, out, afterPrepare);
    }
  }

  /** `RunTransactionProjects` when preparation fails. */
  lemma PrepareFailsProjects(kind: TransKind, flags: set<TransFlag>, target: string, out: Outcomes, afterPrepare: seq<Event>)
    requires out.initOk && !out.prepareOk
    ensures Events(RunTransaction(kind, flags, target, out, afterPrepare)) == ExpectedEvents(out, afterPrepare)
    ensures Calls(RunTransaction(kind, flags, target, out, afterPrepare)) == ExpectedCalls(kind, flags, target, out)
  {
    var begun := Begun(kind, flags, target, false);
    var run := RunTransaction(kind, flags, target, out, afterPrepare);
    assert run == begun + FailSteps(out.reason) + [Call(Release)];
    FailStepsProject(out.reason);
    BegunProject(kind, flags, target, false);
    ProjectOne(Call(Release));
    Project3(begun, FailSteps(out.reason), [Call(Release)]);
  }

  /** `RunTransactionProjects` when preparation succeeds. */
  lemma CommitProjects(kind: TransKind, flags: set<TransFlag>, target: string, out: Outcomes, afterPrepare: seq<Event>)
    requires out.initOk && out.prepareOk
    ensures Events(RunTransaction(kind, flags, target, out, afterPrepare)) == ExpectedEvents(out, afterPrepare)
    ensures Calls(RunTransaction(kind, flags, target, out, afterPrepare)) == ExpectedCalls(kind, flags, target, out)
  {
    var committing := Committing(kind, flags, target, out.commitOk, afterPrepare);
    CommittingProjects(kind, flags, target, out.commitOk, afterPrepare);
    var tail := if !out.commitOk then FailSteps(out.reason) + [Call(Release)] else [Call(Release), Emit(Finished)];
    TailProjects(out);
    ProjectAppend(committing, tail);
    assert RunTransaction(kind, flags, target, out, afterPrepare) == committing + tail;
  }

  /** The steps up to the commit call, when preparation succeeded. */
  function Committing(kind: TransKind, flags: set<TransFlag>, target: string, commitOk: bool, afterPrepare: seq<Event>): seq<Step>
  {
    Begun(kind, flags, target, true) + EmitAll(afterPrepare) + [Call(Commit(commitOk))]
  }

  /** Up to the commit the events are those after preparation and the
      calls are the four stages. */
  lemma CommittingProjects(kind: TransKind, flags: set<TransFlag>, target: string, commitOk: bool, afterPrepare: seq<Event>)
    ensures Events(Committing(kind, flags, target, commitOk, afterPrepare)) == afterPrepare
    ensures Calls(Committing(kind, flags, target, commitOk, afterPrepare)) == [TransInit(kind, flags, true), AddTarget(target), Prepare(true), Commit(commitOk)]
  {
    var begun := Begun(kind, flags, target, true);
    BegunProject(kind, flags, target, true);
    ProjectOne(Call(Commit(commitOk)));
    Project3(begun, EmitAll(afterPrepare), [Call(Commit(commitOk))]);
  }

  /** The steps after the commit: on failure the report and a release, on
      success a release and the end. */
  lemma TailProjects(out: Outcomes)
    ensures var tail := if !out.commitOk then FailSteps(out.reason) + [Call(Release)] else [Call(Release), Emit(Finished)];
      && Events(tail) == (if out.commitOk then [] else [ErrorCode(TransactionError, out.reason)]) + [Finished]
      && Calls(tail) == [Release]
  {
    FailStepsProject(out.reason);
    ProjectOne(Call(Release));
    ProjectOne(Emit(Finished));
    ProjectAppend(FailSteps(out.reason), [Call(Release)]);
    ProjectAppend([Call(Release)], [Emit(Finished)]);
    assert [Call(Release), Emit(Finished)] == [Call(Release)] + [Emit(Finished)];
  }

  /** The shared sequence keeps to the lifecycle and always leaves libalpm
      with no transaction open: a transaction that was opened is released
      exactly once, as the last call, and one that failed to open is never
      released. */
  lemma RunTransactionReleases(kind: TransKind, flags: set<TransFlag>, target: string, out: Outcomes, afterPrepare: seq<Event>)
    ensures var cs := Calls(RunTransaction(kind, flags, target, out, afterPrepare));
      && Run(Idle, cs) == Some(Idle)
      && Count(cs, Release) == (if out.initOk then 1 else 0)
      && (out.initOk ==> cs[|cs| - 1] == Release)
  {
    RunTransactionProjects(kind, flags, target, out, afterPrepare);
    ExpectedCallsRelease(kind, flags, target, out);
  }

  /** `RunTransactionReleases` for the expected calls. */
  lemma ExpectedCallsRelease(kind: TransKind, flags: set<TransFlag>, target: string, out: Outcomes)
    ensures var cs := ExpectedCalls(kind, flags, target, out);
      && Run(Idle, cs) == Some(Idle)
      && Count(cs, Release) == (if out.initOk then 1 else 0)
      && (out.initOk ==> cs[|cs| - 1] == Release)
  {
    ExpectedCallsRun(kind, flags, target, out);
    ExpectedCallsCount(kind, flags, target, out);
  }

  /** The expected calls keep to the lifecycle and end with no transaction
      open. */
  lemma ExpectedCallsRun(kind: TransKind, flags: set<TransFlag>, target: string, out: Outcomes)
    ensures Run(Idle, ExpectedCalls(kind, flags, target, out)) == Some(Idle)
  {
    if !out.initOk {
      RunOne(Idle, TransInit(kind, flags, false));
    } else {
      var pre := [TransInit(kind, flags, true), AddTarget(target), Prepare(out.prepareOk)];
      var mid := if out.prepareOk then [Commit(out.commitOk)] else [];
      var afterPre := if out.prepareOk then Prepared else Initialized;
      OpeningRuns(kind, flags, target, out.prepareOk);
      RunAppend(Idle, pre, mid);
      if out.prepareOk {
        RunOne(Prepared, Commit(out.commitOk));
      } else {
        assert Run(afterPre, mid) == Some(Initialized);
      }
      var last := Run(afterPre, mid).value;
      RunAppend(Idle, pre + mid, [Release]);
      RunOne(last, Release);
    }
  }

  /** The expected calls release exactly when the transaction opened, and
      then as the last call. */
  lemma ExpectedCallsCount(kind: TransKind, flags: set<TransFlag>, target: string, out: Outcomes)
    ensures var cs := ExpectedCalls(kind, flags, target, out);
      && Count(cs, Release) == (if out.initOk then 1 else 0)
      && (out.initOk ==> cs[|cs| - 1] == Release)
  {
    var cs := ExpectedCalls(kind, flags, target, out);
    if !out.initOk {
      assert cs[1..] == [];
    } else {
      var pre := [TransInit(kind, flags, true), AddTarget(target), Prepare(out.prepareOk)];
      var mid := if out.prepareOk then [Commit(out.commitOk)] else [];
      assert cs == (pre + mid) + [Release];
      assert forall k :: 0 <= k < |pre + mid| ==> !(pre + mid)[k].Release?;
      ReleasedLast(pre + mid);
    }
  }

  /** Calls without a release followed by one release hold exactly one,
      last. */
  lemma ReleasedLast(calls: seq<LibCall>)
    requires forall k :: 0 <= k < |calls| ==> !calls[k].Release?
    ensures Count(calls + [Release], Release) == 1
    ensures (calls + [Release])[|calls|] == Release
  {
    CountAppend(calls, [Release], Release);
    assert Release !in calls;
    assert [Release][1..] == [];
  }

  /** The three opening calls keep to the lifecycle, leaving the
      transaction prepared exactly when preparation succeeded. */
  lemma OpeningRuns(kind: TransKind, flags: set<TransFlag>, target: string, prepareOk: bool)
    ensures Run(Idle, [TransInit(kind, flags, true), AddTarget(target), Prepare(prepareOk)]) ==
              Some(if prepareOk then Prepared else Initialized)
  {
    var pre := [TransInit(kind, flags, true), AddTarget(target), Prepare(prepareOk)];
    assert pre == [TransInit(kind, flags, true)] + [AddTarget(target)] + [Prepare(prepareOk)];
    RunOne(Idle, TransInit(kind, flags, true));
    RunOne(Initialized, AddTarget(target));
    RunOne(Initialized, Prepare(prepareOk));
    RunAppend(Idle, [TransInit(kind, flags, true)], [AddTarget(target)]);
    RunAppend(Idle, [TransInit(kind, flags, true)] + [AddTarget(target)], [Prepare(prepareOk)]);
  }

  /** The expected events end with exactly one report of the end, and hold
      a transaction error exactly when a stage failed, provided the extra
      events hold neither. */
  lemma ExpectedEventsFinishOnce(out: Outcomes, afterPrepare: seq<Event>)
    requires Finished !in afterPrepare && ErrorCode(TransactionError, out.reason) !in afterPrepare
    ensures var es := ExpectedEvents(out, afterPrepare);
      && |es| > 0 && es[|es| - 1] == Finished && Count(es, Finished) == 1
      && (ErrorCode(TransactionError, out.reason) in es <==> !AllOk(out))
  {
    var pre := if out.initOk && out.prepareOk then afterPrepare else [];
    var err := if AllOk(out) then [] else [ErrorCode(TransactionError, out.reason)];
    CountAppend(pre + err, [Finished], Finished);
    CountAppend(pre, err, Finished);
    assert err != [] ==> err[1..] == [];
    assert [Finished][1..] == [];
  }

  /** The end of the operation is reported exactly once, as the last event,
      by every run of the shared sequence whose extra events do not report
      it themselves; a transaction error is reported exactly when a stage
      failed. */
  lemma RunTransactionFinishesOnce(kind: TransKind, flags: set<TransFlag>, target: string, out: Outcomes, afterPrepare: seq<Event>)
    requires Finished !in afterPrepare && ErrorCode(TransactionError, out.reason) !in afterPrepare
    ensures var es := Events(RunTransaction(kind, flags, target, out, afterPrepare));
      && |es| > 0 && es[|es| - 1] == Finished && Count(es, Finished) == 1
      && (ErrorCode(TransactionError, out.reason) in es <==> !AllOk(out))
  {
    RunTransactionProjects(kind, flags, target, out, afterPrepare);
    ExpectedEventsFinishOnce(out, afterPrepare);
  }

  // ---------------------------------------------------------------------
  // The handlers

  /** The summary `backend_install_package` sends for every package. */
  const DownloadSummary: string := "An HTML widget for GTK+ 2.0"

  /** `backend_install_package`: a sync transaction without dependency
      checks whose one target is the id's name; once prepared, the package is
      announced as downloading. */
  function InstallPackage(packageId: string, out: Outcomes): seq<Step>
  {
    RunTransaction(SyncKind, {NoDeps}, NameOf(packageId), out, [Package(Downloading, packageId, DownloadSummary)])
  }

  /** Installing a package: a sync transaction flagged `NoDeps` whose one
      target is the name in the id; libalpm is left with no transaction
      open, released exactly when one was opened. */
  lemma InstallPackageCalls(packageId: string, out: Outcomes)
    ensures var cs := Calls(InstallPackage(packageId, out));
      && cs[0] == TransInit(SyncKind, {NoDeps}, out.initOk)
      && (out.initOk ==> cs[1] == AddTarget(NameOf(packageId)))
      && Run(Idle, cs) == Some(Idle)
      && Count(cs, Release) == (if out.initOk then 1 else 0)
  {
    var announce := [Package(Downloading, packageId, DownloadSummary)];
    RunTransactionProjects(SyncKind, {NoDeps}, NameOf(packageId), out, announce);
    RunTransactionReleases(SyncKind, {NoDeps}, NameOf(packageId), out, announce);
  }

  /** Installing a package: the download announcement appears exactly when
      the transaction was prepared, an error exactly when a stage failed,
      and the end exactly once, last. */
  lemma InstallPackageEvents(packageId: string, out: Outcomes)
    ensures var es := Events(InstallPackage(packageId, out));
      && (Package(Downloading, packageId, DownloadSummary) in es <==> out.initOk && out.prepareOk)
      && (ErrorCode(TransactionError, out.reason) in es <==> !AllOk(out))
      && |es| > 0 && es[|es| - 1] == Finished && Count(es, Finished) == 1
  {
    var announce := [Package(Downloading, packageId, DownloadSummary)];
    RunTransactionProjects(SyncKind, {NoDeps}, NameOf(packageId), out, announce);
    RunTransactionFinishesOnce(SyncKind, {NoDeps}, NameOf(packageId), out, announce);
  }

  /** `backend_install_file`: an add transaction of the file at `path`,
      without flags. */
  function InstallFile(path: string, out: Outcomes): seq<Step>
  {
    RunTransaction(AddKind, {}, path, out, [])
  }

  /** Installing a file: an add transaction without flags whose one target
      is the path; an error exactly when a stage failed, the end exactly
      once, last, and libalpm left with no transaction open. */
  lemma InstallFileTrace(path: string, out: Outcomes)
    ensures var cs := Calls(InstallFile(path, out));
      && cs[0] == TransInit(AddKind, {}, out.initOk)
      && (out.initOk ==> cs[1] == AddTarget(path))
      && Run(Idle, cs) == Some(Idle)
      && Count(cs, Release) == (if out.initOk then 1 else 0)
    ensures var es := Events(InstallFile(path, out));
      && (ErrorCode(TransactionError, out.reason) in es <==> !AllOk(out))
      && |es| > 0 && es[|es| - 1] == Finished && Count(es, Finished) == 1
  {
    RunTransactionProjects(AddKind, {}, path, out, []);
    RunTransactionReleases(AddKind, {}, path, out, []);
    RunTransactionFinishesOnce(AddKind, {}, path, out, []);
  }

  /** The report `backend_remove_package` sends for a package it cannot
      find installed. */
  const NotInstalled: Event := ErrorCode(PackageNotInstalled, "Package is not installed")

  /** The check `backend_remove_package` makes before opening a
      transaction: the local search for the id's name must give exactly one
      entry, and its package must have exactly that name. */
  predicate RemovableHits(hits: seq<PackageSource>, name: string) {
    |hits| == 1 && hits[0].pkg.name == name
  }

  /** `backend_remove_package`: when the check fails, report the package as
      not installed and finish without touching libalpm; otherwise run a
      remove transaction of the name, cascading exactly when dependants may
      be removed too. `autoremove` is ignored. */
  function RemovePackage(cat: Catalog, packageId: string, allowDeps: bool, autoremove: bool, out: Outcomes): seq<Step>
  {
    var name := NameOf(packageId);
    var hits := FindPackages(cat, Some(name), cat.localdb);
    if !RemovableHits(hits, name) then [Emit(NotInstalled), Emit(Finished)]
    else RunTransaction(RemoveKind, if allowDeps then {Cascade} else {}, name, out, [])
  }

  /** A package that is not found installed under exactly its name is
      reported as such, and libalpm is not called at all. */
  lemma RemoveNotInstalled(cat: Catalog, packageId: string, allowDeps: bool, autoremove: bool, out: Outcomes)
    requires !RemovableHits(FindPackages(cat, Some(NameOf(packageId)), cat.localdb), NameOf(packageId))
    ensures Calls(RemovePackage(cat, packageId, allowDeps, autoremove, out)) == []
    ensures Events(RemovePackage(cat, packageId, allowDeps, autoremove, out)) == [NotInstalled, Finished]
  {
    ProjectOne(Emit(NotInstalled));
    ProjectOne(Emit(Finished));
    ProjectAppend([Emit(NotInstalled)], [Emit(Finished)]);
    assert [Emit(NotInstalled), Emit(Finished)] == [Emit(NotInstalled)] + [Emit(Finished)];
  }

  /** Without a local database nothing is removable. */
  lemma RemoveWithoutLocalDb(cat: Catalog, packageId: string, allowDeps: bool, autoremove: bool, out: Outcomes)
    requires cat.localdb.None?
    ensures Calls(RemovePackage(cat, packageId, allowDeps, autoremove, out)) == []
    ensures Events(RemovePackage(cat, packageId, allowDeps, autoremove, out)) == [NotInstalled, Finished]
  {
    RemoveNotInstalled(cat, packageId, allowDeps, autoremove, out);
  }

  /** A removable package: a remove transaction of exactly the name,
      cascading exactly when `allowDeps` holds, keeping to the lifecycle and
      released exactly when it was opened. */
  lemma RemoveTransactionCalls(cat: Catalog, packageId: string, allowDeps: bool, autoremove: bool, out: Outcomes)
    requires RemovableHits(FindPackages(cat, Some(NameOf(packageId)), cat.localdb), NameOf(packageId))
    ensures var cs := Calls(RemovePackage(cat, packageId, allowDeps, autoremove, out));
      && cs[0].TransInit? && cs[0].kind == RemoveKind && cs[0].ok == out.initOk
      && (Cascade in cs[0].flags <==> allowDeps) && NoDeps !in cs[0].flags
      && (out.initOk ==> cs[1] == AddTarget(NameOf(packageId)))
      && Run(Idle, cs) == Some(Idle)
      && Count(cs, Release) == (if out.initOk then 1 else 0)
  {
    var flags: set<TransFlag> := if allowDeps then {Cascade} else {};
    assert RemovePackage(cat, packageId, allowDeps, autoremove, out) == RunTransaction(RemoveKind, flags, NameOf(packageId), out, []);
    RunTransactionProjects(RemoveKind, flags, NameOf(packageId), out, []);
    RunTransactionReleases(RemoveKind, flags, NameOf(packageId), out, []);
    ExpectedCallsHead(RemoveKind, flags, NameOf(packageId), out);
    assert Cascade in flags <==> allowDeps;
  }

  /** The expected calls start with the initialisation and, when it
      succeeded, the target. */
  lemma ExpectedCallsHead(kind: TransKind, flags: set<TransFlag>, target: string, out: Outcomes)
    ensures var cs := ExpectedCalls(kind, flags, target, out);
      && |cs| > 0 && cs[0] == TransInit(kind, flags, out.initOk)
      && (out.initOk ==> |cs| > 1 && cs[1] == AddTarget(target))
  {
  }

  /** A removable package: an error exactly when a stage failed and the end
      exactly once, last. */
  lemma RemoveTransactionEvents(cat: Catalog, packageId: string, allowDeps: bool, autoremove: bool, out: Outcomes)
    requires RemovableHits(FindPackages(cat, Some(NameOf(packageId)), cat.localdb), NameOf(packageId))
    ensures var es := Events(RemovePackage(cat, packageId, allowDeps, autoremove, out));
      && (ErrorCode(TransactionError, out.reason) in es <==> !AllOk(out))
      && |es| > 0 && es[|es| - 1] == Finished && Count(es, Finished) == 1
  {
    var flags: set<TransFlag> := if allowDeps then {Cascade} else {};
    assert RemovePackage(cat, packageId, allowDeps, autoremove, out) == RunTransaction(RemoveKind, flags, NameOf(packageId), out, []);
    RunTransactionFinishesOnce(RemoveKind, flags, NameOf(packageId), out, []);
  }

  /** `autoremove` makes no difference to removal. */
  lemma RemoveIgnoresAutoremove(cat: Catalog, packageId: string, allowDeps: bool, out: Outcomes)
    ensures RemovePackage(cat, packageId, allowDeps, true, out) == RemovePackage(cat, packageId, allowDeps, false, out)
  {
  }

  /** The per-database loop of `backend_refresh_cache`: update each sync
      database in order; at the first failure report it and finish, and
      finish once all are updated. */
  function UpdateDbs(dbs: seq<Db>, force: bool, updateOk: Db -> bool, reason: string): seq<Step>
  {
    if |dbs| == 0 then [Emit(Finished)]
    else if !updateOk(dbs[0]) then [Call(DbUpdate(force, dbs[0], false))] + FailSteps(reason)
    else [Call(DbUpdate(force, dbs[0], true))] + UpdateDbs(dbs[1..], force, updateOk, reason)
  }

  /** `backend_refresh_cache`: open a sync transaction without flags (on
      failure report and stop), set the refresh status, then update the sync
      databases. The transaction is never released. */
  function RefreshCache(cat: Catalog, force: bool, initOk: bool, updateOk: Db -> bool, reason: string): (t: seq<Step>)
  {
    if !initOk then [Call(TransInit(SyncKind, {}, false))] + FailSteps(reason)
    else [Call(TransInit(SyncKind, {}, true)), Emit(StatusRefreshCache)] + UpdateDbs(cat.syncdbs, force, updateOk, reason)
  }

  /** The number of sync databases updated successfully before the first
      failure (all of them when none fails). */
  function UpdatedPrefix(dbs: seq<Db>, updateOk: Db -> bool): (n: nat)
    ensures n <= |dbs|
  {
    if |dbs| == 0 || !updateOk(dbs[0]) then 0 else 1 + UpdatedPrefix(dbs[1..], updateOk)
  }

  /** The prefix counted by `UpdatedPrefix` holds exactly the databases that
      update successfully before the first failure. */
  lemma {:induction false} UpdatedPrefixMeaning(dbs: seq<Db>, updateOk: Db -> bool)
    ensures var n := UpdatedPrefix(dbs, updateOk);
      && (forall i :: 0 <= i < n ==> updateOk(dbs[i]))
      && (n < |dbs| ==> !updateOk(dbs[n]))
  {
    if |dbs| > 0 && updateOk(dbs[0]) {
      UpdatedPrefixMeaning(dbs[1..], updateOk);
      var n := UpdatedPrefix(dbs, updateOk);
      forall i | 1 <= i < n
        ensures updateOk(dbs[i])
      {
        assert dbs[i] == dbs[1..][i - 1];
      }
      if n < |dbs| {
        assert dbs[n] == dbs[1..][n - 1];
      }
    }
  }

  /** The updates the loop performs, with their outcomes. */
  function Updates(dbs: seq<Db>, force: bool, updateOk: Db -> bool): seq<LibCall>
  {
    if |dbs| == 0 then []
    else if !updateOk(dbs[0]) then [DbUpdate(force, dbs[0], false)]
    else [DbUpdate(force, dbs[0], true)] + Updates(dbs[1..], force, updateOk)
  }

  /** The loop's calls are its updates. */
  lemma {:induction false} UpdateDbsCallsAreUpdates(dbs: seq<Db>, force: bool, updateOk: Db -> bool, reason: string)
    ensures Calls(UpdateDbs(dbs, force, updateOk, reason)) == Updates(dbs, force, updateOk)
  {
    if |dbs| == 0 {
      ProjectOne(Emit(Finished));
    } else {
      var ok := updateOk(dbs[0]);
      var head := [Call(DbUpdate(force, dbs[0], ok))];
      ProjectOne(Call(DbUpdate(force, dbs[0], ok)));
      if !ok {
        FailStepsProject(reason);
        ProjectAppend(head, FailSteps(reason));
      } else {
        ProjectAppend(head, UpdateDbs(dbs[1..], force, updateOk, reason));
        UpdateDbsCallsAreUpdates(dbs[1..], force, updateOk, reason);
      }
    }
  }

  /** The updates are those of the databases up to and including the first
      failing one, in order, all with the same `force`. */
  lemma {:induction false} UpdatesPrefix(dbs: seq<Db>, force: bool, updateOk: Db -> bool)
    ensures var n := UpdatedPrefix(dbs, updateOk);
      var cs := Updates(dbs, force, updateOk);
      && |cs| == (if n < |dbs| then n + 1 else n)
      && (forall i :: 0 <= i < |cs| ==> cs[i] == DbUpdate(force, dbs[i], i < n))
  {
    if |dbs| > 0 && updateOk(dbs[0]) {
      UpdatesPrefix(dbs[1..], force, updateOk);
      var n := UpdatedPrefix(dbs, updateOk);
      assert n == 1 + UpdatedPrefix(dbs[1..], updateOk);
      var rest := Updates(dbs[1..], force, updateOk);
      var cs := [DbUpdate(force, dbs[0], true)] + rest;
      forall i | 1 <= i < |cs|
        ensures cs[i] == DbUpdate(force, dbs[i], i < n)
      {
        assert cs[i] == rest[i - 1];
        assert dbs[1..][i - 1] == dbs[i];
      }
    }
  }

  /** The update loop's calls are the updates of the databases up to and
      including the first failing one, in order, all with the same `force`. */
  lemma UpdateDbsCalls(dbs: seq<Db>, force: bool, updateOk: Db -> bool, reason: string)
    ensures var n := UpdatedPrefix(dbs, updateOk);
      var cs := Calls(UpdateDbs(dbs, force, updateOk, reason));
      && |cs| == (if n < |dbs| then n + 1 else n)
      && (forall i :: 0 <= i < |cs| ==> cs[i] == DbUpdate(force, dbs[i], i < n))
  {
    UpdateDbsCallsAreUpdates(dbs, force, updateOk, reason);
    UpdatesPrefix(dbs, force, updateOk);
  }

  /** The update loop's events: one error if some database failed, then
      the end. */
  lemma {:induction false} UpdateDbsEvents(dbs: seq<Db>, force: bool, updateOk: Db -> bool, reason: string)
    ensures Events(UpdateDbs(dbs, force, updateOk, reason)) ==
      (if UpdatedPrefix(dbs, updateOk) < |dbs| then [ErrorCode(TransactionError, reason), Finished] else [Finished])
  {
    if |dbs| == 0 {
      ProjectOne(Emit(Finished));
    } else {
      var ok := updateOk(dbs[0]);
      var head := [Call(DbUpdate(force, dbs[0], ok))];
      ProjectOne(Call(DbUpdate(force, dbs[0], ok)));
      if !ok {
        FailStepsProject(reason);
        ProjectAppend(head, FailSteps(reason));
      } else {
        ProjectAppend(head, UpdateDbs(dbs[1..], force, updateOk, reason));
        UpdateDbsEvents(dbs[1..], force, updateOk, reason);
      }
    }
  }

  /** The opening of a successful refresh: the transaction call and the
      refresh status. */
  lemma RefreshOpeningProjects()
    ensures var open := [Call(TransInit(SyncKind, {}, true)), Emit(StatusRefreshCache)];
      Events(open) == [StatusRefreshCache] && Calls(open) == [TransInit(SyncKind, {}, true)]
  {
    ProjectOne(Call(TransInit(SyncKind, {}, true)));
    ProjectOne(Emit(StatusRefreshCache));
    ProjectAppend([Call(TransInit(SyncKind, {}, true))], [Emit(StatusRefreshCache)]);
    assert [Call(TransInit(SyncKind, {}, true)), Emit(StatusRefreshCache)] ==
           [Call(TransInit(SyncKind, {}, true))] + [Emit(StatusRefreshCache)];
  }

  /** The projections of a refresh: when the transaction cannot be opened,
      that one call, then the error and the end; otherwise the opening, then
      the update loop. */
  lemma RefreshCacheProjects(cat: Catalog, force: bool, initOk: bool, updateOk: Db -> bool, reason: string)
    ensures var loop := UpdateDbs(cat.syncdbs, force, updateOk, reason);
      && Events(RefreshCache(cat, force, initOk, updateOk, reason)) ==
           (if initOk then [StatusRefreshCache] + Events(loop) else [ErrorCode(TransactionError, reason), Finished])
      && Calls(RefreshCache(cat, force, initOk, updateOk, reason)) ==
           [TransInit(SyncKind, {}, initOk)] + (if initOk then Calls(loop) else [])
  {
    if !initOk {
      FailStepsProject(reason);
      ProjectOne(Call(TransInit(SyncKind, {}, false)));
      ProjectAppend([Call(TransInit(SyncKind, {}, false))], FailSteps(reason));
    } else {
      RefreshOpeningProjects();
      ProjectAppend([Call(TransInit(SyncKind, {}, true)), Emit(StatusRefreshCache)], UpdateDbs(cat.syncdbs, force, updateOk, reason));
    }
  }

  /** Refreshing: the refresh status is set only when the transaction
      opened; an error is reported exactly when opening or an update failed;
      the end is reported exactly once, last. */
  lemma RefreshCacheEvents(cat: Catalog, force: bool, initOk: bool, updateOk: Db -> bool, reason: string)
    ensures var es := Events(RefreshCache(cat, force, initOk, updateOk, reason));
      && (StatusRefreshCache in es <==> initOk)
      && (ErrorCode(TransactionError, reason) in es <==> !initOk || UpdatedPrefix(cat.syncdbs, updateOk) < |cat.syncdbs|)
      && |es| > 0 && es[|es| - 1] == Finished && Count(es, Finished) == 1
  {
    RefreshCacheProjects(cat, force, initOk, updateOk, reason);
    UpdateDbsEvents(cat.syncdbs, force, updateOk, reason);
    RefreshEventsShape(initOk, UpdatedPrefix(cat.syncdbs, updateOk) < |cat.syncdbs|, reason);
  }

  /** The events of a refresh, given whether the transaction opened and
      whether an update failed. */
  lemma RefreshEventsShape(initOk: bool, failed: bool, reason: string)
    ensures var err := ErrorCode(TransactionError, reason);
      var es := if initOk then [StatusRefreshCache] + (if failed then [err, Finished] else [Finished]) else [err, Finished];
      && (StatusRefreshCache in es <==> initOk)
      && (err in es <==> !initOk || failed)
      && |es| > 0 && es[|es| - 1] == Finished && Count(es, Finished) == 1
  {
    var err := ErrorCode(TransactionError, reason);
    assert [err, Finished][1..] == [Finished] && [Finished][1..] == [];
    var tail := if failed then [err, Finished] else [Finished];
    CountAppend([StatusRefreshCache], tail, Finished);
  }

  /** Refreshing updates the sync databases in order, each with the same
      `force`, up to and including the first that fails, and only once the
      transaction opened. */
  lemma RefreshCacheCalls(cat: Catalog, force: bool, initOk: bool, updateOk: Db -> bool, reason: string)
    ensures var cs := Calls(RefreshCache(cat, force, initOk, updateOk, reason));
      var n := UpdatedPrefix(cat.syncdbs, updateOk);
      && cs[0] == TransInit(SyncKind, {}, initOk)
      && |cs| == 1 + (if !initOk then 0 else if n < |cat.syncdbs| then n + 1 else n)
      && (forall i :: 1 <= i < |cs| ==> cs[i] == DbUpdate(force, cat.syncdbs[i - 1], i - 1 < n))
  {
    var cs := Calls(RefreshCache(cat, force, initOk, updateOk, reason));
    var open := TransInit(SyncKind, {}, initOk);
    var ups := Calls(UpdateDbs(cat.syncdbs, force, updateOk, reason));
    var n := UpdatedPrefix(cat.syncdbs, updateOk);
    assert cs == [open] + (if initOk then ups else []) by {
      RefreshCacheProjects(cat, force, initOk, updateOk, reason);
    }
    if initOk {
      assert |ups| == (if n < |cat.syncdbs| then n + 1 else n)
        && forall i :: 0 <= i < |ups| ==> ups[i] == DbUpdate(force, cat.syncdbs[i], i < n) by {
        UpdateDbsCalls(cat.syncdbs, force, updateOk, reason);
      }
      AfterOpening(open, ups, cat.syncdbs, force, n);
    }
  }

  /** Updates listed after the opening call keep their order, shifted by
      one. */
  lemma AfterOpening(open: LibCall, ups: seq<LibCall>, dbs: seq<Db>, force: bool, n: nat)
    requires |ups| <= |dbs|
    requires forall i :: 0 <= i < |ups| ==> ups[i] == DbUpdate(force, dbs[i], i < n)
    ensures forall i :: 1 <= i < |[open] + ups| ==> ([open] + ups)[i] == DbUpdate(force, dbs[i - 1], i - 1 < n)
  {
    forall i | 1 <= i < |[open] + ups|
      ensures ([open] + ups)[i] == DbUpdate(force, dbs[i - 1], i - 1 < n)
    {
      assert ([open] + ups)[i] == ups[i - 1];
    }
  }

  /** Refreshing keeps to the lifecycle but never releases: the transaction
      it opens is still open afterwards. */
  lemma RefreshCacheLeavesTransactionOpen(cat: Catalog, force: bool, initOk: bool, updateOk: Db -> bool, reason: string)
    ensures var cs := Calls(RefreshCache(cat, force, initOk, updateOk, reason));
      && Run(Idle, cs) == Some(if initOk then Initialized else Idle)
      && Release !in cs
  {
    RefreshCacheProjects(cat, force, initOk, updateOk, reason);
    var ups := if initOk then Updates(cat.syncdbs, force, updateOk) else [];
    if initOk {
      UpdateDbsCallsAreUpdates(cat.syncdbs, force, updateOk, reason);
    }
    RunOne(Idle, TransInit(SyncKind, {}, initOk));
    RunAppend(Idle, [TransInit(SyncKind, {}, initOk)], ups);
    UpdatesKeepInitialized(cat.syncdbs, force, updateOk);
  }

  /** Database updates keep an initialised transaction initialised. */
  lemma {:induction false} UpdatesKeepInitialized(dbs: seq<Db>, force: bool, updateOk: Db -> bool)
    ensures Run(Initialized, Updates(dbs, force, updateOk)) == Some(Initialized)
    ensures Release !in Updates(dbs, force, updateOk)
  {
    if |dbs| > 0 {
      var c := DbUpdate(force, dbs[0], updateOk(dbs[0]));
      RunOne(Initialized, c);
      if updateOk(dbs[0]) {
        UpdatesKeepInitialized(dbs[1..], force, updateOk);
        RunAppend(Initialized, [c], Updates(dbs[1..], force, updateOk));
      }
    }
  }
}
