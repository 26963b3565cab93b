/** The pure parts of the `pkcon` command-line client: the column padding of
    a package line, the installed column, and the splitting of the argument
    words into commands. The client library calls a command makes are
    recorded as abstract actions; printing is left out. */
module Console {
  import opened Common

  /** `guint` and `gint` limits that matter for the padding arithmetic. */
  const IntLimit: nat := 0x8000_0000

  /** Padding and the carried-over overflow of one column. */
  datatype Space = Space(padding: string, extra: nat)

  /** A string of `n` spaces, as `g_strnfill(n, ' ')`. */
  function Spaces(n: nat): (r: string)
    ensures |r| == n && forall k :: 0 <= k < n ==> r[k] == ' '
  {
    if n == 0 then "" else Spaces(n - 1) + " "
  }

  /** `pk_console_make_space`: the padding that fills a column of width
      `length` after `data`. Without data the whole column is padding;
      data wider than the column gets no padding, and how much wider it is
      becomes `extra`. The column width and the data length stay below
      2^31, so the unsigned difference converts to `gint` unchanged. */
  function MakeSpace(data: Option<string>, length: nat): (r: Space)
    requires length < IntLimit
    requires data.Some? ==> |data.value| < IntLimit
    ensures forall k :: 0 <= k < |r.padding| ==> r.padding[k] == ' '
    ensures data.None? ==> |r.padding| == length && r.extra == 0
    ensures data.Some? ==> |data.value| + |r.padding| == length + r.extra
    ensures r.extra > 0 <==> data.Some? && |data.value| > length
    ensures r.extra > 0 ==> r.padding == ""
  {
    var size: int := if data.None? then length else length - |data.value|;
    if size < 0 then Space(Spaces(0), -size)
    else Space(Spaces(size), 0)
  }

  /** Data that fits its column is padded to exactly the column width;
      data that does not is left as it is and the overflow is carried. */
  lemma MakeSpaceFits(data: string, length: nat)
    requires length < IntLimit && |data| < IntLimit
    ensures |data| <= length ==> |data + MakeSpace(Some(data), length).padding| == length
    ensures |data| > length ==> data + MakeSpace(Some(data), length).padding == data
    ensures |data| > length ==> MakeSpace(Some(data), length).extra == |data| - length
  {
    if |data| > length {
      assert data + "" == data;
    }
  }

  /** The installed column of `pk_console_package_cb`. */
  function InstalledColumn(value: nat): (r: string)
    ensures |r| == 4
    ensures r == "no  " <==> value == 0
    ensures r == "yes " <==> value != 0
  {
    if value == 0 then "no  " else "yes "
  }

  /** The reasons `pk_console_usage` is shown with; `NoCommand` is the call
      without an error text, made when there are no argument words. */
  datatype UsageReason =
    | NoSearchType | NoSearchTerm | InvalidSearchType
    | NoInstallTarget | NoRemoveTarget | NoDepsTarget | NoDescriptionTarget
    | NotSupported | NoCommand

  /** The search kinds of `search <type> <term>`. */
  datatype SearchKind = ByName | ByDetails | ByGroup | ByFile

  /** A client call, or the usage text, made while handling one command. */
  datatype Action =
    | Usage(reason: UsageReason)
    | SetSync(sync: bool)
    | Search(kind: SearchKind, filter: string, term: string)
    | InstallPackage(packageId: string)
    | RemovePackage(packageId: string, allowDeps: bool)
    | GetDeps(packageId: string)
    | GetDescription(packageId: string)
    | DebugInit
    | UpdateSystem
    | RefreshCache(force: bool)
    | GetUpdates

  /** How many words a command used and the actions it made. */
  datatype Parsed = Parsed(consumed: nat, actions: seq<Action>)

  /** The search kind a type word names, if any. */
  function SearchKindOf(word: string): Option<SearchKind>
  {
    if word == "name" then Some(ByName)
    else if word == "details" then Some(ByDetails)
    else if word == "group" then Some(ByGroup)
    else if word == "file" then Some(ByFile)
    else None
  }

  /** `search [type [term]]`. */
  function ParseSearch(args: seq<string>): (r: Parsed)
    requires |args| > 0
  {
    if |args| < 2 then Parsed(1, [Usage(NoSearchType)])
    else match SearchKindOf(args[1])
      case None => Parsed(1, [Usage(InvalidSearchType)])
      case Some(kind) =>
        if |args| < 3 then Parsed(2, [Usage(NoSearchTerm)])
        else Parsed(3, [SetSync(true), Search(kind, "none", args[2])])
  }

  /** A mode word taking one package identifier; without it, the usage
      text and one word used. */
  function ParseWithValue(args: seq<string>, missing: UsageReason, act: string -> seq<Action>): (r: Parsed)
    requires |args| > 0
  {
    if |args| < 2 then Parsed(1, [Usage(missing)]) else Parsed(2, act(args[1]))
  }

  /** The mode words that stand alone and the actions they make; None for
      a word that is not one of them. */
  function SingleWordActions(mode: string): Option<seq<Action>>
  {
    if mode == "debug" || mode == "verbose" then Some([DebugInit])
    else if mode == "update" then Some([UpdateSystem])
    else if mode == "refresh" then Some([RefreshCache(false)])
    else if mode == "force-refresh" then Some([RefreshCache(true)])
    else if mode == "sync" then Some([SetSync(true)])
    else if mode == "async" then Some([SetSync(false)])
    else if mode == "checkupdate" then Some([SetSync(true), GetUpdates])
    else None
  }

  /** `pk_console_parse_multiple_commands`: handle the command at the head
      of the remaining words. It always uses at least the mode word and
      never more words than are left, at most three. */
  function ParseCommand(args: seq<string>): (r: Parsed)
    requires |args| > 0
    ensures 1 <= r.consumed <= |args| && r.consumed <= 3
    ensures |r.actions| > 0
  {
    var mode := args[0];
    if mode == "search" then ParseSearch(args)
    else if mode == "install" then
      ParseWithValue(args, NoInstallTarget, id => [InstallPackage(id)])
    else if mode == "remove" then
      ParseWithValue(args, NoRemoveTarget, id => [RemovePackage(id, false)])
    else if mode == "getdeps" then
      ParseWithValue(args, NoDepsTarget, id => [SetSync(true), GetDeps(id)])
    else if mode == "getdesc" then
      ParseWithValue(args, NoDescriptionTarget, id => [SetSync(true), GetDescription(id)])
    else match SingleWordActions(mode)
      case Some(acts) => Parsed(1, acts)
      case None => Parsed(1, [Usage(NotSupported)])
  }

  /** `search` uses one word without a type, one with an unknown type, two
      with a type but no term, and three for a complete search, which runs
      synchronously with the filter "none". */
  lemma SearchArity(args: seq<string>)
    requires |args| > 0 && args[0] == "search"
    ensures |args| == 1 ==> ParseCommand(args) == Parsed(1, [Usage(NoSearchType)])
    ensures |args| >= 2 && SearchKindOf(args[1]).None? ==> ParseCommand(args) == Parsed(1, [Usage(InvalidSearchType)])
    ensures |args| == 2 && SearchKindOf(args[1]).Some? ==> ParseCommand(args) == Parsed(2, [Usage(NoSearchTerm)])
    ensures |args| >= 3 && SearchKindOf(args[1]).Some? ==>
      ParseCommand(args) == Parsed(3, [SetSync(true), Search(SearchKindOf(args[1]).value, "none", args[2])])
  {
  }

  /** `install` and `remove` use two words with a package and one without;
      removal never allows dependent packages to go too. */
  lemma InstallRemoveArity(args: seq<string>)
    requires |args| > 0 && (args[0] == "install" || args[0] == "remove")
    ensures |args| == 1 ==> ParseCommand(args).consumed == 1 && |ParseCommand(args).actions| == 1 && ParseCommand(args).actions[0].Usage?
    ensures |args| >= 2 && args[0] == "install" ==> ParseCommand(args) == Parsed(2, [InstallPackage(args[1])])
    ensures |args| >= 2 && args[0] == "remove" ==> ParseCommand(args) == Parsed(2, [RemovePackage(args[1], false)])
  {
  }

  /** `getdeps` and `getdesc` use two words with a package and one
      without. */
  lemma QueryArity(args: seq<string>)
    requires |args| > 0 && (args[0] == "getdeps" || args[0] == "getdesc")
    ensures ParseCommand(args).consumed == (if |args| >= 2 then 2 else 1)
    ensures |args| == 1 ==> |ParseCommand(args).actions| == 1 && ParseCommand(args).actions[0].Usage?
  {
  }

  /** Every other mode word, known or not, uses only itself; an unknown one
      shows the usage text and calls nothing. */
  lemma SingleWordArity(args: seq<string>)
    requires |args| > 0
    requires args[0] !in ["search", "install", "remove", "getdeps", "getdesc"]
    ensures ParseCommand(args).consumed == 1
    ensures SingleWordActions(args[0]).None? <==> ParseCommand(args).actions == [Usage(NotSupported)]
  {
    if SingleWordActions(args[0]).Some? {
      assert SingleWordActions(args[0]).value != [Usage(NotSupported)];
    }
  }

  /** The actions of handling every command of the words in turn. */
  function Dispatch(args: seq<string>): seq<Action>
    decreases |args|
  {
    if |args| == 0 then []
    else
      var p := ParseCommand(args);
      p.actions + Dispatch(args[p.consumed..])
  }

  /** The number of commands the words hold. */
  function CommandCount(args: seq<string>): (n: nat)
    ensures n <= |args|
    ensures |args| > 0 ==> n >= 1
    decreases |args|
  {
    if |args| == 0 then 0 else 1 + CommandCount(args[ParseCommand(args).consumed..])
  }

  /** The loop of `main`: handle the command at the head of the words and
      drop the words it used until none are left. Because every command
      uses at least one word, the loop ends after at most as many rounds as
      there are words. */
  method ProcessCommands(argv: seq<string>) returns (actions: seq<Action>, rounds: nat)
    ensures actions == Dispatch(argv)
    ensures rounds == CommandCount(argv) && rounds <= |argv|
  {
    var words := argv;
    actions := [];
    rounds := 0;
    while |words| > 0
      invariant actions + Dispatch(words) == Dispatch(argv)
      invariant rounds + CommandCount(words) == CommandCount(argv)
      decreases |words|
    {
      var p := ParseCommand(words);
      var rest := words[p.consumed..];
      assert Dispatch(words) == p.actions + Dispatch(rest);
      assert CommandCount(words) == 1 + CommandCount(rest);
      assert (actions + p.actions) + Dispatch(rest) == actions + (p.actions + Dispatch(rest));
      actions := actions + p.actions;
      words := rest;
      rounds := rounds + 1;
    }
  }

  /** `main` once the client is set up, given the argument words after the
      program name: without any it shows the usage text and exits with
      status 1; otherwise it handles every command in turn and exits with
      status 0, having made at least one action. */
  method RunClient(args: seq<string>) returns (actions: seq<Action>, status: int)
    ensures status == 1 <==> |args| == 0
    ensures status == 0 <==> |args| > 0
    ensures |args| == 0 ==> actions == [Usage(NoCommand)]
    ensures |args| > 0 ==> actions == Dispatch(args) && |actions| > 0
  {
    if |args| < 1 {
      return [Usage(NoCommand)], 1;
    }
    var rounds;
    actions, rounds := ProcessCommands(args);
    assert |ParseCommand(args).actions| > 0;
    status := 0;
  }

  /** Words that are all stand-alone modes make one command each. */
  lemma {:induction false} SingleWordsEachOneCommand(args: seq<string>)
    requires forall k :: 0 <= k < |args| ==> SingleWordActions(args[k]).Some?
    ensures CommandCount(args) == |args|
    decreases |args|
  {
    if |args| > 0 {
      assert ParseCommand(args).consumed == 1;
      SingleWordsEachOneCommand(args[1..]);
    }
  }
}
