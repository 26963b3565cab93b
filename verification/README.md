# PackageKit core, modelled in Dafny

This project models the deterministic core of an early PackageKit tree.

**ALPM backend** (`backends/alpm/pk-backend-alpm.c`)
- The result-list engine:
  - the stable merge `my_list_mmerge` and its constant comparator;
  - unlinking a node with `my_list_remove_node`.
- Package identity: `pkg_equal` and `pkg_equals_to`.
- Search helpers:
  - the installed annotation of `find_packages`;
  - the installed query `pkg_is_installed`;
  - `filter_packages_installed`.
- The name search `backend_search_name`. It parses the filter, picks the databases, concatenates the hits, drops local duplicates and filters.
- The four transaction handlers:
  - `backend_install_package`;
  - `backend_remove_package`;
  - `backend_install_file`;
  - `backend_refresh_cache`.

**Python backend base** (`python/packagekit/daemonBackend.py`)
- The package-id join and split.
- The license evaluator `check_license_field`.
- The milestone progress class `PackagekitProgress`.

**Console client** (`client/pk-console.c`)
- Column padding `pk_console_make_space` and the installed column.
- Splitting the argument words into commands with `pk_console_parse_multiple_commands`, together with the loop of `main` that consumes them.

How the model represents things:
- libalpm lists are sequences.
- `my_list_remove_node` is additionally modelled on an explicit map of nodes with `prev`/`next` links. A lemma relates it to removal from the sequence the links describe.
- The library is an oracle. A `Catalog` holds the local database, the sync databases and a search function from database and term to package records. Each transaction stage (init, prepare, commit, database update) has its success given as a boolean.
- A handler is a pure function that returns a trace of steps. A step is either a library call or an event emitted to the daemon.
- The trace is projected two ways:
  - onto its events (Package, ErrorCode, Finished…);
  - onto its calls, which a small state machine of the libalpm transaction (`Idle`, `Initialized`, `Prepared`, `Committed`) accepts or rejects.

The modules follow the source:

| file | module | models |
|---|---|---|
| common.dfy | Common | `Option`, occurrence count |
| strings.dfy | Strings | Python `str.split`, `str.strip`, `str.replace` of one character, `join` |
| alpm_list.dfy | AlpmList | `my_list_mmerge`, `list_cmp_fn`, `my_list_remove_node` |
| packages.dfy | Packages | package records, `pkg_equal`, `pkg_equals_to`, `add_package` |
| package_ids.dfy | PackageIds | `_get_package_id`, `get_package_from_id` |
| search.dfy | Search | `find_packages`, `pkg_is_installed`, `filter_packages_installed`, `backend_search_name` |
| transactions.dfy | Transactions | install, install-file, remove and refresh handlers |
| licenses.dfy | Licenses | `check_license_field` |
| progress.dfy | Progress | `PackagekitProgress` |
| console.dfy | Console | `pk_console_make_space`, installed column, command parsing and the `main` loop |

In two places the code does not do what PackageKit's documented filter semantics suggest (`installed` for installed packages only, `~installed` for available ones only, and a package counting as installed when the local database holds it). The model follows the code:
- **Filter tokens.** The token `installed` removes installed packages from the result, and `~installed` restricts the query to the local database. A description that reads the tokens as "show installed" / "show not installed" is therefore not what the code does.
- **Installed flag.** In `find_packages`, a sync hit's installed flag is decided by the last local search result. The comparison loop overwrites the flag on every iteration. Being equal to any local result is not enough. `Search.LastLocalMatchIsAMatch` and `Search.SingleLocalHitAgrees` relate the two readings.

## Model

| member | source | states |
|---|---|---|
| AlpmList.Merge | backends/alpm/pk-backend-alpm.c:104-151 | two empty lists give empty; an empty side gives the other list unchanged; the result holds as many elements as both inputs |
| AlpmList.MergeLists | backends/alpm/pk-backend-alpm.c:104-151 | the pointer-relinking loop (first node chosen, then one node at a time, then the remaining tail appended) computes the functional merge |
| AlpmList.MergePermutes | backends/alpm/pk-backend-alpm.c:104-151 | the merged list is a permutation of the two inputs (equal multisets) |
| AlpmList.MergeSorted | backends/alpm/pk-backend-alpm.c:104-151 | for a total preorder, merging two sorted lists gives a sorted list |
| AlpmList.MergeInterleaves | backends/alpm/pk-backend-alpm.c:104-151 | the result is an interleaving: the elements taken from the left, in order, are exactly the left list, and likewise for the right |
| AlpmList.MergeOrigins | backends/alpm/pk-backend-alpm.c:104-151 | every element marked as taken from the left is a member of the left list, and every other element is a member of the right list |
| AlpmList.MergeStable | backends/alpm/pk-backend-alpm.c:116-133 | ties go to the left: a right element is placed before a left element only when it compares strictly smaller |
| AlpmList.MergeLeftFirstIsConcat | backends/alpm/pk-backend-alpm.c:104-151 | under a comparator that never prefers the right, the merge is plain concatenation |
| AlpmList.MergeListCmpIsConcat | backends/alpm/pk-backend-alpm.c:198-202 | merging with `list_cmp_fn`, which always returns 0, is `left ++ right` |
| AlpmList.MergeAllListCmpIsConcat | backends/alpm/pk-backend-alpm.c:666-669 | folding per-database results into an accumulator with `list_cmp_fn` concatenates them in database order |
| AlpmList.RemoveNode | backends/alpm/pk-backend-alpm.c:178-196 | a NULL node gives NULL and leaves the nodes alone; otherwise the neighbours are linked past the node, no other node changes, no node's data changes, and the return value is the next neighbour if there is one, else the previous one |
| AlpmList.RemoveNodeKeepsLinked | backends/alpm/pk-backend-alpm.c:178-196 | unlinking position k of a well-linked, duplicate-free chain leaves a well-linked chain of the other nodes |
| AlpmList.RemoveNodeKeepsContents | backends/alpm/pk-backend-alpm.c:178-196 | the remaining chain holds the original data with the k-th element dropped, in order |
| AlpmList.RemoveNodeRelinks | backends/alpm/pk-backend-alpm.c:178-196 | on a chain, removal leaves the others linked in order and returns the node after k, else the node before k, else NULL |
| Packages.PkgIdentity | backends/alpm/pk-backend-alpm.c:154-174 | `pkg_equal` is an equivalence; it agrees with `pkg_equals_to` against the other package's name and version; `pkg_equals_to` with a NULL version compares names only |
| Packages.AddPackage | backends/alpm/pk-backend-alpm.c:205-224 | one Package event whose info is INSTALLED exactly when the source is installed and AVAILABLE otherwise, with the package description as summary |
| Packages.AddPackageIdFields | backends/alpm/pk-backend-alpm.c:208-216 | the emitted package id splits back into name, version, arch (with the "lala" fallback) and repository |
| PackageIds.PackageId | python/packagekit/daemonBackend.py:574-575 | the id is name, version, arch and data in that order, with one ';' between neighbours |
| PackageIds.PackageFromId | python/packagekit/daemonBackend.py:578-581 | splitting with at most four cuts gives 1 to 5 fields; joining them with ';' gives back the id; no field but the last holds ';', and with fewer than five fields the last holds none either, so every ';' up to the fourth is a cut |
| PackageIds.PackageIdRoundTrip | python/packagekit/daemonBackend.py:574-581 | splitting a joined id gives back the four fields when none of them holds ';' |
| PackageIds.NameOf | python/packagekit/daemonBackend.py:578-581 | the name field holds no ';', starts the identifier and is followed by ';' unless it is the whole identifier: it is the text before the first ';' |
| PackageIds.NameOfPackageId | python/packagekit/daemonBackend.py:574-581 | the first field of a joined id is the name |
| Strings.Split | python/packagekit/daemonBackend.py:581 | Python `str.split(sep, maxsplit)`: at least one piece; at most maxsplit+1 pieces; the pieces joined with the separator give back the text; no piece before the last holds the separator; without a limit the last holds none either |
| Strings.SplitLastPiece | python/packagekit/daemonBackend.py:581 | under a limit, the last piece holds no separator either unless the limit is used up: a cut is made wherever one is allowed |
| Strings.SplitLeftmost | python/packagekit/daemonBackend.py:581 | every cut is at the leftmost occurrence of the separator in the text from there on; with two or more pieces the first piece ends at the first occurrence in the text |
| Strings.SplitDetermined | python/packagekit/daemonBackend.py:581 | any list of pieces that joins back to the text, respects the limit, leaves no separator in the last piece while cuts remain and cuts at leftmost occurrences is exactly the result of `Split`: the properties above fix `str.split`'s answer |
| Strings.SplitJoinChar | python/packagekit/daemonBackend.py:574-581 | splitting on a one-character separator undoes joining pieces that do not contain it |
| Strings.Strip | python/packagekit/daemonBackend.py:624 | the stripped text is a slice of the input; everything before and after the slice is whitespace; the slice neither starts nor ends with whitespace |
| Strings.Delete | python/packagekit/daemonBackend.py:617-618 | no copy of the character is left and every other character is; a text without the character is unchanged; a one-character text loses it exactly when it is that character |
| Strings.DeleteAppend | python/packagekit/daemonBackend.py:617-618 | deleting distributes over concatenation, so the kept characters stay in their order |
| Strings.DeleteCount | python/packagekit/daemonBackend.py:617-618 | the result is shorter than the text by exactly the number of copies of the character |
| Search.ScanLocalLastWins | backends/alpm/pk-backend-alpm.c:269-276 | the comparison loop's flag is `pkg_equal` against the last local result, or the flag before the loop when there is none |
| Search.Annotate | backends/alpm/pk-backend-alpm.c:262-281 | every hit keeps its position and package, is tagged with the database name, and carries the installed flag of the comparison loop |
| Search.FindPackages | backends/alpm/pk-backend-alpm.c:239-287 | a NULL database or name gives no hits; otherwise the hits of the search in order, tagged with the database name; all installed for the local database; for another database each flag is `pkg_equal` against the last local hit, so false without a local database or local hits |
| Search.LastLocalMatchIsAMatch | backends/alpm/pk-backend-alpm.c:269-276 | a hit flagged installed equals some local hit |
| Search.SingleLocalHitAgrees | backends/alpm/pk-backend-alpm.c:269-276 | with at most one local hit, the flag means "equal to some local hit" |
| Search.HasVersion | backends/alpm/pk-backend-alpm.c:306-309 | true exactly when some result has the version, compared exactly |
| Search.PkgIsInstalled | backends/alpm/pk-backend-alpm.c:290-312 | false for a NULL name, a missing local database or no local hit; true with a NULL version; otherwise true exactly when some local hit has that version |
| Search.FilterInstalledMembers | backends/alpm/pk-backend-alpm.c:315-330 | the survivors are exactly the entries whose installed flag differs from the filter value |
| Search.FilterInstalledAppend | backends/alpm/pk-backend-alpm.c:315-330 | filtering works entry by entry: filtering a concatenation is concatenating the filtered parts, so order is kept |
| Search.FilterInstalledKeepsAll | backends/alpm/pk-backend-alpm.c:315-330 | a list with no entry to remove is returned unchanged |
| Search.FilterPackagesInstalled | backends/alpm/pk-backend-alpm.c:315-330 | the in-order removal loop leaves the functional filter's result |
| Search.ParseFilterTokens | backends/alpm/pk-backend-alpm.c:643-658 | for ';'-separated tokens, the installed flag is cleared exactly when `installed` is a token, the not-installed flag exactly when `~installed` is; other tokens are ignored |
| Search.QueryDbs | backends/alpm/pk-backend-alpm.c:665-666 | the sync databases when `~installed` is absent; only the local database when just `~installed` is given; none when both tokens are given |
| Search.SearchDbsConcatenates | backends/alpm/pk-backend-alpm.c:668-669 | the per-database loop gives the accumulator followed by every database's hits in order |
| Search.DropDuplicates | backends/alpm/pk-backend-alpm.c:677-691 | a local entry survives exactly when no entry of the result is the same package |
| Search.DropDuplicatesAppend | backends/alpm/pk-backend-alpm.c:677-691 | the scan distributes over concatenation of the local hits, so survivors keep their order and number |
| Search.DropDuplicatesKeepsAll | backends/alpm/pk-backend-alpm.c:677-691 | local hits that match no result entry are all kept, unchanged |
| Search.DropMatchingMembers | backends/alpm/pk-backend-alpm.c:680-687 | one pass of the inner loop keeps exactly the local entries that are not the same package as the result entry |
| Search.DropMatchingAppend | backends/alpm/pk-backend-alpm.c:680-687 | one pass distributes over concatenation, so the entries it keeps stay in their order |
| Search.DropMatchingLoop | backends/alpm/pk-backend-alpm.c:680-687 | the inner loop (unlink a matching node, else step to the next) leaves exactly one pass `DropMatching` |
| Search.DropDuplicatesExtend | backends/alpm/pk-backend-alpm.c:677-688 | a pass for one more result entry over what the scan kept so far equals the scan against the longer result |
| Search.DropDuplicatesLoop | backends/alpm/pk-backend-alpm.c:677-688 | the nested loops (each result entry in turn, each remaining local entry) leave exactly `DropDuplicates` |
| Search.Announce | backends/alpm/pk-backend-alpm.c:227-236 | one `add_package` event per result, in order |
| Search.SearchNameEvents | backends/alpm/pk-backend-alpm.c:636-701 | the search ends with Finished, emits it once, announces the results just before it, and reports the missing local database exactly when a search without tokens has none |
| Search.SearchNameInstalledToken | backends/alpm/pk-backend-alpm.c:646-697 | with only the `installed` token, the result is the sync hits with every installed one removed |
| Search.SearchNameNotInstalledToken | backends/alpm/pk-backend-alpm.c:646-697 | with only the `~installed` token, the result is the local hits, all installed |
| Search.SearchNameBothTokens | backends/alpm/pk-backend-alpm.c:646-697 | with both tokens, the result is empty |
| Search.SearchNameBoth | backends/alpm/pk-backend-alpm.c:665-697 | without tokens: the sync hits in database order, followed by the local hits that equal no sync hit; without a local database, just the sync hits after the internal error |
| Transactions.Next | backends/alpm/pk-backend-alpm.c:441-494 | the libalpm transaction protocol: only init or release return to idle, and release is accepted exactly when a transaction is open |
| Transactions.RunAppend | backends/alpm/pk-backend-alpm.c:441-494 | running two call sequences one after the other is running their concatenation |
| Transactions.RunTransactionProjects | backends/alpm/pk-backend-alpm.c:441-494 | the staged handler emits the expected events (error after a failed stage, Downloading package after prepare, Finished) and makes the expected calls for every combination of stage outcomes |
| Transactions.RunTransactionReleases | backends/alpm/pk-backend-alpm.c:441-494 | the calls form a valid transaction that ends idle; release happens exactly once when init succeeded, as the last call, and never otherwise |
| Transactions.RunTransactionFinishesOnce | backends/alpm/pk-backend-alpm.c:441-494 | Finished is the last event and occurs exactly once; a transaction error is reported exactly when a stage failed |
| Transactions.InstallPackageCalls | backends/alpm/pk-backend-alpm.c:403-491 | install opens a SYNC transaction with NODEPS only, adds the name from the package id, ends idle and releases exactly once after a successful init |
| Transactions.InstallPackageEvents | backends/alpm/pk-backend-alpm.c:441-494 | the Downloading package event is emitted exactly when init and prepare succeeded; errors exactly on a failed stage; Finished exactly once, last |
| Transactions.InstallFileTrace | backends/alpm/pk-backend-alpm.c:719-758 | install-file opens an ADD transaction with no flags, adds the path, ends idle, releases exactly once after a successful init, and finishes exactly once |
| Transactions.RemoveNotInstalled | backends/alpm/pk-backend-alpm.c:554-581 | unless the local search gives exactly one hit of that name, remove reports PACKAGE_NOT_INSTALLED and finishes without any libalpm call |
| Transactions.RemoveWithoutLocalDb | backends/alpm/pk-backend-alpm.c:554-581 | without a local database, remove reports PACKAGE_NOT_INSTALLED and makes no call |
| Transactions.RemoveTransactionCalls | backends/alpm/pk-backend-alpm.c:583-629 | remove opens a REMOVE transaction with CASCADE exactly when dependants may go, never NODEPS, adds the name, ends idle and releases exactly once after a successful init |
| Transactions.RemoveTransactionEvents | backends/alpm/pk-backend-alpm.c:583-629 | remove reports a transaction error exactly on a failed stage and finishes exactly once |
| Transactions.RemoveIgnoresAutoremove | backends/alpm/pk-backend-alpm.c:554 | the autoremove argument does not change what remove does |
| Transactions.UpdatedPrefixMeaning | backends/alpm/pk-backend-alpm.c:530-545 | the loop updates databases while updates succeed and stops at the first failure |
| Transactions.UpdateDbsCalls | backends/alpm/pk-backend-alpm.c:530-545 | the loop updates the databases in order with the force flag, up to and including the first failing one |
| Transactions.UpdateDbsEvents | backends/alpm/pk-backend-alpm.c:530-547 | the loop ends with a transaction error and Finished when an update failed, with Finished alone otherwise |
| Transactions.RefreshCacheEvents | backends/alpm/pk-backend-alpm.c:501-548 | refresh reports the refresh status exactly when init succeeded and an error exactly when init or an update failed, and finishes exactly once, last |
| Transactions.RefreshCacheCalls | backends/alpm/pk-backend-alpm.c:501-548 | refresh opens a SYNC transaction with no flags, then updates the sync databases in order until one fails |
| Transactions.RefreshCacheLeavesTransactionOpen | backends/alpm/pk-backend-alpm.c:501-548 | refresh never releases: after a successful init the transaction is left open |
| Transactions.UpdatesKeepInitialized | backends/alpm/pk-backend-alpm.c:530-545 | database updates are accepted inside an open transaction and leave it open |
| Licenses.LookupName | python/packagekit/daemonBackend.py:624-630 | a blank alternative is skipped; otherwise the name is the stripped text without one trailing '+' |
| Licenses.Unparenthesize | python/packagekit/daemonBackend.py:617-618 | no parenthesis is left and every other character of the group is; a group without parentheses is unchanged |
| Licenses.CheckLicenseField | python/packagekit/daemonBackend.py:583-643 | the field is free exactly when every " and "-group contains a free " or "-alternative |
| Licenses.AllFree | python/packagekit/daemonBackend.py:611-643 | the loop over groups is true exactly when there is at least one group and every group is free |
| Licenses.AnyFree | python/packagekit/daemonBackend.py:621-635 | the loop over alternatives is true exactly when some alternative is free |
| Licenses.NormalizeLicense | python/packagekit/daemonBackend.py:624-630 | stripping, skipping a blank alternative and dropping one trailing '+' compute the lookup name |
| Licenses.CheckGroup | python/packagekit/daemonBackend.py:617-637 | a group is free exactly when one of its alternatives, parentheses removed, is free |
| Licenses.FreeInMeaning | python/packagekit/daemonBackend.py:621-635 | the recursive reading of "some alternative is free" agrees with the existential one |
| Licenses.AllGroupsFreeMeaning | python/packagekit/daemonBackend.py:616-643 | the recursive reading of "every group is free" agrees with the universal one |
| Licenses.EmptyFieldNotFree | python/packagekit/daemonBackend.py:605-606 | the empty field is not free |
| Licenses.PlusIsIgnored | python/packagekit/daemonBackend.py:593-595 | `X+` is free exactly when `X` is, and that is when `X` is in the free set |
| Licenses.ParenthesesIgnored | python/packagekit/daemonBackend.py:600-602 | wrapping a group in parentheses does not change whether it is free |
| Licenses.SingleGroup | python/packagekit/daemonBackend.py:609-643 | a field without " and " is free exactly when it is free as a single group |
| Progress.New | python/packagekit/daemonBackend.py:670-674 | a fresh progress is at zero, with no milestones, and valid |
| Progress.Reset | python/packagekit/daemonBackend.py:685-689 | whatever the state before, reset gives exactly the state `__init__` builds |
| Progress.SetSteps | python/packagekit/daemonBackend.py:676-683 | after `set_steps` the milestones are the given ones and everything else is 0 |
| Progress.Step | python/packagekit/daemonBackend.py:691-701 | the step advances exactly when a milestone is left and then reports that milestone; otherwise the percentage is 100 and the step stays; the sub-percentage is 0 and the step never passes the last milestone |
| Progress.StepsFromStart | python/packagekit/daemonBackend.py:676-701 | after n steps from fresh milestones the step is n, up to the last milestone; the percentage is milestone n while one is left, and 100 once all are passed |
| Progress.TruncDiv | python/packagekit/daemonBackend.py:723-724 | `int()` of a quotient truncates toward zero |
| Progress.ShareBounds | python/packagekit/daemonBackend.py:722-724 | the increment for 0..100 per cent of a non-negative span lies within the span, and is 0 at 0 and the whole span at 100 |
| Progress.SetSubpercent | python/packagekit/daemonBackend.py:703-725 | stores the sub-percentage; for 0..100 and a step that does not end below its start, the percentage lies between start and end, is the start at 0 and the end at 100 |
| Progress.SubpercentMonotone | python/packagekit/daemonBackend.py:703-725 | for sub-percentages 0 <= a <= b and a step that does not end below its start, the larger sub-percentage never gives a smaller percentage |
| Progress.SubpercentFallingSteps | python/packagekit/daemonBackend.py:703-725 | the start condition is needed: with milestones 60, 10, 20 and one step, sub-percentages 0 and 50 report 60 and then 40 |
| Progress.SubpercentRegresses | python/packagekit/daemonBackend.py:714-717 | as written, the percentage can fall after a step (see Findings) |
| Progress.SetSubpercentFixed | python/packagekit/daemonBackend.py:703-725 | with the corrected start (the current milestone, or 0 at the first step), a sub-percentage in 0..100 and a step that does not end below its start give a percentage between that start and the next milestone; a sub-percentage of 0 gives the start itself |
| Progress.FixedSubpercentNoRegress | python/packagekit/daemonBackend.py:691-725 | with ascending milestones, a sub-percentage after an advancing step never reports less than the step did |
| Console.MakeSpace | client/pk-console.c:37-54 | the padding is all spaces; without data it is exactly `length` long with no extra; with data, data plus padding is `length` plus `extra`; extra is positive exactly when the data is longer than the column, and then the padding is empty |
| Console.MakeSpaceFits | client/pk-console.c:42-52 | data that fits is padded to exactly the column width; wider data gets no padding and carries the overflow |
| Console.InstalledColumn | client/pk-console.c:67-71 | "no  " exactly when the value is 0, "yes " otherwise; both four characters wide |
| Console.ParseCommand | client/pk-console.c:132-263 | each command uses at least its mode word, never more words than are left, and at most three, and makes at least one client call or usage text |
| Console.SearchArity | client/pk-console.c:149-196 | search uses 1 word without a type or with an unknown type, 2 with a type but no term, and 3 for a complete synchronous search with filter "none" |
| Console.InstallRemoveArity | client/pk-console.c:197-214 | install and remove use 2 words with a package and 1 without; remove never allows dependants to go |
| Console.QueryArity | client/pk-console.c:215-232 | getdeps and getdesc use 2 words with a package and 1 without |
| Console.SingleWordArity | client/pk-console.c:233-252 | every other mode, known or unknown, uses one word; an unknown one only shows the usage text |
| Console.RunClient | client/pk-console.c:336-366 | without argument words the usage text is shown and the exit status is 1; otherwise every command is handled, at least one action is made and the status is 0 |
| Console.ProcessCommands | client/pk-console.c:357-359 | the loop of `main` handles the commands in order and stops after at most as many rounds as there are words |
| Console.SingleWordsEachOneCommand | client/pk-console.c:233-252 | words that are all single-word modes form one command each |

## Left out

- Threads and timers: `state_notify`, the thread started during install, the `update_progress`/`update_subprogress` pollers and the `install_backend` global. These race on plain integers; the sentinel reset during refresh is not modelled either.
- libalpm: `alpm_db_search`, `alpm_trans_*` and `alpm_db_update` are parameters (a search function and booleans per stage). Their error strings are an opaque `reason`.
- Memory: freeing lists and package sources is not modelled.
- Pointer-level defects, with the intended sequence behaviour modelled instead:
  - the dedup loop and `pkg_is_installed` treat a package source as a package record;
  - removing the head node in `filter_packages_installed` and in the dedup loop never updates the caller's head pointer;
  - `backend_get_repo_list` passes a list node as a database.
- Stubs and setup: `backend_get_groups` and `backend_get_filters` only assign a local parameter. `backend_initialize`, `backend_destroy` and `backend_get_repo_list` are sequences of foreign calls. `filter_packages_multiavail` is empty.
- The commented-out lookup at the start of `backend_install_package` is not code and is not modelled.
- `pk_package_id_new_from_string` and `pk_package_id_build` are not part of this model. The id of a Package event is taken to be `name;version;arch;data`, the layout of the Python helpers.
- The Python base's D-Bus signals and methods, the `forked` decorator and child-process handling, the inactivity timer and logging are left out.
- `PackageKitEnum.free_licenses` is not part of this model; the free set is a parameter.
- Strings.Strip: whitespace is that of a Python 2 byte string (space, tab, newline, carriage return, vertical tab, form feed). A license field that arrives as a `unicode` object would also lose `\x1c`-`\x1f`, `\x85`, `\xa0` and the other Unicode spaces; that case is not modelled.
- Progress.SetSubpercent: Python computes the increment as `int(float(pct)/100.0 * delta)`. Here it is the exact product truncated toward zero. The float product can come out one lower (pct 29 and delta 100 give 28 in Python, 29 here), so only the bounds are claimed, not equality with Python.
- Progress.Step: requires `Progress.Valid`, the invariant that `New`, `Reset`, `SetSteps` and `Step` keep. Python's `step` on an index past the last milestone reports 100 without raising. Such a state arises by assigning `current_step` directly, or by shrinking the list given to `set_steps`, which Python keeps without copying (python/packagekit/daemonBackend.py:682). Neither is modelled.
- Console.MakeSpace: the column width and the data length are required to be below 2^31. With these bounds the unsigned difference converts to `gint` unchanged. The caller's `15-extra` and `7-extra` can wrap around as unsigned values when a field overflows its column; that wrap-around is not modelled.
- Console: the D-Bus connection (and the abort when the system bus is missing), signal hookup and printing are left out, including the package lists `pk_console_tidy_up_sync` prints after the loop. Client calls are abstract actions.
- Console.SearchArity: only the client call chosen for each search type is modelled, not the search it performs.

## Findings

| source | as written | input that shows it | evidently intended | confidence | as-written member | corrected member |
|---|---|---|---|---|---|---|
| python/packagekit/daemonBackend.py:714-717 | `_update_percent` starts the current step at the milestone before it (`steps[current_step-1]`), while `step` has just reported `steps[current_step]` | milestones 10, 30, 50, 70 (the class's own usage example): one `step` reports 30, then `set_subpercent(0)` reports 10 | the percentage never moves backwards: the current step starts at the milestone `step` reported | medium, not executed | Progress.SubpercentRegresses | Progress.SetSubpercentFixed, Progress.FixedSubpercentNoRegress |
