# mydra, modelled in Dafny

mydra builds a batch of nixpkgs packages and reports which of them fail.
This project models its decision-making core and proves properties of it.

- `mydra.py`:
  - `build_dry`: the parser for the dry-run report of `nix-store --realize --dry-run`.
  - `_build_uncached`:
    - the classifier that folds the recognised lines of `nix build` into a derivation → reason map;
    - on a timeout, the move of unfinished derivations to MYDRA TIMEOUT;
    - the pairing of succeeded derivations with their realised store paths.
  - `build`: the orchestration around the failure cache and the log archive.
  - `instantiate`: the inversion of attribute → derivation.
- `cli.py`: the package list a configuration expands to, and the rows of the result table.
- `generate.py`: the status cell with its log link, the name column, the sorted list of failed attributes, and the short commit.

The external `nix` tools appear only through their outputs. These are the function-valued fields of `NixTool.Nix`:

- the dry-run lines;
- the recognised build events, with a flag for "the deadline passed";
- the realize lines;
- the build logs;
- the evaluation results, or nothing when the evaluation raises;
- the success of `nix-instantiate`.

The Python exceptions that abort a run become `Err` values of `NixTool.Failure`.

State the source changes in place is modelled with classes:

- the caller's derivation map, which `build` extends (`Orchestrator.DrvMap`);
- the cache file (`Orchestrator.FailureCache`);
- the log directory (`Orchestrator.LogDir`).

The loops the source runs are methods with loop invariants, each proved against a specification function:

- `DryRun.BuildDry` against `Listed`/`Accepted`;
- `Monitor.ClassifyOutput` against `Verdict`;
- `Monitor.Reclassify` against `Except` and `RemoveFirst`.

Modules follow the program:

| module | file | models |
|---|---|---|
| `Results` | results.dfy | `Option`, `Result`, `dict.get` |
| `Text` | text.dfy | `str.strip`, `in`, `startswith`, `split`/`join`, `os.path.basename`, `os.path.splitext`, `split("-", 1)[1]`, slicing |
| `Collections` | collections.dfy | `list(set)`, `list.remove`, filtering a list by a set |
| `NixTool` | nix_tool.dfy | path types, reason strings, errors, the tool oracle |
| `DryRun` | dry_run.dfy | `build_dry` |
| `Monitor` | monitor.dfy | `_build_uncached` |
| `Orchestrator` | orchestrator.dfy | `instantiate`, `build` |
| `Cli` | cli.dfy | `expand_package_attrnames`, `execute` |
| `Generate` | generate.dfy | the modelled parts of `process_file` |

Behaviour worth noting, which the model follows:

- A "cannot build derivation" line sets DEP FAILED even when an earlier line already classified the derivation. Every other line only classifies derivations that have no reason yet. So "first match wins" holds for every line except this one.
- After a timeout, every path the new dry run lists is marked MYDRA TIMEOUT and removed from the succeeded list. This covers the "to be fetched" paths and the dependencies too, not only the unclassified units. A listed path that is not in the succeeded list makes `list.remove` raise `ValueError`. The model returns this as `NotSucceeded`.
- Realisation checks only that the number of matching store paths equals the number of succeeded derivations. It then pairs them by position: `zip` over the succeeded list, which has set order, and the realize output. It does not check a one-to-one correspondence by name.
- The cache file is read whenever either `use_cache` or `write_cache` is set. It is written back only with `write_cache`.
- A cached failure is reported with its cached reason, but a fresh failure of the same derivation replaces it (`failures.update`).
- A "build of ... failed" line is cut at every ", " and each piece loses its quotes. The names come back when no derivation path holds a quote or ", " of its own.
- "CANNOT BUILD" is tested for by `execute` but never produced by the driver.

## Model

| member | source | states |
|---|---|---|
| Results.Lookup | src/mydra/cli.py:50 | `m.get(k)` is present exactly when `k` is a key, and then holds `m[k]` |
| Text.TrimStartSuffix | src/mydra/mydra.py:55 | trimming the front keeps a suffix, cuts only characters of the set, and stops at a character outside it |
| Text.TrimEndPrefix | src/mydra/mydra.py:55 | trimming the back keeps a prefix, cuts only characters of the set, and stops at a character outside it |
| Text.StripInfix | src/mydra/mydra.py:55 | `strip` returns an infix of the line with only stripped characters around it, and the result neither starts nor ends with one |
| Text.ContainsIff | src/mydra/mydra.py:56-58 | `sub in s` holds exactly when some window of `s` equals `sub` |
| Text.Split | src/mydra/mydra.py:242 | `split` always returns at least one piece |
| Text.SplitJoin | src/mydra/mydra.py:242 | joining the pieces of `split(sep)` with `sep` gives back the string |
| Text.SplitPiecesAreFree | src/mydra/mydra.py:242 | no piece of `split(sep)` contains `sep`, so the split cuts at every occurrence |
| Text.SplitLeading | src/mydra/mydra.py:242 | a prefix in which no separator starts joins the first piece of the split of what follows it |
| Text.JoinSplitBack | src/mydra/mydra.py:242 | splitting pieces joined with the separator gives the pieces back when no separator starts inside any of them |
| Text.LastIndexOfSpec | src/mydra/mydra.py:143 | the last-occurrence search finds the character and nothing after it matches; -1 means it is absent |
| Text.IndexOfSpec | src/mydra/mydra.py:272 | the first-occurrence search finds the character and nothing before it matches; -1 means it is absent |
| Text.BasenameSpec | src/mydra/generate.py:26 | `os.path.basename` is the suffix after the last '/': it has no '/', and a '/' precedes it unless it is the whole path |
| Text.SplitExtRootSpec | src/mydra/mydra.py:272 | `splitext(p)[0]` is a prefix of `p`. When it cuts, it cuts off one extension: a '.' with no further '.' or '/' after it, and a character other than '.' before it in the last path component |
| Text.SplitExtRootCut | src/mydra/mydra.py:272 | a cut is made at the last '.', which lies after the last '/' and after a character other than '.' of the same component |
| Text.SplitExtRootKeeps | src/mydra/mydra.py:272 | the converse: `splitext` keeps the whole path only when every character in front of a '.' of the last component is itself a '.' |
| Text.AfterFirstDashSpec | src/mydra/mydra.py:272 | `split("-", 1)[1]` fails exactly when there is no '-', and otherwise is what follows the first '-' |
| Text.Head | src/mydra/generate.py:45 | `s[:n]` has min(n, \|s\|) characters and is a prefix of `s` |
| Collections.SetToSeq | src/mydra/mydra.py:262 | `list(set)` has every element of the set once and nothing else |
| Collections.ExceptMembers | src/mydra/mydra.py:262 | the filtered list keeps exactly the elements outside the removed set |
| Collections.ExceptDistinct | src/mydra/mydra.py:262 | filtering keeps a list free of repeats |
| Collections.RemoveFirst | src/mydra/mydra.py:269 | `list.remove(x)` fails (ValueError) exactly when `x` is not in the list |
| Collections.RemoveFirstCuts | src/mydra/mydra.py:269 | `list.remove(x)` cuts out the first occurrence of `x` and nothing else |
| Collections.RemoveExcept | src/mydra/mydra.py:266-269 | on a list without repeats, removing the listed paths one by one equals filtering them out all at once |
| DryRun.BuildDry | src/mydra/mydra.py:51-65 | succeeds exactly when every stripped line is a header, a blank, or a path under some header. Then each path goes to the list of the most recent header, in order. Otherwise it fails at the first bad line, with "dry-run parsing failed" for garbage or the missing-section error for a path before any header |
| DryRun.Run | src/mydra/mydra.py:39-65 | `build_dry` succeeds exactly when the tool runs and every line of its report is accepted, and then returns the parsed lists. Otherwise it fails with the tool's failure, or with the rejection of the first bad line |
| DryRun.IndentedPath | src/mydra/mydra.py:55-60 | an indented printable store path strips back to itself and reads as a path line |
| DryRun.PrefixStable | src/mydra/mydra.py:54-63 | what the parser holds after n lines does not depend on later lines |
| DryRun.Snoc | src/mydra/mydra.py:54-63 | one more line moves the section only if it is a header, adds only itself to one list, and keeps earlier lines accepted |
| DryRun.IndentedBlock | src/mydra/mydra.py:54-61 | a block of indented paths under a header adds exactly those paths, in order, to that header's list and nothing to the other |
| DryRun.StripKeeps | src/mydra/mydra.py:55 | `strip` leaves a line with no blank space at either end unchanged |
| DryRun.BuildHeaderNotFetch | src/mydra/mydra.py:56-58 | the "will be built" header does not contain the "will be fetched" phrase, so the first test cannot capture it |
| DryRun.HeaderLines | src/mydra/mydra.py:56-59 | each header line selects its own section |
| DryRun.RenderToBuild | src/mydra/mydra.py:54-61 | the build header followed by its paths parses to exactly those paths |
| DryRun.ParseRender | src/mydra/mydra.py:39-65 | parsing the report the dry run prints for any lists of printable paths accepts every line and gives back both lists |
| Monitor.FirstReasonAt | src/mydra/mydra.py:239-257 | the first line naming a derivation decides its reason |
| Monitor.FirstReasonNone | src/mydra/mydra.py:239-257 | a derivation has no first reason exactly when no line names it |
| Monitor.FirstReasonFrom | src/mydra/mydra.py:239-257 | a first reason is the reason of some line naming the derivation |
| Monitor.VerdictRange | src/mydra/mydra.py:233-257 | a derivation is classified exactly when some line names it, and only as DEP FAILED, BUILD TIMEOUT or BUILDER FAILED |
| Monitor.FirstReasonSnoc | src/mydra/mydra.py:239-257 | a new line sets the first reason only for derivations that had none |
| Monitor.VerdictSnoc | src/mydra/mydra.py:233-257 | a "cannot build" line forces DEP FAILED; any other line sets its reason only on unclassified derivations it names |
| Monitor.NamedNonEmpty | src/mydra/mydra.py:233-254 | every recognised line names at least one derivation, and all but "build of ... failed" exactly one |
| Monitor.QuoteNoSep | src/mydra/mydra.py:167 | a quoted path without ", " lets no ", " start inside it, not even one running into the separator after it |
| Monitor.StripQuote | src/mydra/mydra.py:242 | stripping the quotes off a quoted path without quotes of its own gives back the path |
| Monitor.NamedRecovers | src/mydra/mydra.py:241-242 | for paths holding neither a quote nor ", ", the list of a "build of ... failed" line names exactly the quoted paths joined into it, in order |
| Monitor.ClassifyOutput | src/mydra/mydra.py:204-260 | after the loop, the failure map gives every derivation exactly its verdict over all recognised lines |
| Monitor.ReadLine | src/mydra/mydra.py:228-257 | one recognised line updates the map as its pattern's rule says, leaving every other derivation alone |
| Monitor.MarkUnset | src/mydra/mydra.py:242-257 | the named derivations without a reason get this one; all others keep theirs |
| Monitor.RemovableSnoc | src/mydra/mydra.py:266-269 | one more listed path can be removed exactly when it is in the succeeded list and was not removed already |
| Monitor.Reclassify | src/mydra/mydra.py:264-269 | succeeds exactly when the listed paths are distinct members of the succeeded list. Then the succeeded list loses exactly them and each is marked MYDRA TIMEOUT, others unchanged. Otherwise it fails with ValueError at the first path that cannot be removed |
| Monitor.SucceededNamesSpec | src/mydra/mydra.py:271-273 | the name set is computed exactly when every succeeded derivation has a '-' and is then exactly their names |
| Monitor.SucceededNamesError | src/mydra/mydra.py:271-273 | otherwise the IndexError names the first derivation without a name |
| Monitor.MatchingPaths | src/mydra/mydra.py:282-286 | fails exactly when some non-empty realize line has no '-'. Otherwise it keeps the non-empty lines whose part after the first '-' is a succeeded name, and no others |
| Monitor.MatchingPathsError | src/mydra/mydra.py:282-286 | the failure names the first non-empty line without a '-', where `split("-", 1)[1]` raises |
| Monitor.MatchingPathsSnoc | src/mydra/mydra.py:282-286 | one more line keeps an error, becomes the error when it is non-empty without a '-', and is appended after all earlier kept lines exactly when it carries a succeeded name. So order and repeats follow the output |
| Monitor.Pair | src/mydra/mydra.py:288 | `dict(zip(ds, sps))` has exactly the keys of `ds`, values from `sps`, and pairs by position when `ds` has no repeats |
| Monitor.TimeoutPass | src/mydra/mydra.py:264-269 | succeeds exactly when the dry run over the succeeded list is accepted and lists distinct succeeded paths only. Then the listed paths leave the succeeded list and read MYDRA TIMEOUT, every other entry unchanged. Otherwise it fails as the dry run does, or with the ValueError of the first path that cannot be removed |
| Monitor.Settle | src/mydra/mydra.py:204-269 | the pending derivations are exactly the inputs no line names. Without a timeout it succeeds and every failure is the verdict. After one, it succeeds exactly when the dry run over the pending list is accepted and lists distinct pending paths only. Then those paths, and no others, are MYDRA TIMEOUT and leave the succeeded list, and every other failure is the verdict. Otherwise the error is the dry run's, or the ValueError of the first listed path that cannot be removed |
| Monitor.Realize | src/mydra/mydra.py:271-288 | succeeds exactly when every succeeded derivation has a name, `nix-store --realize` runs, no non-empty output line lacks a '-', and the matching lines number as many as the derivations. Then the result pairs the i-th derivation with the i-th matching line. Otherwise the error is the first nameless derivation, the tool failure, the first line without '-', or the count mismatch of the assertion |
| Monitor.BuildUncached | src/mydra/mydra.py:157-288 | empty input gives two empty maps without building. Otherwise the pending derivations are exactly the inputs no line names, and the run succeeds exactly when the pass after a timeout, if any, and the realisation of the survivors go through. The successes are the survivors paired with their store paths. Each failure is the verdict, or MYDRA TIMEOUT for exactly the paths the dry run lists after a timeout. An error is the one the failing step gives |
| Monitor.UncachedSettles | src/mydra/mydra.py:262-288 | what `_build_uncached` returns settles each input one way: successes and failures are disjoint and cover the input, only inputs succeed, and MYDRA TIMEOUT only marks a derivation no line named, after a timeout |
| Orchestrator.InvertDomain | src/mydra/mydra.py:83 | the inverted map holds exactly the derivations some attribute evaluated to; failed evaluations are dropped |
| Orchestrator.InvertLast | src/mydra/mydra.py:83 | of several attributes with the same derivation, the last one is kept |
| Orchestrator.InvertFrom | src/mydra/mydra.py:83 | every entry of the inverted map is one evaluated (attribute, derivation) pair |
| Orchestrator.Instantiate | src/mydra/mydra.py:68-92 | fails when `nix.eval` raises, and otherwise exactly when `nix-instantiate` fails on the surviving attributes. The result holds exactly the derivations some attribute evaluated to, each entry from one evaluation |
| Orchestrator.DrvMap.AddDependencies | src/mydra/mydra.py:105-107 | existing entries are kept unchanged, every dependency gets an entry, and new entries are dependencies with attribute "" |
| Orchestrator.FailureCache.Loaded | src/mydra/mydra.py:115-119 | the stored map is read when the cache is used or written and the file exists; otherwise the map is empty |
| Orchestrator.FailureCache.Save | src/mydra/mydra.py:150-152 | the file afterwards holds the given map |
| Orchestrator.LogDir.SaveLog | src/mydra/mydra.py:143-148 | a log is written under the base name only when no such file exists and `nix log` has one |
| Orchestrator.LogDir.Archive | src/mydra/mydra.py:141-148 | existing files are untouched, every derivation with a log ends up with a file, every new file is the log of a derivation of that base name, and a second run over the same derivations changes nothing |
| Orchestrator.Partition | src/mydra/mydra.py:121-129 | with the cache, exactly the cached derivations leave the build set and fail with their cached reason; without it, everything is built |
| Orchestrator.RememberFailures | src/mydra/mydra.py:136-139 | every failure except MYDRA TIMEOUT is stored, no cache entry is dropped, and a MYDRA TIMEOUT in the result was already cached |
| Orchestrator.Expand | src/mydra/mydra.py:103-107 | the dry run runs over the map's keys. It fails exactly as `build_dry` does, and then the map is unchanged. Otherwise the keys become the old keys plus the dry run's "will be built" paths, old entries keep their attribute and new ones get "" |
| Orchestrator.BuildRest | src/mydra/mydra.py:121-134 | the uncached build runs over the map minus the cached keys (with the cache) or the whole map, and its error is the result's. The successes are its successes. The failures are its failures plus, with the cache, the cached keys of the map; each has its fresh reason if it has one and its cached reason otherwise |
| Orchestrator.BuildAll | src/mydra/mydra.py:131-133 | `_build_uncached(list(drvs))` over a list holding the set once each, with all its facts; each requested derivation is settled one way and only they succeed |
| Orchestrator.WriteBack | src/mydra/mydra.py:136-152 | the saved cache holds exactly the loaded entries plus the non-timeout failures, each failure with its new reason and every other entry as loaded. Every derivation with a log has a file, old files are kept, every new file is the log of a derivation of that base name, and nothing is written when every derivation already has a file or no log |
| Orchestrator.Build | src/mydra/mydra.py:95-154 | a failing dry run is the error and leaves the map unchanged. Otherwise the map grows by the "will be built" paths with "", and the result is the uncached build's over the uncached keys, merged with the cached failures as BuildRest states. Without writing, or on error, cache and logs are untouched. With writing, the saved cache and the logs are as WriteBack states |
| Cli.ProductLength | src/mydra/cli.py:32-35 | the product has \|versions\|·\|names\| attributes |
| Cli.ProductAt | src/mydra/cli.py:32-35 | version i with name j sits at position i·\|names\|+j: version outer, name inner |
| Cli.ProductLayout | src/mydra/cli.py:32-35 | the product's whole layout, every pair at its position |
| Cli.ExpandPackageAttrnames | src/mydra/cli.py:26-37 | fails with NotImplementedError exactly when `mydraApi` is not "0" |
| Cli.ExpandLayout | src/mydra/cli.py:32-37 | an accepted configuration gives \|versions\|·\|names\| + \|natives\| attributes: `python{ver}Packages.{name}` in product order, then the natives verbatim and in order |
| Cli.ResultRows | src/mydra/cli.py:45-52 | one row per success, then one per failure. Success rows carry the attribute, SUCCESS and the store path. Failure rows carry the attribute or "", the reason and the derivation, with a white mark for CANNOT BUILD and a red one otherwise |
| Cli.Items | src/mydra/cli.py:46-49 | `dict.items()` lists each entry exactly once |
| Cli.Layout | src/mydra/cli.py:45-52 | the rows of `execute`: the items of the successes, then those of the failures, each entry listed once. Each row holds exactly what ResultRows gives it, a tick marks exactly the success rows, all of which read SUCCESS, and every tick comes first |
| Cli.SuccessRowsCover | src/mydra/cli.py:46-48 | every success row is the row of one succeeded derivation, and every succeeded derivation has a row with its store path |
| Cli.FailureRowsCover | src/mydra/cli.py:49-52 | every failure row is the row of one failed derivation, and every failed derivation has a row |
| Cli.Execute | src/mydra/cli.py:40-52 | refuses a configuration whose API is not "0"; every ticked row says SUCCESS, and all ticked rows come before every crossed one |
| Generate.LinkRoundTrip | src/mydra/generate.py:29 | a Markdown link whose text has no ']' reads back as its text and target |
| Generate.FmtStatusLink | src/mydra/generate.py:24-30 | the cell is the plain DEP FAILED exactly when the status is DEP FAILED |
| Generate.StatusLinkRoundTrip | src/mydra/generate.py:24-30 | a DEP FAILED cell is no link. Any other cell links the status to LOG_URL plus the derivation's base name |
| Generate.BasenameOf | src/mydra/generate.py:26 | the base name of `dir/file` is `file` |
| Generate.NameColumnOfStorePath | src/mydra/generate.py:33 | for `dir/<32-char hash>-<name>.drv` the name column is exactly `name` |
| Generate.ExtRootOfStorePath | src/mydra/mydra.py:272 | `splitext` of such a path drops exactly ".drv" |
| Generate.DashOfStorePath | src/mydra/mydra.py:272 | its first '-' is the one after the hash |
| Generate.NameColumnIsDrvName | src/mydra/generate.py:33 | the page's name column and the name realization matches by agree on such paths |
| Generate.PrecedesTotal | src/mydra/generate.py:40 | Python's string order is total |
| Generate.PrecedesTransitive | src/mydra/generate.py:40 | Python's string order is transitive |
| Generate.InsertElements | src/mydra/generate.py:40 | inserting adds exactly one copy of the element |
| Generate.InsertSorted | src/mydra/generate.py:40 | inserting keeps a sorted list sorted |
| Generate.SortSorted | src/mydra/generate.py:40 | `sorted` returns an ascending list |
| Generate.SortElements | src/mydra/generate.py:40 | `sorted` returns a permutation of its input |
| Generate.SortSpec | src/mydra/generate.py:40 | `sorted` returns the same elements in ascending order |
| Generate.FailedRowsMembers | src/mydra/generate.py:40 | an attribute is collected exactly when some row with status BUILDER FAILED or DEP FAILED has it, non-empty |
| Generate.FailedAttrsSpec | src/mydra/generate.py:40 | `failed_attrs` is sorted, keeps each counted attribute as often as it occurs, and holds no other |
| Generate.CommitLinkSpec | src/mydra/generate.py:45-51 | title and link text show the first 8 characters of the commit (all of it if shorter), and the link goes to the full commit |

## Left out

- Running the tools is not modelled. That covers `nix build`, `nix-store --realize` (with and without `--dry-run`), `nix-instantiate`, `nix.eval` and `nix log`. They are foreign processes, and their outputs are fields of `NixTool.Nix`.
- The process handling of `nix build` is not modelled: the pexpect pseudo-terminal, the window-size ioctl and the SIGWINCH handler. This is terminal and signal plumbing.
- `kill(9)` is not modelled.
- The regular expressions are not modelled. A build event arrives already recognised, as `NixTool.Event`. The model keeps the split of the quoted list at ", " and the stripping of the quotes.
- The deadline and `datetime.now()` are not modelled. The build stream carries a flag saying whether the read loop stopped on the deadline or at end of output.
- JSON reading and writing of the cache, AppDirs and `mkdir` are not modelled. The cache file is a map or nothing, and the log directory a map from file name to contents.
- Python's dict and set iteration order is not modelled. `list(set)` and `list(dict)` are produced by `Collections.SetToSeq`, which chooses some order. `Cli.Items` likewise chooses the order of `dict.items()`. Properties that depend on a particular order are not claimed.
- In `instantiate`, the order of the evaluated attributes is the order the `nix.eval` oracle returns, and the `nix-instantiate` expression text is not modelled.
- In `generate.py`, the pandas DataFrame plumbing, the date and timezone formatting, the Markdown file writing, hugo and the temporary directory handling are not modelled. They are I/O and library calls. The page's cells are modelled as functions on one record.
- In `cli.py`, argparse, strictyaml loading, the termcolor colours and tabulate printing are not modelled. The configuration is a datatype, and a row's colour is the `Mark` datatype.
- Cli.Execute: states the order and SUCCESS status of the success rows only. The full contents of every row are stated by Cli.Layout, which `execute` ends with.
- Cli.Execute: `execute` calls `build` without a deadline, so in the source its build stream never times out. The model lets `nix.build` report a timeout there as well, so it admits MYDRA TIMEOUT results that `execute` cannot meet. The deadline itself is not modelled: `build` receives the stream with its timeout flag already set.
- Monitor.BuildUncached: its own ensures is the `Uncached` predicate. The derived facts (disjointness, coverage, where MYDRA TIMEOUT can appear) are stated by Monitor.UncachedSettles, which callers apply. They follow from `Uncached` alone, so they are proved once, apart from the method.
- Text.BasenameSpec: models `os.path.basename`, the function `generate.py` uses. The log files of `build` are named with `Path(drv).name`, which differs only for a path ending in '/', for example 'a/b/'. `Path` gives 'b' and `basename` gives ''. Derivation paths never end in '/', so `Orchestrator.LogDir` uses Basename for both.
- Generate.StatusLinkRoundTrip: the read-back is stated only for statuses without ']'. A ']' in the text would end the link text early.
- Generate.NameColumnIsDrvName: stated for paths whose directory has no '-' and whose hash has no '-', '.' or '/', as nix store paths are. Other paths are not covered.
- Text.Split: models `str.split` with a non-empty separator only, the only form the source uses.
