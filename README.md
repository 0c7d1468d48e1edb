# gts: directory search core, modelled in Dafny

`gts` prints the directories whose name contains a target fragment. It
searches from the working directory and stays inside a configured set of
top-level roots. The plain form descends from the working directory with a
depth budget. The `../` form walks up through the ancestors: it tests each
one as a match and searches down from it (the intended behaviour; see
"## Findings"). This project models that core of
`gts.c`:

- the visited set: a djb2 chained hash table
- the exclusion and root-boundary filters
- `search_down` and `search_up_and_down`
- the command and marker routing in `main`
- the line rules of `read_config`

The filesystem is given as data (`Filters.Env`):
- `listings` stands in for `opendir`/`readdir`, in the order `readdir` yields entries.
- `directories` stands in for `stat` with `S_ISDIR`.
- `realpath` is a partial map; a missing key means resolution failed.
- `dirname` and `basename` are function-valued fields.

Modules, one per component:

- `Text`: `strstr` and the `strncmp` prefix test over strings.
- `Visited`: `hash` (the djb2 loop), `insert_hash`, `is_visited`. It is a class over an array of bucket sequences. A ghost set `Elements` records what was inserted.
- `Filters`: the environment, the configuration, `is_excluded`, `is_within_top_level_dirs`.
- `Results`: the `results` array of capacity 20 and `result_count`, as a class.
- `Descent`: `search_down`.
  - The pure functions `Down`/`Entries`/`Step` give its meaning over a state (visited set, result list).
  - The methods `SearchDown`/`VisitEntry` run it in place and are proved to produce exactly that state.
  - `Under` is the reachability relation. It states which paths the descent may mark or report.
- `Ascent`: `search_up_and_down`.
  - The function `Ascend` gives its meaning.
  - The method `SearchUpAndDown` has the `current_path`/`up_depth` loop and is proved equal to `Ascend`.
  - `FromWalk` states which ancestor accounts for each result.
- `Routing`: `main`'s command check and mode routing. `RunSearch` runs the chosen search on a fresh table and buffer.
- `Configuration`: `read_config`'s line rules over the lines read from the file.

In two places the model keeps the code's behaviour even where a reader would expect otherwise:

- **Depth bound.** `search_down` lists a directory while `depth <= max_depth` and recurses with `depth + 1`. So matches can lie `max_depth + 1` levels below the start, and `immediate` reaches grandchildren. `Descent.ImmediateReachesGrandchild` shows one such case. A bound of `max_depth` levels does not hold for the code.
- **Prefix collisions.** The root boundary is a plain string prefix, so a root `/home/user` admits `/home/user2` (`Filters.RootPrefixCollision`).

## Model

| member | source | states |
|---|---|---|
| `Text.FindFrom` | gts.c:75 | the scan returns the first offset at or after `from` where the needle occurs, and None exactly when there is none |
| `Text.Strstr` | gts.c:188 | `strstr` finds the first occurrence; it finds one iff the needle is a contiguous substring |
| `Text.Contains` | gts.c:214 | `strstr(...) != NULL` iff the target is a contiguous substring of the name |
| `Text.HasPrefix` | gts.c:146 | `strncmp(real, root, strlen(root)) == 0` iff the root fits in the path and agrees on every one of its characters |
| `Text.EmptyNeedleAlwaysFound` | gts.c:188 | an empty target is found at offset 0 of every name, so it matches every eligible directory |
| `Text.SubstringOfExtension` | gts.c:75 | a substring stays a substring inside any longer string |
| `Visited.SignedChar` | gts.c:36-38 | the hashed value of a character is its byte sign-extended as a signed `char`: in [-128, 128), negative iff the byte is at least 128, and congruent to the character modulo 256 |
| `Visited.Djb2` | gts.c:35-38 | the djb2 value stays within `unsigned long` (below 2^64) |
| `Visited.BucketOf` | gts.c:39 | the bucket index is below HASH_TABLE_SIZE (10007) |
| `Visited.Hash` | gts.c:34-40 | the character loop computes djb2 mod 10007, the bucket of the string |
| `Visited.HashTable.constructor` | gts.c:243 | a fresh table has all 10007 buckets empty and nothing inserted |
| `Visited.HashTable.Insert` | gts.c:42-48 | the path is prepended to its bucket, other buckets are unchanged, and the inserted set grows by exactly the path |
| `Visited.HashTable.IsVisited` | gts.c:50-59 | the chain walk answers true iff the path was inserted earlier |
| `Filters.Join` | gts.c:174 | the child path is the directory, one `/`, then the entry name |
| `Filters.IsHidden` | gts.c:170 | no contract of its own: `.`, `..` and every dot-name are skipped; `Descent.StepSkips` states that such an entry leaves the state unchanged |
| `Filters.IsExcluded` | gts.c:73-80 | a name is excluded iff some exclusion is a contiguous substring of it |
| `Filters.SomeRootPrefixes` | gts.c:145-150 | the root loop answers true iff some root is a prefix of the canonical path |
| `Filters.WithinRoots` | gts.c:139-151 | false when `realpath` fails; otherwise true iff some root is a prefix of the canonical path |
| `Filters.ExclusionIsBySubstring` | gts.c:73-80 | an exclusion word excludes every name that contains it (`cache` excludes `mycache2`) |
| `Filters.RootPrefixCollision` | gts.c:146 | root `/home/user` admits a path whose canonical form is `/home/user2` |
| `Results.ResultList.Contents` | gts.c:241-242 | the recorded matches number `result_count`, at most MAX_RESULTS (20) |
| `Results.ResultList.constructor` | gts.c:241-242 | the buffer has 20 slots and holds no result |
| `Results.ResultList.Append` | gts.c:189-190 | with a free slot, the path is appended after the earlier results |
| `Descent.DownFacts` | gts.c:153-198 | the descent only grows the visited set and appends results. It keeps the cap of 20, distinct results, results within visited. Every path it newly marks, or newly reports, is reachable within `max_depth - depth + 1` listings through admitted, descendable entries. A reported path is a non-excluded directory whose name contains the target and was unvisited before |
| `Descent.EntriesFacts` | gts.c:169-195 | the same guarantees for the `readdir` loop from any entry on |
| `Descent.StepFacts` | gts.c:170-194 | the same guarantees for one entry, the recursion below it included |
| `Descent.UnderIsInsideRoots` | gts.c:176-178 | every reachable path is inside the roots and textually below the start directory; a reachable match is a directory |
| `Descent.StepSkips` | gts.c:170-187 | hidden, out-of-root or visited entries leave the state unchanged; a non-directory or excluded directory is only marked visited |
| `Descent.StepReportsBeforeDescending` | gts.c:188-192 | a matching directory is reported before anything found below it (pre-order) |
| `Descent.StepMarksNoSibling` | gts.c:170-194 | one entry's pass never marks a sibling path `dir/n` (`n` without `/`): it marks its own path and paths below it |
| `Descent.EntriesReportsMatchingChildren` | gts.c:169-194 | completeness of the `readdir` loop: every entry from the current index on that is admitted, unvisited, a non-excluded directory, `/`-free and contains the target is reported, unless the loop ended at the cap of 20 |
| `Descent.DownReportsMatchingChildren` | gts.c:153-194 | completeness of one level: within the depth budget, every such child of a listed directory is in the results unless the cap is reached |
| `Descent.ImmediateReachesGrandchild` | gts.c:160-192 | with `max_depth` 1 a grandchild of the start directory is reported |
| `Descent.SearchDown` | gts.c:153-198 | the in-place descent over the hash table and result buffer produces exactly the state `Down` gives |
| `Descent.VisitEntry` | gts.c:170-194 | one loop pass produces exactly the state `Step` gives |
| `Descent.Down` | gts.c:153-167 | no contract of its own: the meaning of `search_down`. `Descent.DownFacts` states its soundness, `Descent.DownReportsMatchingChildren` its completeness, and `Descent.SearchDown` that the code computes it |
| `Descent.Entries` | gts.c:169-195 | no contract of its own: the `readdir` loop. `Descent.EntriesFacts` and `Descent.EntriesReportsMatchingChildren` state its properties |
| `Descent.Step` | gts.c:170-194 | no contract of its own: one entry. `Descent.StepFacts`, `Descent.StepSkips` and `Descent.StepReportsBeforeDescending` state its properties, and `Descent.VisitEntry` that the code computes it |
| `Ascent.AncestorStepFacts` | gts.c:210-219 | processing an ancestor grows the state and keeps the cap and distinct results. Everything new comes from that unvisited ancestor: its own unexcluded path, or a path within `max_down + 1` levels below it |
| `Ascent.AncestorStepSkips` | gts.c:210-219 | an excluded or visited ancestor is neither matched nor searched from; otherwise it is marked, and reported first when its name contains the target |
| `Ascent.ClimbableReachesInsideRoots` | gts.c:206-208 | every ancestor the walk reaches is inside the roots |
| `Ascent.AscendFacts` | gts.c:200-229 | the walk keeps the cap and distinct results. Every path it marks or reports comes from one of the first `max_up` ancestors: each ancestor on the way is inside the roots, none below it is the filesystem root, and the ancestor itself is unexcluded and was unvisited |
| `Ascent.AscentContinuesToParent` | gts.c:221-227 | below the filesystem root, with steps and room left, the walk goes on from `dirname` of the current path |
| `Ascent.AsWrittenWithoutAliasingIsAscend` | gts.c:221-222 | the stop test as written equals the intended walk when `dirname` leaves its argument alone |
| `Ascent.AsWrittenStopsAfterFirstAncestor` | gts.c:221-222 | with an in-place `dirname` the walk as written processes only the working directory, whatever `max_up` is |
| `Ascent.DirnameAliasingExample` | gts.c:221-226 | from `/r/a` under root `/r` with target `r`, the intended walk reports `/r`, and the walk as written reports nothing |
| `Ascent.ProcessAncestor` | gts.c:210-219 | the in-place loop body produces exactly the state `AncestorStep` gives |
| `Ascent.SearchUpAndDown` | gts.c:200-229 | the `current_path`/`up_depth` loop produces exactly the state `Ascend` gives |
| `Ascent.AncestorStep` | gts.c:210-219 | no contract of its own: one ancestor's pass. `Ascent.AncestorStepFacts` and `Ascent.AncestorStepSkips` state its properties, and `Ascent.ProcessAncestor` that the code computes it |
| `Ascent.Ascend` | gts.c:200-229 | no contract of its own: the intended ancestor walk. `Ascent.AscendFacts` and `Ascent.AscentContinuesToParent` state its properties, and `Ascent.SearchUpAndDown` that the code computes it |
| `Ascent.AscendAsWritten` | gts.c:205-228 | no contract of its own: the walk with the stop test as written. `Ascent.AsWrittenWithoutAliasingIsAscend` and `Ascent.AsWrittenStopsAfterFirstAncestor` state its behaviour |
| `Routing.ParseCommand` | gts.c:247-251 | `search` and `immediate` are the only accepted commands; anything else is the usage error |
| `Routing.OutcomeFacts` | gts.c:258-267 | at most 20 results, none twice, all inside the roots. Without `../`, each result is a match reachable within `max_down + 1` levels of the working directory. With it, each result comes from one of the first `max_up` ancestors, and the marker is stripped from the target |
| `Routing.ImmediateIsSearchWithUnitBudgets` | gts.c:258-259 | `immediate` is the same search with both budgets at 1 |
| `Routing.RunSearch` | gts.c:258-267 | a search on a fresh table and buffer yields the routed outcome: at most 20 distinct results, all inside the roots |
| `Routing.Budgets` | gts.c:258-259 | no contract of its own: 1/1 for `immediate`, 4/4 otherwise. `Routing.ImmediateIsSearchWithUnitBudgets` states its use |
| `Routing.HasAscentMarker` | gts.c:261 | no contract of its own: the `strncmp(target, "../", 3)` test, which is `Text.HasPrefix`. `Routing.OutcomeFacts` states what each branch yields |
| `Routing.Outcome` | gts.c:258-267 | no contract of its own: the routed search. `Routing.OutcomeFacts` states its properties, and `Routing.RunSearch` that the code computes it |
| `Configuration.RunLength` | gts.c:108-109 | the run at the front contains no separator and ends at one or at the end |
| `Configuration.Tokens` | gts.c:108-118 | `strtok` yields no token from an empty string, and only non-empty tokens without the separator |
| `Configuration.TokensSplit` | gts.c:115-119 | tokenising `s + sep + t` yields the tokens of `s` followed by those of `t` |
| `Configuration.TokensOfPlainWord` | gts.c:108-109 | a non-empty string without the separator is a single token |
| `Configuration.StripNewline` | gts.c:105 | the result is a newline-free prefix of the line that stops at a newline or at the end: the line cut at its first newline |
| `Configuration.StripNewlineOfPlain` | gts.c:105 | a line without a newline, or ending where one starts, is kept whole |
| `Configuration.ApplyLine` | gts.c:105-121 | no contract of its own: one line's rules. `Configuration.ApplyLineKeepsCaps` states its properties |
| `Configuration.ApplyLines` | gts.c:104-122 | no contract of its own: the `fgets` loop. `Configuration.ApplyLinesKeepsCaps` states its properties |
| `Configuration.ReadConfig` | gts.c:82-137 | no contract of its own: `read_config`. `Configuration.ReadConfigFacts` states its properties |
| `Configuration.ApplyLineKeepsCaps` | gts.c:104-121 | a line keeps at most 5 roots and 20 non-empty, comma-free exclusions, and only appends |
| `Configuration.ApplyLinesKeepsCaps` | gts.c:104-122 | the same over all lines |
| `Configuration.ReadConfigFacts` | gts.c:82-137 | the configuration has 1 to 5 roots and 1 to 20 non-empty, comma-free exclusions, for any `$HOME`, the empty string included. Without a file it is `$HOME` and `node_modules`. With a file, roots are `[$HOME]` when no line set one and exclusions `["node_modules"]` when none were set; a list the file filled is kept as read |

## Findings

| source | as written | input that shows it | evidently intended | confidence | as-written member | corrected member |
|---|---|---|---|---|---|---|
| gts.c:221-222 | `dirname(current_path)` rewrites `current_path` and returns that buffer (glibc). `strcmp(parent, current_path)` then compares a buffer with itself, so the walk always stops after the first ancestor | working directory `/r/a` under root `/r`, target `../r`: `/r` is never examined (`Ascent.DirnameAliasingExample`) | stop only when the parent equals the current path | high for glibc's `dirname`, not executed | `Ascent.AsWrittenStopsAfterFirstAncestor` | `Ascent.AscentContinuesToParent` |

The rest of the model (`Ascend`, `SearchUpAndDown`, `RunSearch`) uses the
intended test, `dirname(p) == p`, with `dirname` taken by value.
`AscendAsWritten` keeps the code as written, parametrised by whether
`dirname` rewrites its argument.

## Left out

- File and environment access in `read_config` (`getenv`, `fopen`, `fgets`, gts.c:83-104): the lines and `$HOME` are parameters. `fgets` cuts lines longer than 255 bytes into several pieces; each piece counts as one line. The choice of config file path is not modelled.
- `realpath`, `opendir`/`readdir`/`closedir`, `stat`, `getcwd`: foreign system calls, given as `Filters.Env` data and parameters. `readdir` order is whatever the listing holds.
- `dirname` and `basename` are abstract functions in `Filters.Env`; POSIX's trailing-slash rules are not modelled.
- Symbolic links: the visited set dedups by path string, not by file identity. Cycles are not analysed; the descent terminates because its depth is bounded.
- `free_hash_table` and the freeing in `main` (gts.c:61-71, gts.c:269-282): memory management only. Allocation failure is not modelled.
- Argument handling, printing and exit codes in `main` (gts.c:232-245, gts.c:253-256, gts.c:269-284). That includes the `""` default target of gts.c:239.
- `snprintf` truncation to MAX_PATH (gts.c:174) and the `strncpy` copies (gts.c:225-226): paths are unbounded strings, and `Filters.Join` is plain concatenation.
- MAX_VISITED (gts.c:15) is defined but never used by the code, so the table is unbounded here too.
- Visited.Djb2: takes `unsigned long` as 64 bits and `char` as signed, as on x86-64 Linux; other widths are not modelled.
- Strings are byte strings: each `char` stands for one byte of a C string. Characters at or above 256 are out of scope; `Visited.SignedChar` reduces them modulo 256.
