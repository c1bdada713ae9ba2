# reuseify, modelled in Dafny

reuseify is a two-command helper around the REUSE tool.

- `get-authors` runs `reuse lint` and collects the files the report lists as lacking licensing information. It drops paths excluded by shell-glob patterns and paths git ignores. It then asks `git log` for each remaining file's authors and writes a JSON map from path to sorted author list.
- `annotate` reads that map. It decides for each entry whether to annotate the file or skip it, and why. It runs `reuse annotate` with one `--contributor` pair per author. It then sorts the runs into passed and failed by exit status and prints a tally.

This project models the decision logic of both commands. Every subprocess, filesystem query and JSON read is a parameter: a `Completed` record (return code, stdout, stderr) for a finished run, a function from input to `Completed` for a run that depends on its input, and a `string -> bool` for `os.path.isfile`. The model proves the properties the code promises about that logic.

Modules (one file each):

- `Strings` (`strings.dfy`): `strip`, `startswith`, `endswith`, `splitlines` and `"\n".join`. Whitespace and line breaks use CPython's character sets.
- `StringOrder` (`string_order.dfy`): Python's `<` on strings, and `sorted(set(xs))`.
- `Seqs` (`seqs.dfy`): filtering comprehensions `[x for x in xs if keep(x)]`, and the subsequence relation.
- `FnMatch` (`fnmatch.dfy`): `fnmatch.fnmatch` on a POSIX host.
- `AuthorMaps` (`author_maps.dfy`): subprocess results, and the author map as an insertion-ordered list of `(path, authors)` entries with dict lookup and assignment.
- `GetAuthors` (`get_authors.dfy`): `src/reuseify/get_authors.py`.
- `Annotate` (`annotate.dfy`): `src/reuseify/annotate.py`.

How each form is modelled:

- Comprehensions and expressions are functions: `is_path_excluded`, `filter_git_ignored` and `get_git_authors`.
- The loops are methods whose loop invariants tie them to functions defined on the prefix processed so far. They are the `reuse lint` parser loop, the author-map loop in `main`, the partition loop, the contributor-flag loop and the run loop. Lemmas then state the source's promises about those functions.

Two behaviours of the code that are easy to miss:

- `Annotate.Dispose`: a missing file that has authors is skipped with the reason `file not found` (src/reuseify/annotate.py:99).
- `GetAuthors.GitAuthors`: the whole `git log` output is stripped before it is split into lines (src/reuseify/get_authors.py:99). A blank line in the middle of the output therefore gives the name `""`.

## Model

| member | source | states |
|---|---|---|
| Strings.Strip | src/reuseify/get_authors.py:83-85 | the stripped text is empty exactly when the line is all whitespace, and otherwise starts and ends with non-whitespace |
| Strings.StripIsInfix | src/reuseify/get_authors.py:85 | `strip()` removes whitespace at the two ends and nothing else: the result is a slice of the input with only whitespace around it |
| Strings.StripUnchanged | src/reuseify/get_authors.py:85 | text with no whitespace at either end is returned unchanged |
| Strings.SplitLines | src/reuseify/get_authors.py:82 | no line holds a line break; there are no lines exactly when the text is empty; there are never more lines than characters |
| Strings.SplitLinesOfJoin | src/reuseify/get_authors.py:56-60 | joining break-free lines with `"\n"` and splitting again gives the same lines back |
| StringOrder.BelowIrreflexive | src/reuseify/get_authors.py:99 | no string sorts before itself |
| StringOrder.BelowAsymmetric | src/reuseify/get_authors.py:99 | two strings never sort before each other |
| StringOrder.BelowTotal | src/reuseify/get_authors.py:99 | of two different strings one always sorts first |
| StringOrder.BelowTransitive | src/reuseify/get_authors.py:99 | the string order is transitive |
| StringOrder.AscendingIsDistinct | src/reuseify/get_authors.py:99 | a strictly ascending list holds no name twice |
| StringOrder.Insert | src/reuseify/get_authors.py:99 | adding a name to a strictly ascending list keeps it strictly ascending, with exactly the old names and the new one |
| StringOrder.SortedSet | src/reuseify/get_authors.py:99 | `sorted(set(xs))` is strictly ascending and holds exactly the elements of `xs` |
| StringOrder.AscendingUnique | src/reuseify/get_authors.py:99 | two strictly ascending lists with the same elements are equal |
| StringOrder.SortedSetOfSameElements | src/reuseify/get_authors.py:99 | `sorted(set(xs))` depends only on which elements `xs` holds, not on their order or repetition |
| Seqs.Filter | src/reuseify/get_authors.py:147 | a filtering comprehension never grows the list, keeps an element exactly when it is in the input and accepted, and keeps input order |
| Seqs.FilterCounts | src/reuseify/get_authors.py:61 | an accepted element is kept as often as it occurs, and any other element not at all |
| Seqs.FilterKeepsAll | src/reuseify/get_authors.py:61 | filtering returns the whole list exactly when every element is accepted |
| FnMatch.PlainMatchesItself | src/reuseify/get_authors.py:44 | a pattern without `*`, `?` or `[` matches exactly the name it spells |
| FnMatch.StarSuffixMatches | src/reuseify/get_authors.py:44 | `*` followed by plain text matches exactly the names ending in that text |
| FnMatch.StarMatchesAll | src/reuseify/get_authors.py:44 | `*` matches every name, the empty one included |
| FnMatch.MatchWithoutStarLength | src/reuseify/get_authors.py:44 | a pattern with no `*` matches only names as long as its token list |
| FnMatch.LiveItemsSame | src/reuseify/get_authors.py:44 | deleting the reversed ranges of a set leaves the same characters in it |
| FnMatch.ClassTokenAccepts | src/reuseify/get_authors.py:44 | a set token accepts what its body holds, or for `[!` what it does not; a `!` that the deletion leaves in front negates the set |
| FnMatch.CompileSet | src/reuseify/get_authors.py:44 | `[body]` and `[!body]` compile to one set token built from the members of `body` |
| FnMatch.MatchSet | src/reuseify/get_authors.py:44 | a one-character name matches a one-set pattern exactly when its token accepts it; for `[!body]`, and for `[body]` with no `!` left in front, that is exactly when the set holds it (or, for `[!`, when it does not) |
| FnMatch.ReversedRangeThenBang | src/reuseify/get_authors.py:44 | `[c-a!x]` matches every one-character name except `x` |
| FnMatch.ReversedRangeThenBangAlone | src/reuseify/get_authors.py:44 | `[c-a!]` matches every one-character name |
| AuthorMaps.LookupPresent | src/reuseify/annotate.py:127 | a dict lookup succeeds exactly when the key is present, and finds a value stored under that key |
| AuthorMaps.LookupEntry | src/reuseify/annotate.py:127 | in a map without repeated keys, each key finds the value stored with it |
| AuthorMaps.AssignKeys | src/reuseify/get_authors.py:160-170 | `m[path] = v` leaves the keys as they are when `path` is present, and otherwise appends it at the end |
| AuthorMaps.AssignLookup | src/reuseify/get_authors.py:160-170 | after `m[path] = v`, `path` reads `v` and every other key reads what it read before |
| AuthorMaps.AssignUnique | src/reuseify/get_authors.py:160-170 | assignment never makes a key appear twice |
| GetAuthors.Segments | src/reuseify/get_authors.py:45 | every path segment is non-empty, is not `.`, and holds no `/` |
| GetAuthors.Parts | src/reuseify/get_authors.py:45 | every part is a segment, except a leading `/` for an absolute path |
| GetAuthors.PartsOfJoin | src/reuseify/get_authors.py:45 | the parts of segments joined with `/` are those segments |
| GetAuthors.AnyPatternMatchesIff | src/reuseify/get_authors.py:43-47 | the inner `any` holds exactly when some pattern matches the part |
| GetAuthors.AnyPartMatchesIff | src/reuseify/get_authors.py:43-47 | the nested `any` holds exactly when some part matches some pattern |
| GetAuthors.IsPathExcludedIff | src/reuseify/get_authors.py:41-47 | a path is excluded exactly when some component glob-matches some pattern, and never with no patterns |
| GetAuthors.AnyPatternMatchesAppend | src/reuseify/get_authors.py:145 | a part matches a concatenated pattern list exactly when it matches one of the two lists |
| GetAuthors.AnyPlainPatternMatches | src/reuseify/get_authors.py:43-47 | against wildcard-free patterns, a part matches exactly when it equals one of them |
| GetAuthors.DefaultPatternsSplit | src/reuseify/get_authors.py:20-38 | the default tuple is fifteen plain names with `*.egg-info` and `*.pyc` after the eighth |
| GetAuthors.SuffixPatternsMatch | src/reuseify/get_authors.py:29-30 | two `*suffix` patterns match exactly the names ending in one of the suffixes |
| GetAuthors.DefaultPatternsMatch | src/reuseify/get_authors.py:20-47 | a component matches a default pattern exactly when it is one of the fifteen names or ends in `.egg-info` or `.pyc` |
| GetAuthors.DefaultExclusionOfPath | src/reuseify/get_authors.py:20-47 | any path is excluded by the defaults exactly when one of its parts is a default name or ends in `.egg-info` or `.pyc` |
| GetAuthors.DefaultExclusion | src/reuseify/get_authors.py:20-47 | a relative path written as segments joined by `/` is excluded by the defaults exactly when one of its segments is a default name or ends in `.egg-info` or `.pyc` |
| GetAuthors.MorePatternsExcludeMore | src/reuseify/get_authors.py:145-147 | defaults plus user patterns exclude a path exactly when either set excludes it |
| GetAuthors.CheckIgnoreInput | src/reuseify/get_authors.py:52-56 | with no files there is no `git check-ignore` run; otherwise its stdin is the newline-joined list |
| GetAuthors.CheckIgnoreInputLines | src/reuseify/get_authors.py:56 | git reads back exactly the paths it was given, one per line |
| GetAuthors.FilterGitIgnored | src/reuseify/get_authors.py:50-61 | empty input gives `[]`; the result never grows, keeps input order, and holds a file exactly when it is an input not among the ignored lines |
| GetAuthors.SurvivingFilesFacts | src/reuseify/get_authors.py:145-149 | after both filters no file is excluded by any pattern, every file was reported, order is kept and the count of dropped files is non-negative |
| GetAuthors.SummaryIndexFirst | src/reuseify/get_authors.py:82-84 | no line before the stopping index is a summary line, and the line at it is one |
| GetAuthors.SummaryIndexAdvance | src/reuseify/get_authors.py:83-84 | while scanning up to the stopping index, the loop breaks exactly at the first summary line |
| GetAuthors.SummaryIndexOfPrefix | src/reuseify/get_authors.py:82-84 | two outputs that agree up to the first summary line stop at the same index |
| GetAuthors.SummaryIndexIs | src/reuseify/get_authors.py:82-84 | the position of the first summary line determines where the scan stops |
| GetAuthors.GetMissingLicenseFiles | src/reuseify/get_authors.py:75-88 | the loop over the lines of stdout followed directly by stderr returns exactly the report's listed files |
| GetAuthors.ListedFilesSound | src/reuseify/get_authors.py:85-87 | every collected path `p` has a scanned line whose stripped form is `"* " + p`, and there are no more paths than lines |
| GetAuthors.ListedFilesComplete | src/reuseify/get_authors.py:85-87 | every scanned line whose stripped form starts with `"* "` contributes its remainder |
| GetAuthors.ReportedFilesFacts | src/reuseify/get_authors.py:81-88 | the report has at most as many paths as there are lines before the summary line; each path comes from a listing line before it; each listing line before it contributes |
| GetAuthors.ReportedFilesStopAtSummary | src/reuseify/get_authors.py:82-84 | nothing after the first summary line contributes: outputs that agree up to and including it report the same files |
| GetAuthors.ListingLine | src/reuseify/get_authors.py:85-87 | a line `* path` is no summary line and contributes `path` |
| GetAuthors.SummaryMarker | src/reuseify/get_authors.py:83 | `# SUMMARY` is a summary line |
| GetAuthors.ReportOfTwoListings | src/reuseify/get_authors.py:81-88 | two listing lines followed by a summary line report the two paths in order |
| GetAuthors.ReportExample | src/reuseify/get_authors.py:81-88 | for `* a`, `* b`, `# SUMMARY`, `* c` the report is `[a, b]`, and `c` after the marker is ignored |
| GetAuthors.GitAuthors | src/reuseify/get_authors.py:91-99 | the result is strictly ascending; it is empty exactly on a non-zero return code or all-whitespace stdout; otherwise it holds exactly the lines of the stripped stdout |
| GetAuthors.GitAuthorsUnique | src/reuseify/get_authors.py:99 | any strictly ascending list of exactly those lines is the result |
| GetAuthors.AuthorMapKeys | src/reuseify/get_authors.py:157-170 | keys are unique and a subsequence of the surviving files; a file is a key exactly when it has authors or `include_not_in_git` holds |
| GetAuthors.AuthorMapLookup | src/reuseify/get_authors.py:157-170 | a surviving file with authors maps to exactly those authors; one without maps to `[]` exactly when `include_not_in_git` holds; any other path is absent |
| GetAuthors.AuthorMapKeysOfDistinct | src/reuseify/get_authors.py:157-170 | with no file reported twice, the keys are exactly the recorded files in scan order |
| GetAuthors.AuthorMapIncludesAll | src/reuseify/get_authors.py:163-166 | with `include_not_in_git` and no repeats, every surviving file is a key, in scan order |
| GetAuthors.BuildAuthorMap | src/reuseify/get_authors.py:157-170 | the loop builds the specified map, and `not_in_git` lists, in order, exactly the files without authors |
| GetAuthors.ExitCode | src/reuseify/get_authors.py:70-72 | among the modelled outcomes the command fails only outside a repository; "no issues" and "all excluded" exit 0 |
| GetAuthors.GetAuthorsOutcomes | src/reuseify/get_authors.py:130-173 | outside a repository, stop; with no reported files, stop with nothing to do; when the filters leave nothing, stop with all reported files counted as excluded; otherwise write the map, with the excluded count, unique keys in scan order, no excluded key and `not_in_git` exactly the files without history |
| GetAuthors.RunGetAuthors | src/reuseify/get_authors.py:130-173 | `main`, step by step, ends with the outcome specified above |
| Annotate.Dispose | src/reuseify/annotate.py:89-101 | an annotated entry keeps its path and has a non-empty contributor list; a skipped one keeps its path |
| Annotate.DisposeCases | src/reuseify/annotate.py:89-101 | the five cases: fallback contributors for an existing file without history; `NOT_IN_GIT` with no fallback; `NOT_IN_GIT (file not found)` with a fallback but no file; `file not found` for a missing file with authors; otherwise the recorded authors |
| Annotate.Partition | src/reuseify/annotate.py:86-101 | the loop builds exactly the specified `to_annotate` and `skipped` lists |
| Annotate.PartitionCount | src/reuseify/annotate.py:86-101 | the lengths of `to_annotate` and `skipped` add up to the number of map entries |
| Annotate.PartitionNonEmpty | src/reuseify/annotate.py:89-101 | every entry in `to_annotate` has a non-empty contributor list |
| Annotate.PartitionOrder | src/reuseify/annotate.py:89-101 | `to_annotate` keeps map order |
| Annotate.SkipOrder | src/reuseify/annotate.py:89-101 | `skipped` keeps map order |
| Annotate.PartitionPlaces | src/reuseify/annotate.py:89-101 | each entry's decision is found in the list it selects |
| Annotate.PartitionPaths | src/reuseify/annotate.py:89-101 | every path in either list is a key of the map |
| Annotate.PartitionExclusive | src/reuseify/annotate.py:89-101 | in a map with unique keys no path is both annotated and skipped |
| Annotate.ContributorFlags | src/reuseify/annotate.py:112-114 | two flags per author, `--contributor` followed by the author's name, in order |
| Annotate.BuildContributorFlags | src/reuseify/annotate.py:112-114 | the inner loop builds exactly those flags |
| Annotate.AnnotateCommand | src/reuseify/annotate.py:116 | the command has length `3 + |reuse_args| + 2·|authors|`, starts with `reuse annotate`, then has the forwarded arguments unchanged, then the contributor flags, and ends with the path |
| Annotate.RunAnnotations | src/reuseify/annotate.py:108-122 | the run loop builds exactly the specified `passed` and `failed` lists |
| Annotate.RunCount | src/reuseify/annotate.py:117-122 | `|passed| + |failed| == |to_annotate|` |
| Annotate.PassedOrder | src/reuseify/annotate.py:119-120 | `passed` keeps the order of `to_annotate` |
| Annotate.FailedOrder | src/reuseify/annotate.py:121-122 | `failed` keeps the order of `to_annotate` |
| Annotate.RunPlaces | src/reuseify/annotate.py:117-122 | a task whose command exits 0 is passed; any other is failed with its stripped stderr |
| Annotate.RunSound | src/reuseify/annotate.py:117-122 | every passed path belongs to a task whose command exited 0, and every failed one to a task whose command did not |
| Annotate.ShownAuthorsAreRecorded | src/reuseify/annotate.py:124-130 | every annotated path is a key, so the PASS line shows the recorded authors and never the fallback |
| Annotate.FallbackShownEmpty | src/reuseify/annotate.py:127 | an entry annotated with the fallback contributors is listed under PASS with its recorded empty list |
| Annotate.Tally | src/reuseify/annotate.py:147 | `|passed| + |skipped| + |failed|` equals the number of map entries |
| Annotate.ExitCode | src/reuseify/annotate.py:23-29 | among the modelled outcomes only the early errors exit non-zero; failed runs do not |
| Annotate.RunAnnotate | src/reuseify/annotate.py:69-147 | `reuse` missing, input missing and input malformed are each reported exactly in their case, in that order; otherwise the outcome holds the specified passed, skipped and failed lists and the map's size as the total |

## Left out

- Subprocesses (`git rev-parse`, `reuse lint`, `git check-ignore`, `git log`, `reuse annotate`), `shutil.which` and `os.path.isfile` are not run. Their results are parameters: the git directory check is a return code, `reuse` being installed is a boolean, and the rest are `Completed` records or functions that return them.
- Reading and writing the JSON file is not modelled. The input of `annotate` is either missing, malformed, or an already-loaded map. A well-formed JSON document that is not a dict of string lists is not modelled; the source does not check for one either.
- The console output is not modelled: progress messages, colours, the SKIP and FAIL lines and the printed counts. The one exception is the authors shown on a PASS line, kept because of its quirk.
- The typer option wiring, the output and input file names and `src/reuseify/cli.py` are not modelled. `--exclude` is a list, with `None` as the empty list, and `--default-contributor` is an `Option`, so that `default_contributor or []` is written out.
- `sys.exit` is not modelled. Each exit becomes an outcome value with the exit status given by `ExitCode`.
- `GetAuthors.Parts`: simplified path splitting. Components are split on `/`, empty and `.` segments are dropped, and an absolute path has the root `/` as its first part. `pathlib` keeps a leading `//` as a root of its own; the model does not.
- `FnMatch.Matches`: follows `fnmatch.translate` as in CPython 3.12 on POSIX, including its two steps for a set. It first deletes reversed ranges, then negates a set whose text starts with `!`. So `[c-a!x]` matches any one character but `x`, and `[c-a!]` matches any one character. CPython releases before these two steps read such sets differently, and the model does not follow them. `os.path.normcase` does nothing there, and the pattern cache does not change results. Ranges compare code points.
- `Strings.IsSpace`, `Strings.IsLineBreak`: the whitespace and line-break sets are CPython's, written out as code points. There is no other Unicode processing.
- Uncaught exceptions are not outcomes of the model. In the source each one ends the command with exit status 1 and a traceback. This covers `git` or `reuse` that cannot be started, where `subprocess.run` raises `FileNotFoundError` (src/reuseify/get_authors.py:54, :65, :76, :92; src/reuseify/annotate.py:117). It also covers input errors other than the two caught at src/reuseify/annotate.py:73-82: an input path that is a directory, a permission error, or bytes that are not valid UTF-8. Writing the output file (src/reuseify/get_authors.py:181) is covered too.
