/**
  The `annotate` command: read the author map, decide for each entry whether
  to run `reuse annotate` on the file or skip it, build the command line with
  one `--contributor` pair per author, and sort the runs into passed and
  failed by their exit status. The `reuse` runs and the file-exists test are
  parameters.
 */
module Annotate {
  import opened Strings
  import opened Seqs
  import opened AuthorMaps

  const NotInGit: string := "NOT_IN_GIT"
  const FileNotFound: string := "file not found"

  /** An entry of `skipped`: the path and why it is not annotated. */
  datatype Skip = Skip(path: string, reason: string)

  /** An entry of `failed`: the path and the stripped stderr of its run. */
  datatype Failure = Failure(path: string, stderr: string)

  /** Where one map entry goes: `to_annotate` with its contributors, or `skipped`. */
  datatype Disposition = Annotated(task: Entry) | Skipped(skip: Skip)

  // ---------------------------------------------------------------------
  // Partition of the author map
  // ---------------------------------------------------------------------

  /** The decision the partition loop takes for one entry. */
  function Dispose(e: Entry, defaults: seq<string>, isFile: string -> bool): (d: Disposition)
    ensures d.Annotated? ==> d.task.path == e.path && d.task.authors != []
    ensures d.Skipped? ==> d.skip.path == e.path
  {
    if e.authors == [] then
      if defaults != [] && isFile(e.path) then Annotated(Entry(e.path, defaults))
      else Skipped(Skip(e.path, NotInGit + (if defaults == [] then "" else " (file not found)")))
    else if !isFile(e.path) then Skipped(Skip(e.path, FileNotFound))
    else Annotated(Entry(e.path, e.authors))
  }

  /**
    The five cases: a file without history takes the fallback contributors
    when some are given and the file exists, and is otherwise skipped as
    `NOT_IN_GIT` (no fallback) or `NOT_IN_GIT (file not found)`; a file with
    authors is skipped as `file not found` when missing and is otherwise
    annotated with exactly its authors.
   */
  lemma DisposeCases(e: Entry, defaults: seq<string>, isFile: string -> bool)
    ensures var d := Dispose(e, defaults, isFile);
      && (e.authors == [] && defaults != [] && isFile(e.path) ==> d == Annotated(Entry(e.path, defaults)))
      && (e.authors == [] && defaults == [] ==> d == Skipped(Skip(e.path, "NOT_IN_GIT")))
      && (e.authors == [] && defaults != [] && !isFile(e.path) ==>
            d == Skipped(Skip(e.path, "NOT_IN_GIT (file not found)")))
      && (e.authors != [] && !isFile(e.path) ==> d == Skipped(Skip(e.path, "file not found")))
      && (e.authors != [] && isFile(e.path) ==> d == Annotated(e))
  {
    assert NotInGit + "" == "NOT_IN_GIT";
    assert NotInGit + " (file not found)" == "NOT_IN_GIT (file not found)";
  }

  function AnnotatedPart(d: Disposition): seq<Entry>
  {
    if d.Annotated? then [d.task] else []
  }

  function SkippedPart(d: Disposition): seq<Skip>
  {
    if d.Skipped? then [d.skip] else []
  }

  /** `to_annotate` after the loop over the entries of `m`. */
  function ToAnnotate(m: AuthorMap, defaults: seq<string>, isFile: string -> bool): seq<Entry>
  {
    if m == [] then []
    else ToAnnotate(m[..|m| - 1], defaults, isFile) + AnnotatedPart(Dispose(m[|m| - 1], defaults, isFile))
  }

  /** `skipped` after the loop over the entries of `m`. */
  function SkipList(m: AuthorMap, defaults: seq<string>, isFile: string -> bool): seq<Skip>
  {
    if m == [] then []
    else SkipList(m[..|m| - 1], defaults, isFile) + SkippedPart(Dispose(m[|m| - 1], defaults, isFile))
  }

  function SkipPaths(skipped: seq<Skip>): (ps: seq<string>)
    ensures |ps| == |skipped| && forall i :: 0 <= i < |skipped| ==> ps[i] == skipped[i].path
  {
    if skipped == [] then [] else SkipPaths(skipped[..|skipped| - 1]) + [skipped[|skipped| - 1].path]
  }

  lemma SkipPathsSnoc(skipped: seq<Skip>, x: Skip)
    ensures SkipPaths(skipped + [x]) == SkipPaths(skipped) + [x.path]
  {
    assert (skipped + [x])[..|skipped|] == skipped;
  }

  lemma PartitionStep(m: AuthorMap, i: nat, defaults: seq<string>, isFile: string -> bool)
    requires i < |m|
    ensures ToAnnotate(m[..i + 1], defaults, isFile) ==
            ToAnnotate(m[..i], defaults, isFile) + AnnotatedPart(Dispose(m[i], defaults, isFile))
    ensures SkipList(m[..i + 1], defaults, isFile) ==
            SkipList(m[..i], defaults, isFile) + SkippedPart(Dispose(m[i], defaults, isFile))
  {
    assert m[..i + 1][..i] == m[..i];
  }

  /**
    The loop over `authors_map.items()`: every entry is either appended to
    `to_annotate` or to `skipped`, by `Dispose`, in map order.
   */
  method Partition(authorsMap: AuthorMap, defaults: seq<string>, isFile: string -> bool)
    returns (toAnnotate: seq<Entry>, skipped: seq<Skip>)
    ensures toAnnotate == ToAnnotate(authorsMap, defaults, isFile)
    ensures skipped == SkipList(authorsMap, defaults, isFile)
  {
    toAnnotate := [];
    skipped := [];
    var i := 0;
    while i < |authorsMap|
      invariant i <= |authorsMap|
      invariant toAnnotate == ToAnnotate(authorsMap[..i], defaults, isFile)
      invariant skipped == SkipList(authorsMap[..i], defaults, isFile)
    {
      var filepath, authors := authorsMap[i].path, authorsMap[i].authors;
      ghost var d := Dispose(authorsMap[i], defaults, isFile);
      if authors == [] {
        if defaults != [] && isFile(filepath) {
          toAnnotate := toAnnotate + [Entry(filepath, defaults)];
        } else {
          var reason := NotInGit + (if defaults == [] then "" else " (file not found)");
          skipped := skipped + [Skip(filepath, reason)];
        }
      } else if !isFile(filepath) {
        skipped := skipped + [Skip(filepath, FileNotFound)];
      } else {
        toAnnotate := toAnnotate + [Entry(filepath, authors)];
      }
      PartitionStep(authorsMap, i, defaults, isFile);
      i := i + 1;
    }
    assert authorsMap[..i] == authorsMap;
  }

  /** Every entry lands in exactly one list: the two lengths add up to the number of entries. */
  lemma {:induction false} PartitionCount(m: AuthorMap, defaults: seq<string>, isFile: string -> bool)
    ensures |ToAnnotate(m, defaults, isFile)| + |SkipList(m, defaults, isFile)| == |m|
    decreases |m|
  {
    if m != [] {
      PartitionCount(m[..|m| - 1], defaults, isFile);
    }
  }

  /** Every annotated entry has contributors. */
  lemma {:induction false} PartitionNonEmpty(m: AuthorMap, defaults: seq<string>, isFile: string -> bool)
    ensures forall e :: e in ToAnnotate(m, defaults, isFile) ==> e.authors != []
    decreases |m|
  {
    if m != [] {
      PartitionNonEmpty(m[..|m| - 1], defaults, isFile);
    }
  }

  /** `to_annotate` keeps the order of the map. */
  lemma {:induction false} PartitionOrder(m: AuthorMap, defaults: seq<string>, isFile: string -> bool)
    ensures IsSubsequence(Keys(ToAnnotate(m, defaults, isFile)), Keys(m))
    decreases |m|
  {
    if m != [] {
      var init, last := m[..|m| - 1], m[|m| - 1];
      var d := Dispose(last, defaults, isFile);
      PartitionOrder(init, defaults, isFile);
      var a' := ToAnnotate(init, defaults, isFile);
      assert m == init + [last];
      KeysSnoc(init, last);
      if d.Annotated? {
        assert ToAnnotate(m, defaults, isFile) == a' + [d.task];
        KeysSnoc(a', d.task);
        SubsequenceAppendBoth(Keys(a'), Keys(init), last.path);
      } else {
        assert ToAnnotate(m, defaults, isFile) == a';
        SubsequenceExtend(Keys(a'), Keys(init), last.path);
      }
    }
  }

  /** `skipped` keeps the order of the map. */
  lemma {:induction false} SkipOrder(m: AuthorMap, defaults: seq<string>, isFile: string -> bool)
    ensures IsSubsequence(SkipPaths(SkipList(m, defaults, isFile)), Keys(m))
    decreases |m|
  {
    if m != [] {
      var init, last := m[..|m| - 1], m[|m| - 1];
      var d := Dispose(last, defaults, isFile);
      SkipOrder(init, defaults, isFile);
      var s' := SkipList(init, defaults, isFile);
      assert m == init + [last];
      KeysSnoc(init, last);
      if d.Skipped? {
        assert SkipList(m, defaults, isFile) == s' + [d.skip];
        SkipPathsSnoc(s', d.skip);
        SubsequenceAppendBoth(SkipPaths(s'), Keys(init), last.path);
      } else {
        assert SkipList(m, defaults, isFile) == s';
        SubsequenceExtend(SkipPaths(s'), Keys(init), last.path);
      }
    }
  }

  /** Each entry's decision is found in the list it selects. */
  lemma {:induction false} PartitionPlaces(m: AuthorMap, defaults: seq<string>, isFile: string -> bool, i: nat)
    requires i < |m|
    ensures var d := Dispose(m[i], defaults, isFile);
      && (d.Annotated? ==> d.task in ToAnnotate(m, defaults, isFile))
      && (d.Skipped? ==> d.skip in SkipList(m, defaults, isFile))
    decreases |m|
  {
    var init := m[..|m| - 1];
    if i < |m| - 1 {
      assert m[i] == init[i];
      PartitionPlaces(init, defaults, isFile, i);
    }
  }

  /** Every path in either list is a key of the map. */
  lemma {:induction false} PartitionPaths(m: AuthorMap, defaults: seq<string>, isFile: string -> bool)
    ensures forall p :: p in Keys(ToAnnotate(m, defaults, isFile)) ==> p in Keys(m)
    ensures forall p :: p in SkipPaths(SkipList(m, defaults, isFile)) ==> p in Keys(m)
    decreases |m|
  {
    if m != [] {
      var init, last := m[..|m| - 1], m[|m| - 1];
      var d := Dispose(last, defaults, isFile);
      PartitionPaths(init, defaults, isFile);
      var a', s' := ToAnnotate(init, defaults, isFile), SkipList(init, defaults, isFile);
      assert m == init + [last];
      KeysSnoc(init, last);
      if d.Annotated? {
        KeysSnoc(a', d.task);
      } else {
        SkipPathsSnoc(s', d.skip);
      }
    }
  }

  /** In a dict no path is both annotated and skipped. */
  lemma {:induction false} PartitionExclusive(m: AuthorMap, defaults: seq<string>, isFile: string -> bool)
    requires UniqueKeys(m)
    ensures forall p :: !(p in Keys(ToAnnotate(m, defaults, isFile)) && p in SkipPaths(SkipList(m, defaults, isFile)))
    decreases |m|
  {
    if m != [] {
      var init, last := m[..|m| - 1], m[|m| - 1];
      var d := Dispose(last, defaults, isFile);
      assert UniqueKeys(init);
      PartitionExclusive(init, defaults, isFile);
      PartitionPaths(init, defaults, isFile);
      var a', s' := ToAnnotate(init, defaults, isFile), SkipList(init, defaults, isFile);
      assert last.path !in Keys(init);
      if d.Annotated? {
        KeysSnoc(a', d.task);
      } else {
        SkipPathsSnoc(s', d.skip);
      }
    }
  }

  // ---------------------------------------------------------------------
  // The `reuse annotate` command line
  // ---------------------------------------------------------------------

  /** `--contributor a` for each author `a`, in order. */
  function ContributorFlags(authors: seq<string>): (flags: seq<string>)
    ensures |flags| == 2 * |authors|
    ensures forall k :: 0 <= k < |authors| ==> flags[2 * k] == "--contributor" && flags[2 * k + 1] == authors[k]
  {
    if authors == [] then []
    else ContributorFlags(authors[..|authors| - 1]) + ["--contributor", authors[|authors| - 1]]
  }

  /** The inner loop: `contributor_flags.extend(["--contributor", author])` for each author. */
  method BuildContributorFlags(authors: seq<string>) returns (flags: seq<string>)
    ensures flags == ContributorFlags(authors)
  {
    flags := [];
    var i := 0;
    while i < |authors|
      invariant i <= |authors|
      invariant flags == ContributorFlags(authors[..i])
    {
      assert authors[..i + 1][..i] == authors[..i];
      flags := flags + ["--contributor", authors[i]];
      i := i + 1;
    }
    assert authors[..i] == authors;
  }

  /**
    `["reuse", "annotate"] + reuse_args + contributor_flags + [filepath]`: the
    forwarded arguments unchanged, one flag pair per author, the path last.
   */
  function AnnotateCommand(reuseArgs: seq<string>, authors: seq<string>, path: string): (cmd: seq<string>)
    ensures |cmd| == 3 + |reuseArgs| + 2 * |authors|
    ensures cmd[0] == "reuse" && cmd[1] == "annotate"
    ensures cmd[2..2 + |reuseArgs|] == reuseArgs
    ensures cmd[2 + |reuseArgs|..|cmd| - 1] == ContributorFlags(authors)
    ensures cmd[|cmd| - 1] == path
  {
    var cmd := ["reuse", "annotate"] + reuseArgs + ContributorFlags(authors) + [path];
    assert cmd[2..2 + |reuseArgs|] == reuseArgs;
    assert cmd[2 + |reuseArgs|..|cmd| - 1] == ContributorFlags(authors);
    cmd
  }

  // ---------------------------------------------------------------------
  // Running the commands
  // ---------------------------------------------------------------------

  /** The finished `reuse annotate` run for one entry. */
  function RunOf(reuseArgs: seq<string>, run: seq<string> -> Completed, e: Entry): Completed
  {
    run(AnnotateCommand(reuseArgs, e.authors, e.path))
  }

  /** The paths whose run exited with status 0, in order. */
  function PassedList(tasks: seq<Entry>, reuseArgs: seq<string>, run: seq<string> -> Completed): seq<string>
  {
    if tasks == [] then []
    else
      var last := tasks[|tasks| - 1];
      PassedList(tasks[..|tasks| - 1], reuseArgs, run) +
        (if RunOf(reuseArgs, run, last).returncode == 0 then [last.path] else [])
  }

  /** The paths whose run failed, with their stripped stderr, in order. */
  function FailedList(tasks: seq<Entry>, reuseArgs: seq<string>, run: seq<string> -> Completed): seq<Failure>
  {
    if tasks == [] then []
    else
      var last := tasks[|tasks| - 1];
      var result := RunOf(reuseArgs, run, last);
      FailedList(tasks[..|tasks| - 1], reuseArgs, run) +
        (if result.returncode == 0 then [] else [Failure(last.path, Strip(result.stderr))])
  }

  lemma RunStep(tasks: seq<Entry>, i: nat, reuseArgs: seq<string>, run: seq<string> -> Completed)
    requires i < |tasks|
    ensures var result := RunOf(reuseArgs, run, tasks[i]);
      && PassedList(tasks[..i + 1], reuseArgs, run) ==
           PassedList(tasks[..i], reuseArgs, run) + (if result.returncode == 0 then [tasks[i].path] else [])
      && FailedList(tasks[..i + 1], reuseArgs, run) ==
           FailedList(tasks[..i], reuseArgs, run) +
             (if result.returncode == 0 then [] else [Failure(tasks[i].path, Strip(result.stderr))])
  {
    assert tasks[..i + 1][..i] == tasks[..i];
  }

  /**
    The loop over `to_annotate`: build each command, run it, and append the
    path to `passed` on exit status 0 and to `failed` otherwise.
   */
  method RunAnnotations(toAnnotate: seq<Entry>, reuseArgs: seq<string>, run: seq<string> -> Completed)
    returns (passed: seq<string>, failed: seq<Failure>)
    ensures passed == PassedList(toAnnotate, reuseArgs, run)
    ensures failed == FailedList(toAnnotate, reuseArgs, run)
  {
    passed := [];
    failed := [];
    var i := 0;
    while i < |toAnnotate|
      invariant i <= |toAnnotate|
      invariant passed == PassedList(toAnnotate[..i], reuseArgs, run)
      invariant failed == FailedList(toAnnotate[..i], reuseArgs, run)
    {
      var filepath, authors := toAnnotate[i].path, toAnnotate[i].authors;
      var contributorFlags := BuildContributorFlags(authors);
      var cmd := ["reuse", "annotate"] + reuseArgs + contributorFlags + [filepath];
      var result := run(cmd);
      assert result == RunOf(reuseArgs, run, toAnnotate[i]);
      if result.returncode == 0 {
        passed := passed + [filepath];
      } else {
        failed := failed + [Failure(filepath, Strip(result.stderr))];
      }
      RunStep(toAnnotate, i, reuseArgs, run);
      i := i + 1;
    }
    assert toAnnotate[..i] == toAnnotate;
  }

  function FailurePaths(failed: seq<Failure>): (ps: seq<string>)
    ensures |ps| == |failed| && forall i :: 0 <= i < |failed| ==> ps[i] == failed[i].path
  {
    if failed == [] then [] else FailurePaths(failed[..|failed| - 1]) + [failed[|failed| - 1].path]
  }

  lemma FailurePathsSnoc(failed: seq<Failure>, x: Failure)
    ensures FailurePaths(failed + [x]) == FailurePaths(failed) + [x.path]
  {
    assert (failed + [x])[..|failed|] == failed;
  }

  /** Every run lands in exactly one of `passed` and `failed`. */
  lemma {:induction false} RunCount(tasks: seq<Entry>, reuseArgs: seq<string>, run: seq<string> -> Completed)
    ensures |PassedList(tasks, reuseArgs, run)| + |FailedList(tasks, reuseArgs, run)| == |tasks|
    decreases |tasks|
  {
    if tasks != [] {
      RunCount(tasks[..|tasks| - 1], reuseArgs, run);
    }
  }

  /** `passed` keeps the order of `to_annotate`. */
  lemma {:induction false} PassedOrder(tasks: seq<Entry>, reuseArgs: seq<string>, run: seq<string> -> Completed)
    ensures IsSubsequence(PassedList(tasks, reuseArgs, run), Keys(tasks))
    decreases |tasks|
  {
    if tasks != [] {
      var init, last := tasks[..|tasks| - 1], tasks[|tasks| - 1];
      PassedOrder(init, reuseArgs, run);
      var p' := PassedList(init, reuseArgs, run);
      assert tasks == init + [last];
      KeysSnoc(init, last);
      if RunOf(reuseArgs, run, last).returncode == 0 {
        assert PassedList(tasks, reuseArgs, run) == p' + [last.path];
        SubsequenceAppendBoth(p', Keys(init), last.path);
      } else {
        assert PassedList(tasks, reuseArgs, run) == p';
        SubsequenceExtend(p', Keys(init), last.path);
      }
    }
  }

  /** `failed` keeps the order of `to_annotate`. */
  lemma {:induction false} FailedOrder(tasks: seq<Entry>, reuseArgs: seq<string>, run: seq<string> -> Completed)
    ensures IsSubsequence(FailurePaths(FailedList(tasks, reuseArgs, run)), Keys(tasks))
    decreases |tasks|
  {
    if tasks != [] {
      var init, last := tasks[..|tasks| - 1], tasks[|tasks| - 1];
      FailedOrder(init, reuseArgs, run);
      var f' := FailedList(init, reuseArgs, run);
      var result := RunOf(reuseArgs, run, last);
      assert tasks == init + [last];
      KeysSnoc(init, last);
      if result.returncode == 0 {
        assert FailedList(tasks, reuseArgs, run) == f';
        SubsequenceExtend(FailurePaths(f'), Keys(init), last.path);
      } else {
        var x := Failure(last.path, Strip(result.stderr));
        assert FailedList(tasks, reuseArgs, run) == f' + [x];
        FailurePathsSnoc(f', x);
        SubsequenceAppendBoth(FailurePaths(f'), Keys(init), last.path);
      }
    }
  }

  /** A task whose command exits with 0 is passed; any other is failed with its stripped stderr. */
  lemma {:induction false} RunPlaces(tasks: seq<Entry>, reuseArgs: seq<string>, run: seq<string> -> Completed, i: nat)
    requires i < |tasks|
    ensures var result := RunOf(reuseArgs, run, tasks[i]);
      && (result.returncode == 0 ==> tasks[i].path in PassedList(tasks, reuseArgs, run))
      && (result.returncode != 0 ==> Failure(tasks[i].path, Strip(result.stderr)) in FailedList(tasks, reuseArgs, run))
    decreases |tasks|
  {
    var init := tasks[..|tasks| - 1];
    if i < |tasks| - 1 {
      assert tasks[i] == init[i];
      RunPlaces(init, reuseArgs, run, i);
    }
  }

  /** Nothing is passed or failed that was not run, and a passed path's command exited with 0. */
  lemma {:induction false} RunSound(tasks: seq<Entry>, reuseArgs: seq<string>, run: seq<string> -> Completed)
    ensures forall q :: q in PassedList(tasks, reuseArgs, run) ==>
              exists i :: 0 <= i < |tasks| && tasks[i].path == q && RunOf(reuseArgs, run, tasks[i]).returncode == 0
    ensures forall x :: x in FailedList(tasks, reuseArgs, run) ==>
              exists i :: 0 <= i < |tasks| && tasks[i].path == x.path && RunOf(reuseArgs, run, tasks[i]).returncode != 0
    decreases |tasks|
  {
    if tasks != [] {
      var init, last := tasks[..|tasks| - 1], tasks[|tasks| - 1];
      RunSound(init, reuseArgs, run);
      forall i | 0 <= i < |tasks| - 1 ensures tasks[i] == init[i] { }
    }
  }

  // ---------------------------------------------------------------------
  // Listing and tally
  // ---------------------------------------------------------------------

  /** The authors shown after `PASS` for a path: `authors_map.get(filepath, defaults)`. */
  function ShownAuthors(m: AuthorMap, defaults: seq<string>, path: string): seq<string>
  {
    GetOr(m, path, defaults)
  }

  /**
    Every annotated path is a key, so the listing always shows the recorded
    authors and never the fallback: a file annotated with the fallback
    contributors is shown with the empty list recorded for it.
   */
  lemma ShownAuthorsAreRecorded(m: AuthorMap, defaults: seq<string>, isFile: string -> bool, p: string)
    requires UniqueKeys(m) && p in Keys(ToAnnotate(m, defaults, isFile))
    ensures Entry(p, ShownAuthors(m, defaults, p)) in m
  {
    PartitionPaths(m, defaults, isFile);
    LookupPresent(m, p);
  }

  /** The listing quirk for one entry: annotated with the fallback, shown with `[]`. */
  lemma FallbackShownEmpty(m: AuthorMap, defaults: seq<string>, isFile: string -> bool, i: nat)
    requires UniqueKeys(m) && i < |m|
    requires m[i].authors == [] && defaults != [] && isFile(m[i].path)
    ensures Entry(m[i].path, defaults) in ToAnnotate(m, defaults, isFile)
    ensures ShownAuthors(m, defaults, m[i].path) == []
  {
    PartitionPlaces(m, defaults, isFile, i);
    LookupEntry(m, i);
  }

  /** Passed, skipped and failed together account for every entry of the map. */
  lemma Tally(m: AuthorMap, defaults: seq<string>, isFile: string -> bool,
              reuseArgs: seq<string>, run: seq<string> -> Completed)
    ensures var tasks := ToAnnotate(m, defaults, isFile);
            |PassedList(tasks, reuseArgs, run)| + |SkipList(m, defaults, isFile)| +
            |FailedList(tasks, reuseArgs, run)| == |m|
  {
    PartitionCount(m, defaults, isFile);
    RunCount(ToAnnotate(m, defaults, isFile), reuseArgs, run);
  }

  // ---------------------------------------------------------------------
  // The command
  // ---------------------------------------------------------------------

  /** What reading the `--input` file gives: missing, not JSON, or the map. */
  datatype Input = InputMissing | InputMalformed | InputLoaded(authorsMap: AuthorMap)

  datatype AnnotateOutcome =
    | ReuseNotFound
    | InputNotFound
    | InputNotParsed
    | Finished(passed: seq<string>, skipped: seq<Skip>, failed: seq<Failure>, total: nat)

  /** The process exit status: the early errors fail, failed runs do not. */
  function ExitCode(outcome: AnnotateOutcome): (code: int)
    ensures code == 0 <==> outcome.Finished?
  {
    if outcome.Finished? then 0 else 1
  }

  /**
    `main` of `annotate`, given whether `reuse` is on the PATH, the result of
    reading the input file, the `--default-contributor` values (absent or a
    list), the forwarded arguments, the file-exists test and the runner.
   */
  method RunAnnotate(reuseInstalled: bool, input: Input, defaultContributor: Option<seq<string>>,
                     reuseArgs: seq<string>, isFile: string -> bool, run: seq<string> -> Completed)
    returns (outcome: AnnotateOutcome)
    ensures !reuseInstalled <==> outcome == ReuseNotFound
    ensures reuseInstalled && input.InputMissing? <==> outcome == InputNotFound
    ensures reuseInstalled && input.InputMalformed? <==> outcome == InputNotParsed
    ensures reuseInstalled && input.InputLoaded? ==>
              var m := input.authorsMap;
              var defaults := if defaultContributor.Some? then defaultContributor.value else [];
              var tasks := ToAnnotate(m, defaults, isFile);
              outcome == Finished(PassedList(tasks, reuseArgs, run), SkipList(m, defaults, isFile),
                                  FailedList(tasks, reuseArgs, run), |m|)
  {
    var defaults := if defaultContributor.Some? then defaultContributor.value else [];
    if !reuseInstalled {
      return ReuseNotFound;
    }
    if input.InputMissing? {
      return InputNotFound;
    }
    if input.InputMalformed? {
      return InputNotParsed;
    }
    var authorsMap := input.authorsMap;
    var toAnnotate, skipped := Partition(authorsMap, defaults, isFile);
    var passed, failed := RunAnnotations(toAnnotate, reuseArgs, run);
    var total := |passed| + |skipped| + |failed|;
    Tally(authorsMap, defaults, isFile, reuseArgs, run);
    outcome := Finished(passed, skipped, failed, total);
  }
}
