/**
  The `get-authors` command: read the files `reuse lint` reports as missing
  licensing information, drop those excluded by path patterns or ignored by
  git, ask `git log` for each remaining file's authors and build the author
  map that is written to JSON. Every subprocess is a parameter giving its
  finished result.
 */
module GetAuthors {
  import opened Strings
  import opened StringOrder
  import opened Seqs
  import opened FnMatch
  import opened AuthorMaps

  // ---------------------------------------------------------------------
  // Path exclusion
  // ---------------------------------------------------------------------

  /** The patterns that always apply, in the order they are shown in `--help`. */
  const DefaultExcludePatterns: seq<string> := [
    "__pycache__", ".venv", "venv", ".env", "env", ".git", ".vscode", ".idea",
    "*.egg-info", "*.pyc", "dist", "build", "node_modules", ".tox",
    ".mypy_cache", ".pytest_cache", ".ruff_cache"
  ]

  /** The default patterns that hold no wildcard, each matching one exact name. */
  const DefaultExcludedNames: seq<string> := [
    "__pycache__", ".venv", "venv", ".env", "env", ".git", ".vscode", ".idea",
    "dist", "build", "node_modules", ".tox",
    ".mypy_cache", ".pytest_cache", ".ruff_cache"
  ]

  /** The first index at or after `i` that holds `/`, or `|s|`. */
  function SlashAt(s: string, i: nat): (k: nat)
    requires i <= |s|
    ensures i <= k <= |s|
    ensures forall j :: i <= j < k ==> s[j] != '/'
    ensures k < |s| ==> s[k] == '/'
    decreases |s| - i
  {
    if i == |s| || s[i] == '/' then i else SlashAt(s, i + 1)
  }

  /** A path component other than the root: not empty, not `.`, without `/`. */
  predicate IsSegment(seg: string)
  {
    seg != [] && seg != "." && forall j :: 0 <= j < |seg| ==> seg[j] != '/'
  }

  /** The `/`-separated pieces of `s`, leaving out empty ones and `.`. */
  function Segments(s: string): (segs: seq<string>)
    ensures forall i :: 0 <= i < |segs| ==> IsSegment(segs[i])
    decreases |s|
  {
    if s == [] then []
    else
      var k := SlashAt(s, 0);
      var seg := s[..k];
      var rest := if k < |s| then Segments(s[k + 1..]) else [];
      if seg == [] || seg == "." then rest
      else
        assert IsSegment(seg) by {
          assert forall j :: 0 <= j < |seg| ==> seg[j] == s[j];
        }
        [seg] + rest
  }

  /** `pathlib.PurePosixPath(path).parts`: the root `/` of an absolute path, then its segments. */
  function Parts(path: string): (parts: seq<string>)
    ensures forall i :: 0 <= i < |parts| ==> IsSegment(parts[i]) || (i == 0 && parts[i] == "/")
  {
    (if path != [] && path[0] == '/' then ["/"] else []) + Segments(path)
  }

  lemma SlashAtIs(s: string, k: nat)
    requires k <= |s| && forall j :: 0 <= j < k ==> s[j] != '/'
    requires k < |s| ==> s[k] == '/'
    ensures SlashAt(s, 0) == k
  {
  }

  /** Joining segments with `/` and taking the parts again gives the segments back. */
  lemma {:induction false} PartsOfJoin(segs: seq<string>)
    requires forall i :: 0 <= i < |segs| ==> IsSegment(segs[i])
    ensures Parts(Join(segs, "/")) == segs
    decreases |segs|
  {
    if segs != [] {
      var s := Join(segs, "/");
      var k := |segs[0]|;
      if |segs| == 1 {
        SlashAtIs(s, k);
        assert s[..k] == segs[0];
      } else {
        var rest := Join(segs[1..], "/");
        assert s == segs[0] + "/" + rest;
        assert s[..k] == segs[0];
        SlashAtIs(s, k);
        assert s[k + 1..] == rest;
        PartsOfJoin(segs[1..]);
        JoinStartsWithFirst(segs[1..]);
      }
      assert s[0] == segs[0][0];
    }
  }

  lemma JoinStartsWithFirst(segs: seq<string>)
    requires segs != [] && segs[0] != []
    ensures Join(segs, "/") != [] && Join(segs, "/")[0] == segs[0][0]
  {
  }

  /** `any(fnmatch.fnmatch(part, pattern) for pattern in patterns)`. */
  predicate AnyPatternMatches(part: string, patterns: seq<string>)
  {
    patterns != [] && (Matches(part, patterns[0]) || AnyPatternMatches(part, patterns[1..]))
  }

  /** `any(... for part in parts for pattern in patterns)`. */
  predicate AnyPartMatches(parts: seq<string>, patterns: seq<string>)
  {
    parts != [] && (AnyPatternMatches(parts[0], patterns) || AnyPartMatches(parts[1..], patterns))
  }

  /** `is_path_excluded(filepath, patterns)`. */
  predicate IsPathExcluded(path: string, patterns: seq<string>)
  {
    AnyPartMatches(Parts(path), patterns)
  }

  lemma {:induction false} AnyPatternMatchesIff(part: string, patterns: seq<string>)
    ensures AnyPatternMatches(part, patterns) <==>
            exists j :: 0 <= j < |patterns| && Matches(part, patterns[j])
    decreases |patterns|
  {
    if patterns != [] {
      AnyPatternMatchesIff(part, patterns[1..]);
      if Matches(part, patterns[0]) {
        assert 0 < |patterns|;
      }
      if exists j :: 0 < j < |patterns| && Matches(part, patterns[j]) {
        var j :| 0 < j < |patterns| && Matches(part, patterns[j]);
        assert patterns[1..][j - 1] == patterns[j];
      }
    }
  }

  lemma {:induction false} AnyPartMatchesIff(parts: seq<string>, patterns: seq<string>)
    ensures AnyPartMatches(parts, patterns) <==>
            exists i, j :: 0 <= i < |parts| && 0 <= j < |patterns| && Matches(parts[i], patterns[j])
    decreases |parts|
  {
    if parts != [] {
      AnyPartMatchesIff(parts[1..], patterns);
      AnyPatternMatchesIff(parts[0], patterns);
      if exists i, j :: 0 < i < |parts| && 0 <= j < |patterns| && Matches(parts[i], patterns[j]) {
        var i, j :| 0 < i < |parts| && 0 <= j < |patterns| && Matches(parts[i], patterns[j]);
        assert parts[1..][i - 1] == parts[i];
      }
    }
  }

  /**
    A path is excluded exactly when one of its components matches one of the
    patterns; so no path is excluded by an empty pattern list.
   */
  lemma IsPathExcludedIff(path: string, patterns: seq<string>)
    ensures IsPathExcluded(path, patterns) <==>
            exists i, j :: 0 <= i < |Parts(path)| && 0 <= j < |patterns| && Matches(Parts(path)[i], patterns[j])
    ensures patterns == [] ==> !IsPathExcluded(path, patterns)
  {
    AnyPartMatchesIff(Parts(path), patterns);
  }

  lemma {:induction false} AnyPatternMatchesAppend(part: string, a: seq<string>, b: seq<string>)
    ensures AnyPatternMatches(part, a + b) <==> AnyPatternMatches(part, a) || AnyPatternMatches(part, b)
    decreases |a|
  {
    if a != [] {
      assert (a + b)[0] == a[0] && (a + b)[1..] == a[1..] + b;
      AnyPatternMatchesAppend(part, a[1..], b);
    } else {
      assert a + b == b;
    }
  }

  /** Against patterns without wildcards, a component matches exactly when it is one of them. */
  lemma {:induction false} AnyPlainPatternMatches(part: string, names: seq<string>)
    requires forall i :: 0 <= i < |names| ==> IsPlain(names[i])
    ensures AnyPatternMatches(part, names) <==> part in names
    decreases |names|
  {
    if names != [] {
      PlainMatchesItself(part, names[0]);
      AnyPlainPatternMatches(part, names[1..]);
      assert names == [names[0]] + names[1..];
    }
  }

  /** The default patterns are the plain names with the two wildcard patterns after the eighth. */
  lemma DefaultPatternsSplit()
    ensures DefaultExcludePatterns == DefaultExcludedNames[..8] + ["*.egg-info", "*.pyc"] + DefaultExcludedNames[8..]
  {
  }

  lemma DefaultNamesPlain()
    ensures forall i :: 0 <= i < |DefaultExcludedNames| ==> IsPlain(DefaultExcludedNames[i])
  {
  }

  lemma SuffixesPlain()
    ensures IsPlain(".egg-info") && IsPlain(".pyc")
    ensures "*" + ".egg-info" == "*.egg-info" && "*" + ".pyc" == "*.pyc"
  {
  }

  /** Two `*suffix` patterns match exactly the names that end in one of the suffixes. */
  lemma SuffixPatternsMatch(part: string, a: string, b: string)
    requires IsPlain(a) && IsPlain(b)
    ensures AnyPatternMatches(part, ["*" + a, "*" + b]) <==> EndsWith(part, a) || EndsWith(part, b)
  {
    StarSuffixMatches(part, a);
    StarSuffixMatches(part, b);
    var stars := ["*" + a, "*" + b];
    assert stars[1..] == ["*" + b] && stars[1..][1..] == [];
    assert AnyPatternMatches(part, stars[1..]) <==> Matches(part, "*" + b);
  }

  /** A component matches a default pattern exactly when it is one of the plain names or ends in `.egg-info` or `.pyc`. */
  lemma DefaultPatternsMatch(part: string)
    ensures AnyPatternMatches(part, DefaultExcludePatterns) <==>
            part in DefaultExcludedNames || EndsWith(part, ".egg-info") || EndsWith(part, ".pyc")
  {
    var names := DefaultExcludedNames;
    var before, after := names[..8], names[8..];
    var stars := ["*.egg-info", "*.pyc"];
    DefaultPatternsSplit();
    DefaultNamesPlain();
    assert names == before + after;
    AnyPatternMatchesAppend(part, before + stars, after);
    AnyPatternMatchesAppend(part, before, stars);
    AnyPatternMatchesAppend(part, before, after);
    AnyPlainPatternMatches(part, before);
    AnyPlainPatternMatches(part, after);
    AnyPlainPatternMatches(part, names);
    SuffixesPlain();
    SuffixPatternsMatch(part, ".egg-info", ".pyc");
  }

  /** What the default patterns exclude in a name. */
  predicate DefaultExcludedName(part: string)
  {
    part in DefaultExcludedNames || EndsWith(part, ".egg-info") || EndsWith(part, ".pyc")
  }

  /**
    Any path is excluded by the defaults exactly when one of its parts is a
    default name or ends in `.egg-info` or `.pyc`; the root `/` is none of these.
   */
  lemma DefaultExclusionOfPath(path: string)
    ensures IsPathExcluded(path, DefaultExcludePatterns) <==>
            exists i :: 0 <= i < |Parts(path)| && DefaultExcludedName(Parts(path)[i])
  {
    var ds := DefaultExcludePatterns;
    var parts := Parts(path);
    IsPathExcludedIff(path, ds);
    forall i | 0 <= i < |parts|
      ensures DefaultExcludedName(parts[i]) <==> exists j :: 0 <= j < |ds| && Matches(parts[i], ds[j])
    {
      DefaultPatternsMatch(parts[i]);
      AnyPatternMatchesIff(parts[i], ds);
    }
  }

  /**
    A relative path `a/b/...` is excluded by the defaults exactly when one of
    its components is a default name or ends in `.egg-info` or `.pyc`.
   */
  lemma DefaultExclusion(segs: seq<string>)
    requires forall i :: 0 <= i < |segs| ==> IsSegment(segs[i])
    ensures IsPathExcluded(Join(segs, "/"), DefaultExcludePatterns) <==>
            exists i :: 0 <= i < |segs| && DefaultExcludedName(segs[i])
  {
    PartsOfJoin(segs);
    DefaultExclusionOfPath(Join(segs, "/"));
  }

  /** Extra `--exclude` patterns only add to what the defaults exclude. */
  lemma MorePatternsExcludeMore(path: string, patterns: seq<string>, extra: seq<string>)
    ensures IsPathExcluded(path, patterns + extra) <==> IsPathExcluded(path, patterns) || IsPathExcluded(path, extra)
  {
    var parts := Parts(path);
    IsPathExcludedIff(path, patterns);
    IsPathExcludedIff(path, extra);
    IsPathExcludedIff(path, patterns + extra);
    forall i | 0 <= i < |parts|
      ensures (exists j :: 0 <= j < |patterns + extra| && Matches(parts[i], (patterns + extra)[j])) <==>
              (exists j :: 0 <= j < |patterns| && Matches(parts[i], patterns[j])) ||
              (exists j :: 0 <= j < |extra| && Matches(parts[i], extra[j]))
    {
      AnyPatternMatchesIff(parts[i], patterns + extra);
      AnyPatternMatchesIff(parts[i], patterns);
      AnyPatternMatchesIff(parts[i], extra);
      AnyPatternMatchesAppend(parts[i], patterns, extra);
    }
  }

  /** The keep-predicate of `[f for f in files if not is_path_excluded(f, patterns)]`. */
  function NotExcluded(patterns: seq<string>): string -> bool
  {
    f => !IsPathExcluded(f, patterns)
  }

  // ---------------------------------------------------------------------
  // Ignore filter
  // ---------------------------------------------------------------------

  /** What `git check-ignore --stdin` is given on standard input, or `None` when it is not run. */
  function CheckIgnoreInput(files: seq<string>): (input: Option<string>)
    ensures input.None? <==> files == []
    ensures files != [] ==> input == Some(Join(files, "\n"))
  {
    if files == [] then None else Some(Join(files, "\n"))
  }

  /** `git check-ignore` reads back exactly the files, one per line, when no path holds a line break. */
  lemma CheckIgnoreInputLines(files: seq<string>)
    requires files != [] && files[|files| - 1] != []
    requires forall i :: 0 <= i < |files| ==> NoLineBreak(files[i])
    ensures SplitLines(CheckIgnoreInput(files).value) == files
  {
    SplitLinesOfJoin(files);
  }

  /** The keep-predicate of `[f for f in files if f not in ignored]`. */
  function NotIgnored(ignored: seq<string>): string -> bool
  {
    f => f !in ignored
  }

  /**
    `filter_git_ignored(files)`, with `checkIgnore` mapping the text sent to
    `git check-ignore --stdin` to its result: nothing is run for an empty
    list; otherwise the files not among the output lines, in their order.
   */
  function FilterGitIgnored(files: seq<string>, checkIgnore: string -> Completed): (kept: seq<string>)
    ensures files == [] ==> kept == []
    ensures |kept| <= |files| && IsSubsequence(kept, files)
    ensures forall f :: f in kept <==>
              f in files && f !in SplitLines(checkIgnore(CheckIgnoreInput(files).value).stdout)
  {
    match CheckIgnoreInput(files)
    case None => []
    case Some(input) => Filter(files, NotIgnored(SplitLines(checkIgnore(input).stdout)))
  }

  /** The files left after path patterns and then git's ignore rules. */
  function SurvivingFiles(found: seq<string>, patterns: seq<string>, checkIgnore: string -> Completed): seq<string>
  {
    FilterGitIgnored(Filter(found, NotExcluded(patterns)), checkIgnore)
  }

  /** No surviving file is excluded by a pattern, none is ignored, and their order is the scan order. */
  lemma SurvivingFilesFacts(found: seq<string>, patterns: seq<string>, checkIgnore: string -> Completed)
    ensures var kept := SurvivingFiles(found, patterns, checkIgnore);
      && |kept| <= |found| && IsSubsequence(kept, found)
      && forall f :: f in kept ==> f in found && !IsPathExcluded(f, patterns)
  {
    var outside := Filter(found, NotExcluded(patterns));
    var kept := FilterGitIgnored(outside, checkIgnore);
    SubsequenceTransitive(kept, outside, found);
    forall f | f in kept ensures f in found && !IsPathExcluded(f, patterns) {
      assert f in outside;
      assert NotExcluded(patterns)(f);
    }
  }

  // ---------------------------------------------------------------------
  // The `reuse lint` report
  // ---------------------------------------------------------------------

  /** A line that ends the file listing. */
  predicate IsSummaryLine(line: string)
  {
    StartsWith(Strip(line), "# SUMMARY")
  }

  /** The path a listing line `* <path>` contributes, if it is one. */
  function ListedFile(line: string): seq<string>
  {
    var stripped := Strip(line);
    if StartsWith(stripped, "* ") then [stripped[2..]] else []
  }

  /** The paths listed on `lines`, in order, ignoring summary lines. */
  function ListedFiles(lines: seq<string>): seq<string>
  {
    if lines == [] then []
    else ListedFiles(lines[..|lines| - 1]) + ListedFile(lines[|lines| - 1])
  }

  lemma ListedFilesStep(lines: seq<string>, i: nat)
    requires i < |lines|
    ensures ListedFiles(lines[..i + 1]) == ListedFiles(lines[..i]) + ListedFile(lines[i])
  {
    assert lines[..i + 1][..i] == lines[..i];
  }

  /** The index of the first summary line, or `|lines|` when there is none. */
  function SummaryIndex(lines: seq<string>): (k: nat)
    ensures k <= |lines|
  {
    if lines == [] || IsSummaryLine(lines[0]) then 0 else 1 + SummaryIndex(lines[1..])
  }

  lemma {:induction false} NotSummaryBefore(lines: seq<string>, j: nat)
    requires j < SummaryIndex(lines)
    ensures !IsSummaryLine(lines[j])
  {
    if j > 0 {
      NotSummaryBefore(lines[1..], j - 1);
      assert lines[1..][j - 1] == lines[j];
    }
  }

  lemma {:induction false} SummaryAtIndex(lines: seq<string>)
    ensures SummaryIndex(lines) < |lines| ==> IsSummaryLine(lines[SummaryIndex(lines)])
  {
    if lines != [] && !IsSummaryLine(lines[0]) {
      SummaryAtIndex(lines[1..]);
      assert SummaryIndex(lines) < |lines| ==> lines[1..][SummaryIndex(lines) - 1] == lines[SummaryIndex(lines)];
    }
  }

  /** No line before `SummaryIndex` is a summary line, and the line at it is one. */
  lemma SummaryIndexFirst(lines: seq<string>)
    ensures var k := SummaryIndex(lines);
      && (forall j :: 0 <= j < k ==> !IsSummaryLine(lines[j]))
      && (k < |lines| ==> IsSummaryLine(lines[k]))
  {
    forall j | 0 <= j < SummaryIndex(lines) ensures !IsSummaryLine(lines[j]) {
      NotSummaryBefore(lines, j);
    }
    SummaryAtIndex(lines);
  }

  /** The paths the report lists before its first summary line. */
  function ReportedFiles(lines: seq<string>): seq<string>
  {
    ListedFiles(lines[..SummaryIndex(lines)])
  }

  /**
    `get_missing_license_files()`, given the finished `reuse lint` run: scan
    the lines of stdout followed directly by stderr, stop at the first
    summary line and collect the listed paths.
   */
  method GetMissingLicenseFiles(lint: Completed) returns (files: seq<string>)
    ensures files == ReportedFiles(SplitLines(lint.stdout + lint.stderr))
  {
    var lines := SplitLines(lint.stdout + lint.stderr);
    files := [];
    var i := 0;
    while i < |lines|
      invariant i <= SummaryIndex(lines)
      invariant files == ListedFiles(lines[..i])
    {
      var line := lines[i];
      SummaryIndexAdvance(lines, i);
      if StartsWith(Strip(line), "# SUMMARY") {
        break;
      }
      var stripped := Strip(line);
      ListedFilesStep(lines, i);
      if StartsWith(stripped, "* ") {
        files := files + [stripped[2..]];
      }
      i := i + 1;
    }
  }

  /** Scanning past a line that is not a summary line stays at or before `SummaryIndex`. */
  lemma SummaryIndexAdvance(lines: seq<string>, i: nat)
    requires i < |lines| && i <= SummaryIndex(lines)
    ensures IsSummaryLine(lines[i]) <==> SummaryIndex(lines) == i
  {
    SummaryIndexFirst(lines);
  }

  lemma {:induction false} ListedFilesSound(lines: seq<string>)
    ensures |ListedFiles(lines)| <= |lines|
    ensures forall p :: p in ListedFiles(lines) ==>
              exists i :: 0 <= i < |lines| && Strip(lines[i]) == "* " + p
    decreases |lines|
  {
    if lines != [] {
      var init, last := lines[..|lines| - 1], lines[|lines| - 1];
      ListedFilesSound(init);
      assert ListedFiles(lines) == ListedFiles(init) + ListedFile(last);
      forall p | p in ListedFiles(lines) ensures exists i :: 0 <= i < |lines| && Strip(lines[i]) == "* " + p {
        if p in ListedFiles(init) {
          var i :| 0 <= i < |init| && Strip(init[i]) == "* " + p;
          assert lines[i] == init[i];
        } else {
          var stripped := Strip(last);
          assert p == stripped[2..];
          assert stripped == stripped[..2] + stripped[2..];
        }
      }
    }
  }

  lemma {:induction false} ListedFilesComplete(lines: seq<string>, i: nat)
    requires i < |lines| && StartsWith(Strip(lines[i]), "* ")
    ensures Strip(lines[i])[2..] in ListedFiles(lines)
    decreases |lines|
  {
    var init := lines[..|lines| - 1];
    if i < |lines| - 1 {
      assert init[i] == lines[i];
      ListedFilesComplete(init, i);
    }
  }

  /**
    Every reported path `p` comes from a line before the summary whose
    stripped text is `"* " + p`; every such line contributes its path; and
    there are no more paths than lines before the summary.
   */
  lemma ReportedFilesFacts(lines: seq<string>)
    ensures |ReportedFiles(lines)| <= SummaryIndex(lines)
    ensures forall p :: p in ReportedFiles(lines) ==>
              exists i :: 0 <= i < SummaryIndex(lines) && Strip(lines[i]) == "* " + p
    ensures forall i :: 0 <= i < SummaryIndex(lines) && StartsWith(Strip(lines[i]), "* ") ==>
              Strip(lines[i])[2..] in ReportedFiles(lines)
  {
    var k := SummaryIndex(lines);
    var before := lines[..k];
    ListedFilesSound(before);
    forall p | p in ReportedFiles(lines) ensures exists i :: 0 <= i < k && Strip(lines[i]) == "* " + p {
      var i :| 0 <= i < |before| && Strip(before[i]) == "* " + p;
      assert before[i] == lines[i];
    }
    forall i | 0 <= i < k && StartsWith(Strip(lines[i]), "* ") ensures Strip(lines[i])[2..] in ReportedFiles(lines) {
      assert before[i] == lines[i];
      ListedFilesComplete(before, i);
    }
  }

  /**
    Nothing after the first summary line contributes to the report: two
    outputs that agree up to and including it report the same files.
   */
  lemma ReportedFilesStopAtSummary(lines: seq<string>, other: seq<string>, k: nat)
    requires k == SummaryIndex(lines) < |lines|
    requires k < |other| && other[..k + 1] == lines[..k + 1]
    ensures ReportedFiles(other) == ReportedFiles(lines)
  {
    PrefixOfPrefix(other, lines, k + 1, k);
    SummaryIndexOfPrefix(lines, other, k);
  }

  /** Two lists that agree on their first `n` elements agree on any shorter prefix. */
  lemma PrefixOfPrefix<T>(a: seq<T>, b: seq<T>, n: nat, m: nat)
    requires m <= n <= |a| && n <= |b| && a[..n] == b[..n]
    ensures a[..m] == b[..m]
  {
    assert a[..m] == a[..n][..m];
    assert b[..m] == b[..n][..m];
  }

  lemma {:induction false} SummaryIndexOfPrefix(lines: seq<string>, other: seq<string>, k: nat)
    requires k == SummaryIndex(lines) < |lines|
    requires k < |other| && other[..k + 1] == lines[..k + 1]
    ensures SummaryIndex(other) == k
  {
    assert other[0] == lines[0];
    if k > 0 {
      assert other[1..][..k] == lines[1..][..k];
      SummaryIndexOfPrefix(lines[1..], other[1..], k - 1);
    }
  }

  /** Where the first summary line is determines `SummaryIndex`. */
  lemma {:induction false} SummaryIndexIs(lines: seq<string>, k: nat)
    requires k <= |lines| && forall j :: 0 <= j < k ==> !IsSummaryLine(lines[j])
    requires k < |lines| ==> IsSummaryLine(lines[k])
    ensures SummaryIndex(lines) == k
  {
    if k > 0 {
      assert forall j :: 0 <= j < k - 1 ==> lines[1..][j] == lines[j + 1];
      SummaryIndexIs(lines[1..], k - 1);
    }
  }

  /** A listing line `* <path>` is not a summary line and contributes exactly its path. */
  lemma ListingLine(path: string)
    requires path != [] && !IsSpace(path[|path| - 1])
    ensures !IsSummaryLine("* " + path) && ListedFile("* " + path) == [path]
  {
    var line := "* " + path;
    StripUnchanged(line);
    assert line[0] == '*';
    assert line[2..] == path;
  }

  lemma SummaryMarker()
    ensures IsSummaryLine("# SUMMARY")
  {
    StripUnchanged("# SUMMARY");
  }

  lemma ReportOfTwoListings(lines: seq<string>, a: string, b: string)
    requires |lines| > 2 && IsSummaryLine(lines[2])
    requires !IsSummaryLine(lines[0]) && ListedFile(lines[0]) == [a]
    requires !IsSummaryLine(lines[1]) && ListedFile(lines[1]) == [b]
    ensures ReportedFiles(lines) == [a, b]
  {
    SummaryIndexIs(lines, 2);
    ListedFilesStep(lines, 1);
    ListedFilesStep(lines, 0);
    assert lines[..0] == [];
  }

  lemma NoLineBreakListing(path: string)
    requires NoLineBreak(path)
    ensures NoLineBreak("* " + path)
  {
    assert forall j :: 2 <= j < |"* " + path| ==> ("* " + path)[j] == path[j - 2];
  }

  /**
    For any paths `a`, `b`, `c`: of the output lines `* a`, `* b`,
    `# SUMMARY`, `* c` only `a` and `b` are reported, since listing stops
    at the summary marker.
   */
  lemma ReportExample(a: string, b: string, c: string)
    requires a != [] && b != [] && c != []
    requires !IsSpace(a[|a| - 1]) && !IsSpace(b[|b| - 1])
    requires NoLineBreak(a) && NoLineBreak(b) && NoLineBreak(c)
    ensures ReportedFiles(SplitLines(Join(["* " + a, "* " + b, "# SUMMARY", "* " + c], "\n"))) == [a, b]
  {
    var lines := ["* " + a, "* " + b, "# SUMMARY", "* " + c];
    NoLineBreakListing(a);
    NoLineBreakListing(b);
    NoLineBreakListing(c);
    assert NoLineBreak("# SUMMARY");
    assert forall i :: 0 <= i < |lines| ==> NoLineBreak(lines[i]);
    SplitLinesOfJoin(lines);
    ListingLine(a);
    ListingLine(b);
    SummaryMarker();
    ReportOfTwoListings(lines, a, b);
  }

  // ---------------------------------------------------------------------
  // Authors from `git log --format=%an -- <file>`
  // ---------------------------------------------------------------------

  /**
    `get_git_authors(file)`, given the finished `git log` run: no authors
    when git fails or prints only whitespace; otherwise every line of the
    stripped output once, in ascending order.
   */
  function GitAuthors(log: Completed): (authors: seq<string>)
    ensures StrictlyAscending(authors)
    ensures authors == [] <==> log.returncode != 0 || AllSpace(log.stdout)
    ensures log.returncode == 0 ==>
              forall a :: a in authors <==> a in SplitLines(Strip(log.stdout))
  {
    if log.returncode != 0 || Strip(log.stdout) == [] then []
    else
      var lines := SplitLines(Strip(log.stdout));
      assert lines[0] in lines;
      SortedSet(lines)
  }

  /** The authors list is `sorted(set(lines))`: the one strictly ascending list of exactly those names. */
  lemma GitAuthorsUnique(log: Completed, names: seq<string>)
    requires log.returncode == 0
    requires StrictlyAscending(names)
    requires forall a :: a in names <==> a in SplitLines(Strip(log.stdout))
    ensures GitAuthors(log) == names
  {
    AscendingUnique(GitAuthors(log), names);
  }

  // ---------------------------------------------------------------------
  // The author map
  // ---------------------------------------------------------------------

  /** `get_git_authors` applied to each file in turn. */
  function AuthorsFrom(gitLog: string -> Completed): string -> seq<string>
  {
    f => GitAuthors(gitLog(f))
  }

  /** The keep-predicate selecting files without authors. */
  function HasNoAuthors(authorsOf: string -> seq<string>): string -> bool
  {
    f => authorsOf(f) == []
  }

  /** One turn of the loop: record the file's authors, or `[]` only when asked to. */
  function RecordFile(m: AuthorMap, path: string, authors: seq<string>, includeNotInGit: bool): AuthorMap
  {
    if authors == [] then (if includeNotInGit then Assign(m, path, []) else m)
    else Assign(m, path, authors)
  }

  /** The map the loop in `main` builds from `files`, given each file's authors. */
  function AuthorMapOf(files: seq<string>, authorsOf: string -> seq<string>, includeNotInGit: bool): AuthorMap
  {
    if files == [] then []
    else
      var last := files[|files| - 1];
      RecordFile(AuthorMapOf(files[..|files| - 1], authorsOf, includeNotInGit), last, authorsOf(last), includeNotInGit)
  }

  lemma AuthorMapOfStep(files: seq<string>, i: nat, authorsOf: string -> seq<string>, includeNotInGit: bool)
    requires i < |files|
    ensures AuthorMapOf(files[..i + 1], authorsOf, includeNotInGit) ==
            RecordFile(AuthorMapOf(files[..i], authorsOf, includeNotInGit), files[i], authorsOf(files[i]), includeNotInGit)
  {
    assert files[..i + 1][..i] == files[..i];
  }

  /** Whether a file becomes a key of the map. */
  predicate Recorded(authorsOf: string -> seq<string>, includeNotInGit: bool, f: string)
  {
    includeNotInGit || authorsOf(f) != []
  }

  /**
    The map's keys are distinct, follow the scan order, and are exactly the
    files with authors plus, when `includeNotInGit` holds, those without.
   */
  lemma {:induction false} AuthorMapKeys(files: seq<string>, authorsOf: string -> seq<string>, includeNotInGit: bool)
    ensures var m := AuthorMapOf(files, authorsOf, includeNotInGit);
      && UniqueKeys(m)
      && IsSubsequence(Keys(m), files)
      && (forall f :: f in Keys(m) <==> f in files && Recorded(authorsOf, includeNotInGit, f))
    decreases |files|
  {
    if files != [] {
      var init := files[..|files| - 1];
      var last := files[|files| - 1];
      var m' := AuthorMapOf(init, authorsOf, includeNotInGit);
      var authors := authorsOf(last);
      AuthorMapKeys(init, authorsOf, includeNotInGit);
      assert files == init + [last];
      if authors == [] && !includeNotInGit {
        SubsequenceExtend(Keys(m'), init, last);
      } else {
        var v := if authors == [] then [] else authors;
        assert AuthorMapOf(files, authorsOf, includeNotInGit) == Assign(m', last, v);
        AssignKeys(m', last, v);
        AssignUnique(m', last, v);
        if last in Keys(m') {
          SubsequenceExtend(Keys(m'), init, last);
        } else {
          SubsequenceAppendBoth(Keys(m'), init, last);
        }
      }
    }
  }

  /** Every key maps to its file's authors (`[]` for a file with none); other paths are absent. */
  lemma {:induction false} AuthorMapLookup(files: seq<string>, authorsOf: string -> seq<string>, includeNotInGit: bool, f: string)
    ensures Lookup(AuthorMapOf(files, authorsOf, includeNotInGit), f) ==
            if f in files && Recorded(authorsOf, includeNotInGit, f) then Some(authorsOf(f)) else None
    decreases |files|
  {
    if files != [] {
      var init := files[..|files| - 1];
      var last := files[|files| - 1];
      var m' := AuthorMapOf(init, authorsOf, includeNotInGit);
      var authors := authorsOf(last);
      AuthorMapLookup(init, authorsOf, includeNotInGit, f);
      assert files == init + [last];
      if !(authors == [] && !includeNotInGit) {
        var v := if authors == [] then [] else authors;
        assert AuthorMapOf(files, authorsOf, includeNotInGit) == Assign(m', last, v);
        AssignLookup(m', last, v, f);
      }
    }
  }

  /** The keep-predicate selecting the files that become keys. */
  function IsRecorded(authorsOf: string -> seq<string>, includeNotInGit: bool): string -> bool
  {
    f => Recorded(authorsOf, includeNotInGit, f)
  }

  /** With no file reported twice, the keys are exactly the recorded files in scan order. */
  lemma {:induction false} AuthorMapKeysOfDistinct(files: seq<string>, authorsOf: string -> seq<string>, includeNotInGit: bool)
    requires forall i, j :: 0 <= i < j < |files| ==> files[i] != files[j]
    ensures Keys(AuthorMapOf(files, authorsOf, includeNotInGit)) == Filter(files, IsRecorded(authorsOf, includeNotInGit))
    decreases |files|
  {
    if files != [] {
      var init := files[..|files| - 1];
      var last := files[|files| - 1];
      var m' := AuthorMapOf(init, authorsOf, includeNotInGit);
      var authors := authorsOf(last);
      AuthorMapKeysOfDistinct(init, authorsOf, includeNotInGit);
      assert files == init + [last];
      if !(authors == [] && !includeNotInGit) {
        var v := if authors == [] then [] else authors;
        assert AuthorMapOf(files, authorsOf, includeNotInGit) == Assign(m', last, v);
        AssignKeys(m', last, v);
        AuthorMapKeys(init, authorsOf, includeNotInGit);
        assert last !in init;
      }
    }
  }

  /** With `--include-not-in-git` and no file reported twice, every file becomes a key, in scan order. */
  lemma AuthorMapIncludesAll(files: seq<string>, authorsOf: string -> seq<string>)
    requires forall i, j :: 0 <= i < j < |files| ==> files[i] != files[j]
    ensures Keys(AuthorMapOf(files, authorsOf, true)) == files
  {
    AuthorMapKeysOfDistinct(files, authorsOf, true);
    FilterKeepsAll(files, IsRecorded(authorsOf, true));
  }

  /**
    The loop of `main` over the surviving files: every file with authors is
    recorded with them, a file without history is recorded as `[]` only when
    `includeNotInGit` holds, and every file without history is listed in
    `notInGit`.
   */
  method BuildAuthorMap(files: seq<string>, authorsOf: string -> seq<string>, includeNotInGit: bool)
    returns (authorsMap: AuthorMap, notInGit: seq<string>)
    ensures authorsMap == AuthorMapOf(files, authorsOf, includeNotInGit)
    ensures notInGit == Filter(files, HasNoAuthors(authorsOf))
  {
    authorsMap := [];
    notInGit := [];
    var i := 0;
    while i < |files|
      invariant i <= |files|
      invariant authorsMap == AuthorMapOf(files[..i], authorsOf, includeNotInGit)
      invariant notInGit == Filter(files[..i], HasNoAuthors(authorsOf))
    {
      var filepath := files[i];
      var authors := authorsOf(filepath);
      ghost var before, missing := authorsMap, notInGit;
      if authors == [] {
        notInGit := notInGit + [filepath];
        if includeNotInGit {
          authorsMap := Assign(authorsMap, filepath, []);
        }
      } else {
        authorsMap := Assign(authorsMap, filepath, authors);
      }
      assert authorsMap == RecordFile(before, filepath, authors, includeNotInGit);
      assert notInGit == missing + if HasNoAuthors(authorsOf)(filepath) then [filepath] else [];
      AuthorMapOfStep(files, i, authorsOf, includeNotInGit);
      FilterStep(files, i, HasNoAuthors(authorsOf));
      i := i + 1;
    }
    assert files[..i] == files;
  }

  // ---------------------------------------------------------------------
  // The command
  // ---------------------------------------------------------------------

  datatype GetAuthorsOutcome =
    | NotARepository
    | NoIssues
    | AllExcluded(excluded: nat)
    | Written(authorsMap: AuthorMap, excluded: nat, notInGit: seq<string>)

  /** The process exit status: only the repository guard fails the command. */
  function ExitCode(outcome: GetAuthorsOutcome): (code: int)
    ensures code == 0 <==> !outcome.NotARepository?
  {
    if outcome.NotARepository? then 1 else 0
  }

  /**
    What `main` of `get-authors` ends with, given the results of
    `git rev-parse --git-dir` and `reuse lint`, the `git check-ignore` and
    `git log` oracles, the user's `--exclude` patterns and
    `--include-not-in-git`. The map in `Written` is what is written to the
    JSON file.
   */
  function GetAuthorsOf(gitDir: Completed, lint: Completed, exclude: seq<string>,
                        checkIgnore: string -> Completed, gitLog: string -> Completed,
                        includeNotInGit: bool): GetAuthorsOutcome
  {
    var found := ReportedFiles(SplitLines(lint.stdout + lint.stderr));
    var kept := SurvivingFiles(found, DefaultExcludePatterns + exclude, checkIgnore);
    if gitDir.returncode != 0 then NotARepository
    else if found == [] then NoIssues
    else if kept == [] then AllExcluded(|found|)
    else Written(AuthorMapOf(kept, AuthorsFrom(gitLog), includeNotInGit), |found| - |kept|,
                 Filter(kept, HasNoAuthors(AuthorsFrom(gitLog))))
  }

  /**
    The command stops outside a repository, stops with nothing to do when
    the report lists no file, stops when the filters leave nothing, and
    otherwise writes a map whose keys are surviving files that the
    patterns do not exclude, counting the files the filters dropped.
   */
  lemma GetAuthorsOutcomes(gitDir: Completed, lint: Completed, exclude: seq<string>,
                           checkIgnore: string -> Completed, gitLog: string -> Completed,
                           includeNotInGit: bool)
    ensures var outcome := GetAuthorsOf(gitDir, lint, exclude, checkIgnore, gitLog, includeNotInGit);
            var found := ReportedFiles(SplitLines(lint.stdout + lint.stderr));
            var kept := SurvivingFiles(found, DefaultExcludePatterns + exclude, checkIgnore);
      && (outcome.NotARepository? <==> gitDir.returncode != 0)
      && (outcome.NoIssues? <==> gitDir.returncode == 0 && found == [])
      && (outcome.AllExcluded? <==> gitDir.returncode == 0 && found != [] && kept == [])
      && (outcome.AllExcluded? ==> outcome.excluded == |found| > 0)
      && (outcome.Written? ==>
            && outcome.excluded == |found| - |kept|
            && UniqueKeys(outcome.authorsMap)
            && IsSubsequence(Keys(outcome.authorsMap), kept)
            && (forall f :: f in Keys(outcome.authorsMap) ==>
                  f in found && !IsPathExcluded(f, DefaultExcludePatterns + exclude))
            && (forall f :: f in outcome.notInGit <==> f in kept && AuthorsFrom(gitLog)(f) == []))
  {
    var found := ReportedFiles(SplitLines(lint.stdout + lint.stderr));
    var kept := SurvivingFiles(found, DefaultExcludePatterns + exclude, checkIgnore);
    SurvivingFilesFacts(found, DefaultExcludePatterns + exclude, checkIgnore);
    AuthorMapKeys(kept, AuthorsFrom(gitLog), includeNotInGit);
  }

  /** `main` of `get-authors`, step by step. */
  method RunGetAuthors(gitDir: Completed, lint: Completed, exclude: seq<string>,
                       checkIgnore: string -> Completed, gitLog: string -> Completed,
                       includeNotInGit: bool)
    returns (outcome: GetAuthorsOutcome)
    ensures outcome == GetAuthorsOf(gitDir, lint, exclude, checkIgnore, gitLog, includeNotInGit)
  {
    if gitDir.returncode != 0 {
      return NotARepository;
    }
    var files := GetMissingLicenseFiles(lint);
    if files == [] {
      return NoIssues;
    }
    var allPatterns := DefaultExcludePatterns + exclude;
    var before := |files|;
    files := Filter(files, NotExcluded(allPatterns));
    files := FilterGitIgnored(files, checkIgnore);
    var excludedCount := before - |files|;
    if files == [] {
      return AllExcluded(excludedCount);
    }
    var authorsMap, notInGit := BuildAuthorMap(files, AuthorsFrom(gitLog), includeNotInGit);
    outcome := Written(authorsMap, excludedCount, notInGit);
  }
}
