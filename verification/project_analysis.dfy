/** `analyze_project`: a top-down walk of the project tree that prunes
    excluded and hidden directories, measures every file whose extension is
    listed, and sums the measurements of the non-empty ones, overall and per
    extension. */
module ProjectAnalysis {
  import opened Text
  import opened FileAnalysis

  /** The extensions analysed when none are given. */
  const DefaultExtensions: seq<string> := [
    ".py", ".js", ".jsx", ".ts", ".tsx", ".java", ".c", ".cpp", ".h", ".hpp",
    ".cs", ".go", ".rb", ".php", ".swift", ".kt", ".rs", ".scala", ".sh",
    ".html", ".css", ".scss", ".sass", ".less", ".json", ".yml", ".yaml", ".md"
  ]

  /** The directory names pruned when none are given. */
  const DefaultExcludeDirs: seq<string> := [
    ".git", "node_modules", "venv", ".venv", "env", ".env",
    "dist", "build", "target", "out", "bin", "obj"
  ]

  /** A directory as the walk sees it: its name, its sub-directories and its
      files, each list in the order the file system lists it. */
  datatype Tree = Dir(name: string, subdirs: seq<Tree>, files: seq<FileData>)

  // ---------------------------------------------------------------------
  // Directory pruning

  /** The walk descends into a sub-directory unless its name is excluded or
      starts with a dot. */
  predicate KeepDir(d: string, exclude: seq<string>): (keep: bool)
    ensures d in exclude ==> !keep
    ensures |d| > 0 && d[0] == '.' ==> !keep
  {
    d !in exclude && !(|d| > 0 && d[0] == '.')
  }

  /** `[d for d in dirs if d not in exclude_dirs and not d.startswith('.')]`. */
  function PruneDirs(dirs: seq<string>, exclude: seq<string>): (kept: seq<string>)
    ensures |kept| <= |dirs|
    ensures forall d :: d in kept <==> d in dirs && KeepDir(d, exclude)
  {
    if dirs == [] then []
    else
      var d := dirs[|dirs| - 1];
      PruneDirs(dirs[..|dirs| - 1], exclude) + (if KeepDir(d, exclude) then [d] else [])
  }

  /** Pruning works name by name: it distributes over concatenation. */
  lemma {:induction false} PruneDirsAppend(a: seq<string>, b: seq<string>, exclude: seq<string>)
    ensures PruneDirs(a + b, exclude) == PruneDirs(a, exclude) + PruneDirs(b, exclude)
    decreases |b|
  {
    if b != [] {
      var b' := b[..|b| - 1];
      assert (a + b)[..|a + b| - 1] == a + b';
      PruneDirsAppend(a, b', exclude);
    } else {
      assert a + b == a;
    }
  }

  /** Pruning keeps the order of the names it keeps, and pruning again
      changes nothing. */
  lemma {:induction false} PruneDirsIdempotent(dirs: seq<string>, exclude: seq<string>)
    ensures PruneDirs(PruneDirs(dirs, exclude), exclude) == PruneDirs(dirs, exclude)
    decreases |dirs|
  {
    if dirs != [] {
      var d := dirs[|dirs| - 1];
      var front := PruneDirs(dirs[..|dirs| - 1], exclude);
      PruneDirsIdempotent(dirs[..|dirs| - 1], exclude);
      PruneDirsAppend(front, if KeepDir(d, exclude) then [d] else [], exclude);
      assert PruneDirs([d], exclude) == (if KeepDir(d, exclude) then [d] else []) by {
        assert [d][..0] == [];
      }
    }
  }

  // ---------------------------------------------------------------------
  // The walk

  /** The names of a list of directories. */
  function DirNames(ts: seq<Tree>): (names: seq<string>)
    ensures |names| == |ts|
    ensures forall k :: 0 <= k < |ts| ==> names[k] == ts[k].name
  {
    seq(|ts|, k requires 0 <= k < |ts| => ts[k].name)
  }

  /** `os.walk(top)` with the listing of each directory pruned before the
      walk descends: the directory itself, then, in order, the walks of the
      sub-directories whose names survive pruning. */
  function Walk(t: Tree, exclude: seq<string>): (visited: seq<Tree>)
    ensures |visited| >= 1 && visited[0] == t
    decreases t, 1
  {
    [t] + WalkChildren(t, |t.subdirs|, exclude)
  }

  /** The walks of the first `i` sub-directories of `t` that survive pruning. */
  function WalkChildren(t: Tree, i: nat, exclude: seq<string>): seq<Tree>
    requires i <= |t.subdirs|
    decreases t, 0, i
  {
    if i == 0 then []
    else
      var c := t.subdirs[i - 1];
      WalkChildren(t, i - 1, exclude) +
      (if c.name in PruneDirs(DirNames(t.subdirs), exclude) then Walk(c, exclude) else [])
  }

  /** Below the top directory, every directory visited has a name pruning
      keeps: nothing excluded or hidden is entered, at any depth. */
  lemma {:induction false} WalkVisitsOnlyKept(t: Tree, exclude: seq<string>)
    ensures forall k :: 1 <= k < |Walk(t, exclude)| ==> KeepDir(Walk(t, exclude)[k].name, exclude)
    decreases t, 1
  {
    ChildrenVisitOnlyKept(t, |t.subdirs|, exclude);
    var w := Walk(t, exclude);
    forall k | 1 <= k < |w| ensures KeepDir(w[k].name, exclude) {
      assert w[k] == WalkChildren(t, |t.subdirs|, exclude)[k - 1];
    }
  }

  lemma {:induction false} ChildrenVisitOnlyKept(t: Tree, i: nat, exclude: seq<string>)
    requires i <= |t.subdirs|
    ensures forall k :: 0 <= k < |WalkChildren(t, i, exclude)| ==> KeepDir(WalkChildren(t, i, exclude)[k].name, exclude)
    decreases t, 0, i
  {
    if i > 0 {
      var c := t.subdirs[i - 1];
      ChildrenVisitOnlyKept(t, i - 1, exclude);
      if c.name in PruneDirs(DirNames(t.subdirs), exclude) {
        WalkVisitsOnlyKept(c, exclude);
      }
    }
  }

  /** Every sub-directory that survives pruning is walked in full: all it
      visits, the walk of its parent visits too. */
  lemma {:induction false} WalkEntersKeptChild(t: Tree, i: nat, exclude: seq<string>)
    requires i < |t.subdirs|
    requires KeepDir(t.subdirs[i].name, exclude)
    ensures forall d :: d in Walk(t.subdirs[i], exclude) ==> d in Walk(t, exclude)
  {
    var n := |t.subdirs|;
    assert DirNames(t.subdirs)[i] == t.subdirs[i].name;
    var j := i + 1;
    while j < n
      invariant i + 1 <= j <= n
      invariant forall d :: d in Walk(t.subdirs[i], exclude) ==> d in WalkChildren(t, j, exclude)
    {
      j := j + 1;
    }
    assert Walk(t, exclude) == [t] + WalkChildren(t, n, exclude);
  }

  /** The converse: the walk reaches a directory only through sub-directories
      that survive pruning, so no part of a pruned sub-tree is visited, not
      even a nested directory whose own name would be kept. */
  lemma WalkOnlyThroughKept(t: Tree, exclude: seq<string>)
    ensures forall d :: d in Walk(t, exclude) ==>
      d == t ||
      exists j :: 0 <= j < |t.subdirs| && KeepDir(t.subdirs[j].name, exclude) && d in Walk(t.subdirs[j], exclude)
  {
    ChildrenOnlyThroughKept(t, |t.subdirs|, exclude);
  }

  lemma {:induction false} ChildrenOnlyThroughKept(t: Tree, i: nat, exclude: seq<string>)
    requires i <= |t.subdirs|
    ensures forall d :: d in WalkChildren(t, i, exclude) ==>
      exists j :: 0 <= j < i && KeepDir(t.subdirs[j].name, exclude) && d in Walk(t.subdirs[j], exclude)
    decreases i
  {
    if i > 0 {
      ChildrenOnlyThroughKept(t, i - 1, exclude);
      var c := t.subdirs[i - 1];
      forall d | d in WalkChildren(t, i, exclude)
        ensures exists j :: 0 <= j < i && KeepDir(t.subdirs[j].name, exclude) && d in Walk(t.subdirs[j], exclude)
      {
        if d !in WalkChildren(t, i - 1, exclude) {
          assert c.name in PruneDirs(DirNames(t.subdirs), exclude) && d in Walk(c, exclude);
          assert KeepDir(t.subdirs[i - 1].name, exclude);
        }
      }
    }
  }

  /** With the default exclusions, `node_modules/src` is not visited even
      though `src` itself would be kept: only the project directory and
      its `src` are. */
  lemma NestedUnderPrunedNotVisited()
    ensures
      var src := Dir("src", [], []);
      var top := Dir("proj", [Dir("node_modules", [src], []), src], []);
      Walk(top, DefaultExcludeDirs) == [top, src]
  {
    var src := Dir("src", [], []);
    var nm := Dir("node_modules", [src], []);
    var top := Dir("proj", [nm, src], []);
    assert DefaultExcludeDirs[1] == "node_modules";
    assert !KeepDir(nm.name, DefaultExcludeDirs);
    assert KeepDir(src.name, DefaultExcludeDirs);
    var kept := PruneDirs(DirNames(top.subdirs), DefaultExcludeDirs);
    assert nm.name !in kept && src.name in kept;
    assert WalkChildren(top, 1, DefaultExcludeDirs) == [];
    assert Walk(src, DefaultExcludeDirs) == [src];
    assert WalkChildren(top, 2, DefaultExcludeDirs) == [src];
  }

  /** The files of the visited directories, in visiting order. */
  function FilesOf(ds: seq<Tree>): seq<FileData> {
    if ds == [] then [] else FilesOf(ds[..|ds| - 1]) + ds[|ds| - 1].files
  }

  /** Visiting one more directory appends its files. */
  lemma FilesOfStep(walk: seq<Tree>, i: nat)
    requires i < |walk|
    ensures FilesOf(walk[..i + 1]) == FilesOf(walk[..i]) + walk[i].files
  {
    assert walk[..i + 1][..i] == walk[..i];
  }

  // ---------------------------------------------------------------------
  // Counting files

  /** The measurement of one counted file: its extension, lines and tokens. */
  datatype Measure = Measure(ext: string, loc: nat, tokens: nat)

  /** A measurement the totals admit: its extension is listed and lower-case,
      and it has at least one line. */
  predicate Admitted(m: Measure, extensions: seq<string>) {
    m.ext in extensions && m.loc >= 1 && !HasUpper(m.ext)
  }

  /** The measurement a file contributes: its extension, lines and tokens
      when its lower-cased extension is listed and its line count is
      positive, nothing otherwise. */
  function FileMeasure(f: FileData, extensions: seq<string>, countTokens: Tokenizer): (m: Option<Measure>)
    ensures m.Some? ==> Admitted(m.value, extensions)
  {
    var ext := FileExtension(f.name);
    var r := Analysis(f, countTokens);
    LowerIsLower(SplitExt(f.name).1);
    if ext in extensions && r.loc > 0 then Some(Measure(ext, r.loc, r.tokens)) else None
  }

  /** The measurements that enter the totals, in walk order. */
  function Counted(files: seq<FileData>, extensions: seq<string>, countTokens: Tokenizer): (ms: seq<Measure>)
    ensures |ms| <= |files|
  {
    if files == [] then []
    else
      var before := Counted(files[..|files| - 1], extensions, countTokens);
      match FileMeasure(files[|files| - 1], extensions, countTokens)
      case Some(m) => before + [m]
      case None => before
  }

  /** Every measurement that enters the totals has a listed, lower-case
      extension and at least one line. */
  lemma {:induction false} CountedListed(files: seq<FileData>, extensions: seq<string>, countTokens: Tokenizer)
    ensures forall k :: 0 <= k < |Counted(files, extensions, countTokens)| ==>
              Admitted(Counted(files, extensions, countTokens)[k], extensions)
    decreases |files|
  {
    if files != [] {
      var front := files[..|files| - 1];
      CountedListed(front, extensions, countTokens);
      var m := FileMeasure(files[|files| - 1], extensions, countTokens);
      AppendAdmitted(Counted(front, extensions, countTokens), m, extensions);
      assert Counted(files, extensions, countTokens) ==
             Counted(front, extensions, countTokens) + (if m.Some? then [m.value] else []);
    }
  }

  lemma AppendAdmitted(ms: seq<Measure>, m: Option<Measure>, extensions: seq<string>)
    requires forall k :: 0 <= k < |ms| ==> Admitted(ms[k], extensions)
    requires m.Some? ==> Admitted(m.value, extensions)
    ensures var ms' := ms + (if m.Some? then [m.value] else []);
            forall k :: 0 <= k < |ms'| ==> Admitted(ms'[k], extensions)
  {
  }

  /** Counting works file by file: it distributes over concatenation. */
  lemma {:induction false} CountedAppend(a: seq<FileData>, b: seq<FileData>, extensions: seq<string>, countTokens: Tokenizer)
    ensures Counted(a + b, extensions, countTokens) == Counted(a, extensions, countTokens) + Counted(b, extensions, countTokens)
    decreases |b|
  {
    if b != [] {
      var b' := b[..|b| - 1];
      assert (a + b)[..|a + b| - 1] == a + b';
      CountedAppend(a, b', extensions, countTokens);
    } else {
      assert a + b == a;
    }
  }

  /** Taking one more file of a directory's list appends its measurement
      when its extension is listed and its line count is positive, and
      nothing otherwise. */
  lemma CountedStep(done: seq<FileData>, files: seq<FileData>, j: nat, extensions: seq<string>, countTokens: Tokenizer)
    requires j < |files|
    ensures Counted(done + files[..j + 1], extensions, countTokens) ==
      match FileMeasure(files[j], extensions, countTokens)
      case Some(m) => Counted(done + files[..j], extensions, countTokens) + [m]
      case None => Counted(done + files[..j], extensions, countTokens)
  {
    assert (done + files[..j + 1])[..|done + files[..j + 1]| - 1] == done + files[..j];
  }

  /** One file is counted exactly when its extension is listed and it is
      not skipped, and then with the lines and tokens of its analysis. */
  lemma CountedOne(f: FileData, extensions: seq<string>, countTokens: Tokenizer)
    ensures Counted([f], extensions, countTokens) ==
      if FileExtension(f.name) in extensions && !Skipped(f, countTokens)
      then [Measure(FileExtension(f.name), Analysis(f, countTokens).loc, Analysis(f, countTokens).tokens)]
      else []
  {
    NoLinesIffSkipped(f, countTokens);
    assert [f][..0] == [];
  }

  /** A binary file, an unreadable one or one whose tokens cannot be counted
      leaves every total and every entry as it was. */
  lemma SkippedFileChangesNothing(files: seq<FileData>, f: FileData, extensions: seq<string>, countTokens: Tokenizer)
    requires Skipped(f, countTokens)
    ensures ReportOf(Counted(files + [f], extensions, countTokens)) == ReportOf(Counted(files, extensions, countTokens))
  {
    CountedAppend(files, [f], extensions, countTokens);
    CountedOne(f, extensions, countTokens);
    assert Counted(files, extensions, countTokens) + [] == Counted(files, extensions, countTokens);
  }

  /** An extension with an upper-case letter in the list never matches a
      file: file extensions are lower-cased before the membership test. */
  lemma UpperCaseExtensionNeverCounted(files: seq<FileData>, extensions: seq<string>, countTokens: Tokenizer, e: string)
    requires HasUpper(e)
    ensures forall k :: 0 <= k < |Counted(files, extensions, countTokens)| ==> Counted(files, extensions, countTokens)[k].ext != e
  {
    CountedListed(files, extensions, countTokens);
  }

  // ---------------------------------------------------------------------
  // Totals

  /** The three statistics kept for each extension and overall. */
  datatype Field = Files | Loc | Tokens

  function Weight(m: Measure, f: Field): nat {
    match f
    case Files => 1
    case Loc => m.loc
    case Tokens => m.tokens
  }

  /** The sum of one statistic over all measurements. */
  function Total(ms: seq<Measure>, f: Field): nat {
    if ms == [] then 0 else Total(ms[..|ms| - 1], f) + Weight(ms[|ms| - 1], f)
  }

  /** The sum of one statistic over the measurements of extension `e`. */
  function TotalFor(ms: seq<Measure>, e: string, f: Field): (r: nat)
    ensures (forall k :: 0 <= k < |ms| ==> ms[k].ext != e) ==> r == 0
  {
    if ms == [] then 0
    else TotalFor(ms[..|ms| - 1], e, f) + (if ms[|ms| - 1].ext == e then Weight(ms[|ms| - 1], f) else 0)
  }

  /** The sum of one statistic over the measurements whose extension is
      one of `keys`. */
  function TotalIn(ms: seq<Measure>, keys: seq<string>, f: Field): nat {
    if ms == [] then 0
    else TotalIn(ms[..|ms| - 1], keys, f) + (if ms[|ms| - 1].ext in keys then Weight(ms[|ms| - 1], f) else 0)
  }

  /** The distinct extensions of the measurements, in order of first
      appearance: the key order of the per-extension dictionary. */
  function FirstSeen(ms: seq<Measure>): (exts: seq<string>)
    ensures forall e :: e in exts <==> exists k :: 0 <= k < |ms| && ms[k].ext == e
    ensures forall i, j :: 0 <= i < j < |exts| ==> exts[i] != exts[j]
  {
    if ms == [] then []
    else
      var before := FirstSeen(ms[..|ms| - 1]);
      var e := ms[|ms| - 1].ext;
      assert forall k :: 0 <= k < |ms| - 1 ==> ms[..|ms| - 1][k] == ms[k];
      if e in before then before else before + [e]
  }

  /** The per-extension statistics. */
  datatype ExtStats = ExtStats(files: nat, loc: nat, tokens: nat)

  function Get(s: ExtStats, f: Field): nat {
    match f
    case Files => s.files
    case Loc => s.loc
    case Tokens => s.tokens
  }

  /** The result of `analyze_project`: the totals and the per-extension
      statistics, with the order in which the extensions were first seen. */
  datatype Report = Report(totalFiles: nat, totalLoc: nat, totalTokens: nat,
                           statsByExt: map<string, ExtStats>, extOrder: seq<string>)

  function TotalOf(r: Report, f: Field): nat {
    match f
    case Files => r.totalFiles
    case Loc => r.totalLoc
    case Tokens => r.totalTokens
  }

  /** The statistics of the measurements `ms` of extension `e`. */
  function StatsFor(ms: seq<Measure>, e: string): ExtStats {
    ExtStats(TotalFor(ms, e, Files), TotalFor(ms, e, Loc), TotalFor(ms, e, Tokens))
  }

  /** `r` is the report of the measurements `ms`: its totals are the sums
      over `ms`, it has an entry for exactly the extensions seen, in order of
      first appearance, and each entry holds the sums over that extension. */
  ghost predicate Summarizes(r: Report, ms: seq<Measure>) {
    && r.totalFiles == Total(ms, Files)
    && r.totalLoc == Total(ms, Loc)
    && r.totalTokens == Total(ms, Tokens)
    && r.extOrder == FirstSeen(ms)
    && (forall e :: e in r.statsByExt <==> e in r.extOrder)
    && (forall e :: e in r.statsByExt ==> r.statsByExt[e] == StatsFor(ms, e))
  }

  /** The report after one more measurement: the totals grow by it, and so
      does its extension's entry, which is created with zeros, at the end of
      the order, when the extension is new. */
  function AddMeasure(r: Report, m: Measure): (r': Report)
    ensures m.ext in r'.statsByExt && 1 <= r'.statsByExt[m.ext].files
  {
    var entry := if m.ext in r.statsByExt then r.statsByExt[m.ext] else ExtStats(0, 0, 0);
    Report(r.totalFiles + 1, r.totalLoc + m.loc, r.totalTokens + m.tokens,
           r.statsByExt[m.ext := ExtStats(entry.files + 1, entry.loc + m.loc, entry.tokens + m.tokens)],
           if m.ext in r.statsByExt then r.extOrder else r.extOrder + [m.ext])
  }

  /** The report the aggregation loop builds from a sequence of measurements. */
  function ReportOf(ms: seq<Measure>): Report {
    if ms == [] then Report(0, 0, 0, map[], [])
    else AddMeasure(ReportOf(ms[..|ms| - 1]), ms[|ms| - 1])
  }

  /** An update touches only the measurement's own entry: the keys gain at
      most that extension, every other entry is left as it was, and the key
      order keeps its keys and grows by at most one at the end. */
  lemma AddMeasureFrame(r: Report, m: Measure)
    ensures AddMeasure(r, m).statsByExt.Keys == r.statsByExt.Keys + {m.ext}
    ensures forall e :: e in r.statsByExt && e != m.ext ==> AddMeasure(r, m).statsByExt[e] == r.statsByExt[e]
    ensures r.extOrder <= AddMeasure(r, m).extOrder && |AddMeasure(r, m).extOrder| <= |r.extOrder| + 1
  {
  }

  lemma ReportOfStep(ms: seq<Measure>, m: Measure)
    ensures ReportOf(ms + [m]) == AddMeasure(ReportOf(ms), m)
  {
    assert (ms + [m])[..|ms|] == ms;
  }

  /** Adding a measurement to a report of `ms` yields a report of `ms` with
      the measurement appended. */
  lemma SummarizesAppend(r: Report, ms: seq<Measure>, m: Measure)
    requires Summarizes(r, ms)
    ensures Summarizes(AddMeasure(r, m), ms + [m])
  {
    var ms' := ms + [m];
    var r' := AddMeasure(r, m);
    assert ms'[..|ms'| - 1] == ms;
    forall e | e in r'.statsByExt ensures r'.statsByExt[e] == StatsFor(ms', e) {
      if e == m.ext && m.ext !in r.statsByExt {
        assert e !in FirstSeen(ms);
        assert StatsFor(ms, e) == ExtStats(0, 0, 0);
      }
    }
  }

  /** The report the loop builds is the report of its measurements. */
  lemma {:induction false} ReportSummarizes(ms: seq<Measure>)
    ensures Summarizes(ReportOf(ms), ms)
    decreases |ms|
  {
    if ms != [] {
      var front, m := ms[..|ms| - 1], ms[|ms| - 1];
      ReportSummarizes(front);
      SummarizesAppend(ReportOf(front), front, m);
      assert front + [m] == ms;
      ReportOfStep(front, m);
    }
  }

  /** The measurements of a listed extension with an entry are all non-empty,
      so every entry counts at least one file and at least one line per file. */
  lemma {:induction false} EntriesAreNonEmpty(r: Report, ms: seq<Measure>)
    requires Summarizes(r, ms)
    requires forall k :: 0 <= k < |ms| ==> ms[k].loc >= 1
    ensures forall e :: e in r.statsByExt ==> 1 <= r.statsByExt[e].files <= r.statsByExt[e].loc
  {
    forall e | e in r.statsByExt ensures 1 <= r.statsByExt[e].files <= r.statsByExt[e].loc {
      var k :| 0 <= k < |ms| && ms[k].ext == e;
      EntryBounds(ms, e, k);
    }
  }

  lemma {:induction false} EntryBounds(ms: seq<Measure>, e: string, k: nat)
    requires k < |ms| && ms[k].ext == e
    requires forall i :: 0 <= i < |ms| ==> ms[i].loc >= 1
    ensures 1 <= TotalFor(ms, e, Files) <= TotalFor(ms, e, Loc)
    decreases |ms|
  {
    var front := ms[..|ms| - 1];
    if k < |ms| - 1 {
      assert front[k] == ms[k];
      EntryBounds(front, e, k);
    } else {
      FilesBoundLoc(front, e);
    }
  }

  lemma {:induction false} FilesBoundLoc(ms: seq<Measure>, e: string)
    requires forall i :: 0 <= i < |ms| ==> ms[i].loc >= 1
    ensures TotalFor(ms, e, Files) <= TotalFor(ms, e, Loc)
    decreases |ms|
  {
    if ms != [] {
      FilesBoundLoc(ms[..|ms| - 1], e);
    }
  }

  /** The file total is the number of counted files. */
  lemma {:induction false} FileTotalIsCount(ms: seq<Measure>)
    ensures Total(ms, Files) == |ms|
    decreases |ms|
  {
    if ms != [] {
      FileTotalIsCount(ms[..|ms| - 1]);
    }
  }

  /** The sum of one statistic over the entries of `keys`. */
  function SumOver(keys: seq<string>, stats: map<string, ExtStats>, f: Field): nat
    requires forall k :: 0 <= k < |keys| ==> keys[k] in stats
  {
    if keys == [] then 0
    else SumOver(keys[..|keys| - 1], stats, f) + Get(stats[keys[|keys| - 1]], f)
  }

  /** Each overall total equals the sum of that statistic over the
      per-extension entries. */
  lemma TotalsAreSumsOfEntries(r: Report, ms: seq<Measure>, f: Field)
    requires Summarizes(r, ms)
    ensures forall k :: 0 <= k < |r.extOrder| ==> r.extOrder[k] in r.statsByExt
    ensures TotalOf(r, f) == SumOver(r.extOrder, r.statsByExt, f)
  {
    SumOverEntries(r.extOrder, r.statsByExt, ms, f);
    TotalInAll(ms, r.extOrder, f);
  }

  lemma {:induction false} SumOverEntries(keys: seq<string>, stats: map<string, ExtStats>, ms: seq<Measure>, f: Field)
    requires forall k :: 0 <= k < |keys| ==> keys[k] in stats && Get(stats[keys[k]], f) == TotalFor(ms, keys[k], f)
    requires forall i, j :: 0 <= i < j < |keys| ==> keys[i] != keys[j]
    ensures SumOver(keys, stats, f) == TotalIn(ms, keys, f)
    decreases |keys|
  {
    if keys != [] {
      var front := keys[..|keys| - 1];
      var e := keys[|keys| - 1];
      assert forall k :: 0 <= k < |front| ==> front[k] == keys[k];
      SumOverEntries(front, stats, ms, f);
      assert e !in front;
      assert front + [e] == keys;
      TotalInExtend(ms, front, e, f);
    } else {
      TotalInNone(ms, f);
    }
  }

  /** No measurement counts towards an empty list of extensions. */
  lemma {:induction false} TotalInNone(ms: seq<Measure>, f: Field)
    ensures TotalIn(ms, [], f) == 0
    decreases |ms|
  {
    if ms != [] {
      TotalInNone(ms[..|ms| - 1], f);
    }
  }

  lemma {:induction false} TotalInExtend(ms: seq<Measure>, keys: seq<string>, e: string, f: Field)
    requires e !in keys
    ensures TotalIn(ms, keys + [e], f) == TotalIn(ms, keys, f) + TotalFor(ms, e, f)
    decreases |ms|
  {
    if ms != [] {
      TotalInExtend(ms[..|ms| - 1], keys, e, f);
    }
  }

  lemma {:induction false} TotalInAll(ms: seq<Measure>, keys: seq<string>, f: Field)
    requires forall k :: 0 <= k < |ms| ==> ms[k].ext in keys
    ensures TotalIn(ms, keys, f) == Total(ms, f)
    decreases |ms|
  {
    if ms != [] {
      var front := ms[..|ms| - 1];
      assert forall k :: 0 <= k < |front| ==> front[k] == ms[k];
      TotalInAll(front, keys, f);
    }
  }

  // ---------------------------------------------------------------------
  // The analysis

  function ExtensionsOrDefault(extensions: Option<seq<string>>): seq<string> {
    if extensions.None? then DefaultExtensions else extensions.value
  }

  function ExcludeOrDefault(excludeDirs: Option<seq<string>>): seq<string> {
    if excludeDirs.None? then DefaultExcludeDirs else excludeDirs.value
  }

  /** The measurements `analyze_project` sums for a project tree. */
  function ProjectMeasures(root: Tree, extensions: Option<seq<string>>, excludeDirs: Option<seq<string>>,
                           countTokens: Tokenizer): seq<Measure>
  {
    Counted(FilesOf(Walk(root, ExcludeOrDefault(excludeDirs))), ExtensionsOrDefault(extensions), countTokens)
  }

  /** The loop of `analyze_project` over the files of one visited
      directory: each file with a listed extension is analyzed, and one with
      a positive line count is added to the totals and to its extension's
      entry. `done` are the files of the directories visited before. */
  method AddDirectoryFiles(report: Report, ghost done: seq<FileData>, files: seq<FileData>,
                           exts: seq<string>, countTokens: Tokenizer)
    returns (results: Report)
    requires report == ReportOf(Counted(done, exts, countTokens))
    ensures results == ReportOf(Counted(done + files, exts, countTokens))
  {
    results := report;
    assert done + files[..0] == done;
    for j := 0 to |files|
      invariant results == ReportOf(Counted(done + files[..j], exts, countTokens))
    {
      var file := files[j];
      var fileExt := FileExtension(file.name);
      CountedStep(done, files, j, exts, countTokens);
      if fileExt in exts {
        var loc, tokens, _ := AnalyzeFile(file, countTokens);
        if loc > 0 {
          ReportOfStep(Counted(done + files[..j], exts, countTokens), Measure(fileExt, loc, tokens));
          results := AddMeasure(results, Measure(fileExt, loc, tokens));
        }
      }
    }
    assert files[..|files|] == files;
  }

  /** `analyze_project(project_path, extensions, exclude_dirs)` once the
      project root is resolved. */
  method AnalyzeProject(root: Tree, extensions: Option<seq<string>>, excludeDirs: Option<seq<string>>,
                        countTokens: Tokenizer)
    returns (results: Report)
    ensures results == ReportOf(ProjectMeasures(root, extensions, excludeDirs, countTokens))
    ensures Summarizes(results, ProjectMeasures(root, extensions, excludeDirs, countTokens))
  {
    var exts := ExtensionsOrDefault(extensions);
    var exclude := ExcludeOrDefault(excludeDirs);
    var walk := Walk(root, exclude);

    results := Report(0, 0, 0, map[], []);
    for i := 0 to |walk|
      invariant results == ReportOf(Counted(FilesOf(walk[..i]), exts, countTokens))
    {
      results := AddDirectoryFiles(results, FilesOf(walk[..i]), walk[i].files, exts, countTokens);
      FilesOfStep(walk, i);
    }
    assert walk[..|walk|] == walk;
    ReportSummarizes(ProjectMeasures(root, extensions, excludeDirs, countTokens));
  }
}
