/**
 * The local part of `TestAnalysisManager.runAnalysis`: collect the regular
 * files of the debug directory, classify them, drop near-duplicate
 * screenshots, and either hand the bundle to the cloud analysis or report
 * that there is nothing to analyse.
 */
module TestAnalysisManager {
  import opened Wrappers
  import opened Paths
  import opened ArtifactClassifier
  import opened ScreenshotDedup
  import opened Sequences

  /** The bundle submitted for analysis (`AnalysisDebugFiles`). */
  datatype AnalysisDebugFiles = AnalysisDebugFiles(
    screenshots: seq<Artifact>,
    logs: seq<Artifact>,
    commands: seq<Artifact>)

  /** One entry of the directory walk; only regular files carry content. */
  datatype WalkEntry = RegularFile(file: Artifact) | OtherEntry(path: Path)

  /** What `runAnalysis` did: warned and returned 0, or submitted a bundle and returned the analysis' code. */
  datatype AnalysisRun = NothingToAnalyze | Analyzed(debugFiles: AnalysisDebugFiles, exitCode: int)
  {
    /** The value `runAnalysis` returns. */
    function ExitCode(): int
    {
      match this
      case NothingToAnalyze => 0
      case Analyzed(_, code) => code
    }
  }

  /** `filter(Files::isRegularFile)`: the regular files of the walk, in walk order. */
  function RegularFiles(entries: seq<WalkEntry>): (files: seq<Artifact>)
    ensures |files| <= |entries|
    decreases |entries|
  {
    if |entries| == 0 then []
    else
      var n := |entries| - 1;
      var last := entries[n];
      RegularFiles(entries[..n]) + (if last.RegularFile? then [last.file] else [])
  }

  /** The walk's entries standing for the given regular files, in the same order. */
  function AsEntries(files: seq<Artifact>): (entries: seq<WalkEntry>)
    ensures |entries| == |files|
    ensures forall i :: 0 <= i < |files| ==> entries[i] == RegularFile(files[i])
  {
    seq(|files|, i requires 0 <= i < |files| => RegularFile(files[i]))
  }

  /**
   * The regular files are exactly the walk's regular-file entries, kept in
   * walk order: the order the de-duplicator later depends on.
   */
  lemma {:induction false} RegularFilesIsFilter(entries: seq<WalkEntry>)
    ensures AsEntries(RegularFiles(entries)) == Filter(entries, (e: WalkEntry) => e.RegularFile?)
    decreases |entries|
  {
    if |entries| > 0 {
      RegularFilesIsFilter(entries[..|entries| - 1]);
    }
  }

  /** Every regular file of the walk is kept, nothing else is, and none means an empty list. */
  lemma {:induction false} RegularFilesMembers(entries: seq<WalkEntry>)
    ensures RegularFiles(entries) == [] <==> forall e :: e in entries ==> !e.RegularFile?
    ensures forall e :: e in entries && e.RegularFile? ==> e.file in RegularFiles(entries)
    ensures forall f :: f in RegularFiles(entries) ==> RegularFile(f) in entries
    decreases |entries|
  {
    if |entries| > 0 {
      var n := |entries| - 1;
      PrefixAndLast(entries);
      RegularFilesMembers(entries[..n]);
    }
  }

  /**
   * `getDebugFiles`: one pass over the files appending each to the list of
   * its kind, then de-duplication of the screenshots.
   */
  method GetDebugFiles(files: seq<Artifact>, similar: (Artifact, Artifact) -> bool)
    returns (debugFiles: AnalysisDebugFiles)
    ensures debugFiles.logs == OfKind(files, Log)
    ensures debugFiles.commands == OfKind(files, Command)
    ensures debugFiles.screenshots == Deduplicate(OfKind(files, Screenshot), similar)
    ensures |debugFiles.screenshots| + |debugFiles.logs| + |debugFiles.commands| <= |files|
  {
    var logs: seq<Artifact> := [];
    var commands: seq<Artifact> := [];
    var screenshots: seq<Artifact> := [];
    for i := 0 to |files|
      invariant logs == OfKind(files[..i], Log)
      invariant commands == OfKind(files[..i], Command)
      invariant screenshots == OfKind(files[..i], Screenshot)
    {
      var file := files[i];
      PrefixExtend(files, i);
      OfKindSnoc(files[..i], file, Screenshot);
      OfKindSnoc(files[..i], file, Command);
      OfKindSnoc(files[..i], file, Log);
      var kind := Classify(file.path);
      match kind
      case Screenshot => screenshots := screenshots + [file];
      case Command => commands := commands + [file];
      case Log => logs := logs + [file];
      case Ignored =>
    }
    assert files[..|files|] == files;
    var filteredScreenshots := FilterSimilarScreenshots(screenshots, similar);
    OfKindPartition(files);
    debugFiles := AnalysisDebugFiles(filteredScreenshots, logs, commands);
  }

  /**
   * `processDebugFiles`: no bundle when the walk found no regular file;
   * otherwise always a bundle, even one whose three lists are empty.
   */
  method ProcessDebugFiles(entries: seq<WalkEntry>, similar: (Artifact, Artifact) -> bool)
    returns (debugFiles: Option<AnalysisDebugFiles>)
    ensures debugFiles.None? <==> forall e :: e in entries ==> !e.RegularFile?
    ensures debugFiles.Some? ==> debugFiles.value.logs == OfKind(RegularFiles(entries), Log)
    ensures debugFiles.Some? ==> debugFiles.value.commands == OfKind(RegularFiles(entries), Command)
    ensures debugFiles.Some? ==>
      debugFiles.value.screenshots == Deduplicate(OfKind(RegularFiles(entries), Screenshot), similar)
    ensures (exists e :: e in entries && e.RegularFile?)
            && (forall e :: e in entries && e.RegularFile? ==> Classify(e.file.path) == Ignored)
            ==> debugFiles == Some(AnalysisDebugFiles([], [], []))
  {
    var files := RegularFiles(entries);
    RegularFilesMembers(entries);
    if |files| == 0 {
      return None;
    }
    var bundle := GetDebugFiles(files, similar);
    if forall e :: e in entries && e.RegularFile? ==> Classify(e.file.path) == Ignored {
      forall f | f in files
        ensures Classify(f.path) == Ignored
      {
        assert RegularFile(f) in entries;
      }
      NothingClassified(files);
    }
    debugFiles := Some(bundle);
  }

  /** When no file is classified, all three lists are empty. */
  lemma {:induction false} NothingClassified(files: seq<Artifact>)
    requires forall f :: f in files ==> Classify(f.path) == Ignored
    ensures OfKind(files, Screenshot) == [] && OfKind(files, Command) == [] && OfKind(files, Log) == []
  {
    OfKindPartition(files);
    assert |OfKind(files, Ignored)| == |files| by {
      OfKindAllOfOneKind(files, Ignored);
    }
  }

  /** When every file has kind `k`, the list of kind `k` is the whole input. */
  lemma {:induction false} OfKindAllOfOneKind(files: seq<Artifact>, k: Kind)
    requires forall f :: f in files ==> Classify(f.path) == k
    ensures OfKind(files, k) == files
  {
    FilterAll(files, IsOfKind(k));
  }

  /**
   * `runAnalysis`: with no regular file it warns and returns 0 without
   * calling the analysis; otherwise it returns what the analysis returns for
   * the bundle. The cloud analysis is the parameter `analyze`.
   */
  method RunAnalysis(
    entries: seq<WalkEntry>,
    similar: (Artifact, Artifact) -> bool,
    analyze: AnalysisDebugFiles -> int)
    returns (run: AnalysisRun)
    ensures run.NothingToAnalyze? <==> forall e :: e in entries ==> !e.RegularFile?
    ensures run.NothingToAnalyze? ==> run.ExitCode() == 0
    ensures run.Analyzed? ==> run.ExitCode() == analyze(run.debugFiles)
    ensures run.Analyzed? ==> run.debugFiles.logs == OfKind(RegularFiles(entries), Log)
    ensures run.Analyzed? ==> run.debugFiles.commands == OfKind(RegularFiles(entries), Command)
    ensures run.Analyzed? ==>
      run.debugFiles.screenshots == Deduplicate(OfKind(RegularFiles(entries), Screenshot), similar)
  {
    var debugFiles := ProcessDebugFiles(entries, similar);
    if debugFiles.None? {
      return NothingToAnalyze;
    }
    run := Analyzed(debugFiles.value, analyze(debugFiles.value));
  }
}
