/**
 * Classification of debug artifacts by file name (`getDebugFiles`): each
 * regular file of a test run's debug directory becomes a screenshot, a
 * command trace, the run's log, or is ignored.
 */
module ArtifactClassifier {
  import opened Paths
  import opened Sequences

  /** A file as read from disk: its bytes and where it was found. */
  datatype Artifact = Artifact(data: seq<bv8>, path: Path)

  /** The list, if any, a file is put on. */
  datatype Kind = Screenshot | Command | Log | Ignored

  const ImageExtensions: seq<string> := [".png", ".jpg", ".jpeg"]
  const CommandsPrefix: string := "commands"
  const LogFileName: string := "maestro.log"

  /** The name ends with one of the image extensions. */
  predicate HasImageExtension(name: string)
  {
    exists ext :: ext in ImageExtensions && EndsWith(name, ext)
  }

  /**
   * The `when` chain on an already lower-cased file name: an image
   * extension first, then the commands prefix, then the exact log name.
   */
  function KindOfName(name: string): (k: Kind)
    ensures k == Screenshot <==> HasImageExtension(name)
    ensures k == Command <==> StartsWith(name, CommandsPrefix) && !HasImageExtension(name)
    ensures k == Log <==> name == LogFileName
  {
    if EndsWith(name, ".png") || EndsWith(name, ".jpg") || EndsWith(name, ".jpeg") then Screenshot
    else if StartsWith(name, CommandsPrefix) then
      assert name != LogFileName by { LogFileNameIsPlain(); }
      Command
    else if name == LogFileName then
      assert !HasImageExtension(name) by { LogFileNameIsPlain(); }
      Log
    else Ignored
  }

  /** The log's name has no image extension and does not start with the commands prefix. */
  lemma {:induction false} LogFileNameIsPlain()
    ensures !HasImageExtension(LogFileName)
    ensures !StartsWith(LogFileName, CommandsPrefix)
  {
    assert LogFileName[0] != CommandsPrefix[0];
    forall ext | ext in ImageExtensions
      ensures !EndsWith(LogFileName, ext)
    {
      assert ext[|ext| - 2] != LogFileName[|LogFileName| - 2];
    }
  }

  /** A file is classified by its lower-cased file name alone. */
  function Classify(path: Path): (k: Kind)
    ensures k == Screenshot <==> HasImageExtension(ToLower(FileName(path)))
    ensures k == Command <==>
      StartsWith(ToLower(FileName(path)), CommandsPrefix) && !HasImageExtension(ToLower(FileName(path)))
    ensures k == Log <==> ToLower(FileName(path)) == LogFileName
  {
    KindOfName(ToLower(FileName(path)))
  }

  /** The directories above a file never influence its kind. */
  lemma {:induction false} ClassifyIgnoresDirectory(dir: Path, name: string)
    requires Separator !in name
    ensures Classify(Join(dir, name)) == Classify(name)
    ensures Classify(name) == KindOfName(ToLower(name))
  {
    FileNameOfJoin(dir, name);
    NoSeparatorIsFileName(name);
  }

  /** Paths that agree up to letter case are classified alike. */
  lemma {:induction false} ClassifyIgnoresCase(p: Path, q: Path)
    requires ToLower(p) == ToLower(q)
    ensures Classify(p) == Classify(q)
  {
    FileNameOfLower(p);
    FileNameOfLower(q);
  }

  /** The file `name` in directory `dir` is classified by the lower-cased `name`. */
  lemma {:induction false} ClassifyInDirectory(dir: Path, name: string, lower: string)
    requires Separator !in name && ToLower(name) == lower
    ensures Classify(Join(dir, name)) == KindOfName(lower)
  {
    FileNameOfJoin(dir, name);
  }

  /** `commands.png` has an image extension and the commands prefix; the extension decides. */
  lemma {:induction false} CommandsPngName()
    ensures ToLower("commands.png") == "commands.png"
    ensures StartsWith("commands.png", CommandsPrefix)
    ensures KindOfName("commands.png") == Screenshot
  {
    assert EndsWith("commands.png", ".png");
  }

  /** An image extension wins over the commands prefix: `commands.png` is a screenshot. */
  lemma {:induction false} CommandsImageIsScreenshot(dir: Path)
    ensures Classify(Join(dir, "commands.png")) == Screenshot
  {
    CommandsPngName();
    ClassifyInDirectory(dir, "commands.png", "commands.png");
  }

  /** The lower case of `SHOT.PNG` and of `Maestro.LOG`. */
  lemma {:induction false} UpperCaseNamesLowered()
    ensures ToLower("SHOT.PNG") == "shot.png"
    ensures ToLower("Maestro.LOG") == LogFileName
  {
  }

  /** `shot.png` has an image extension. */
  lemma {:induction false} ShotPngName()
    ensures KindOfName("shot.png") == Screenshot
  {
    assert EndsWith("shot.png", ".png");
  }

  /** An upper-case image extension is recognised: `SHOT.PNG` is a screenshot. */
  lemma {:induction false} UpperCaseImageRecognised(dir: Path)
    ensures Classify(Join(dir, "SHOT.PNG")) == Screenshot
  {
    UpperCaseNamesLowered();
    ShotPngName();
    ClassifyInDirectory(dir, "SHOT.PNG", "shot.png");
  }

  /** A log name in mixed case is recognised: `Maestro.LOG` is the log. */
  lemma {:induction false} UpperCaseLogRecognised(dir: Path)
    ensures Classify(Join(dir, "Maestro.LOG")) == Log
  {
    UpperCaseNamesLowered();
    ClassifyInDirectory(dir, "Maestro.LOG", LogFileName);
  }

  /** Neither an image nor a command trace nor the log. */
  predicate Unmatched(name: string)
  {
    && !StartsWith(name, CommandsPrefix)
    && name != LogFileName
    && forall ext :: ext in ImageExtensions ==> !EndsWith(name, ext)
  }

  /** `notes.txt` and `maestro.log.1` match no rule. */
  lemma {:induction false} UnmatchedNames()
    ensures ToLower("notes.txt") == "notes.txt" && Unmatched("notes.txt")
    ensures ToLower("maestro.log.1") == "maestro.log.1" && Unmatched("maestro.log.1")
  {
    assert "notes.txt"[0] != CommandsPrefix[0];
    assert "maestro.log.1"[0] != CommandsPrefix[0];
    forall ext | ext in ImageExtensions
      ensures !EndsWith("notes.txt", ext) && !EndsWith("maestro.log.1", ext)
    {
      assert ext[|ext| - 1] != 't' && ext[|ext| - 1] != '1';
    }
  }

  /** A name is ignored exactly when it matches no rule. */
  lemma {:induction false} UnmatchedIsIgnored(name: string)
    ensures KindOfName(name) == Ignored <==> Unmatched(name)
  {
  }

  /** A directory called `commands` does not make its files command traces. */
  lemma {:induction false} CommandsDirectoryNotMatched(dir: Path)
    ensures Classify(Join(Join(dir, "commands"), "maestro.log")) == Log
  {
    ClassifyInDirectory(Join(dir, "commands"), LogFileName, LogFileName);
  }

  /** A directory whose name ends in `.png` does not make its files screenshots. */
  lemma {:induction false} ImageDirectoryNotMatched(dir: Path)
    ensures Classify(Join(Join(dir, "screens.png"), "notes.txt")) == Ignored
  {
    UnmatchedNames();
    UnmatchedIsIgnored("notes.txt");
    ClassifyInDirectory(Join(dir, "screens.png"), "notes.txt", "notes.txt");
  }

  /** Names that merely begin with the log's name are ignored. */
  lemma {:induction false} NearLogNamesIgnored(dir: Path)
    ensures Classify(Join(dir, "maestro.log.1")) == Ignored
  {
    UnmatchedNames();
    UnmatchedIsIgnored("maestro.log.1");
    ClassifyInDirectory(dir, "maestro.log.1", "maestro.log.1");
  }

  /** The test "this file has kind `k`". */
  function IsOfKind(k: Kind): (p: Artifact -> bool)
    ensures forall f :: p(f) <==> Classify(f.path) == k
  {
    (f: Artifact) => Classify(f.path) == k
  }

  /** The files of kind `k`, collected in input order as the `forEach` loop adds them. */
  function OfKind(files: seq<Artifact>, k: Kind): seq<Artifact>
  {
    Filter(files, IsOfKind(k))
  }

  /** The list of kind `k` keeps the files of that kind in input order and nothing else. */
  lemma {:induction false} OfKindIsSelection(files: seq<Artifact>, k: Kind)
    ensures OfKind(files, k) == Select(files, Flags(files, IsOfKind(k)))
    ensures forall i :: 0 <= i < |files| ==> Flags(files, IsOfKind(k))[i] == (Classify(files[i].path) == k)
  {
    FilterIsSelection(files, IsOfKind(k));
  }

  /** A file is on the list of kind `k` exactly when it is an input file of that kind. */
  lemma {:induction false} OfKindMembers(files: seq<Artifact>, k: Kind, f: Artifact)
    ensures f in OfKind(files, k) <==> f in files && Classify(f.path) == k
  {
    FilterMembers(files, IsOfKind(k), f);
  }

  /** Adding one file to the input adds it to the list of its own kind only. */
  lemma {:induction false} OfKindSnoc(files: seq<Artifact>, f: Artifact, k: Kind)
    ensures OfKind(files + [f], k) == OfKind(files, k) + (if Classify(f.path) == k then [f] else [])
  {
    assert (files + [f])[..|files|] == files;
  }

  /** Every file lands on exactly one of the four lists. */
  lemma {:induction false} OfKindPartition(files: seq<Artifact>)
    ensures |OfKind(files, Screenshot)| + |OfKind(files, Command)| + |OfKind(files, Log)|
            + |OfKind(files, Ignored)| == |files|
    decreases |files|
  {
    if |files| > 0 {
      var n := |files| - 1;
      OfKindPartition(files[..n]);
      PrefixAndLast(files);
      var f := files[n];
      OfKindSnoc(files[..n], f, Screenshot);
      OfKindSnoc(files[..n], f, Command);
      OfKindSnoc(files[..n], f, Log);
      OfKindSnoc(files[..n], f, Ignored);
    }
  }
}
