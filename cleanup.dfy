/**
 * Removal of the loader's artifacts (Cleanup.cpp): the injected header block
 * in c0000.hks, the generated _module_loader directory and the flag files.
 */
module Cleanup {
  import opened Wrappers
  import opened Text
  import opened Environment
  import opened Config
  import opened HksInjector
  import FlagFile

  /** Line `i` opens an injection block: a banner line followed by a loader tag line. */
  predicate IsStart(lines: seq<string>, i: nat)
    requires i < |lines|
  {
    Contains(lines[i], Banner) && i + 1 < |lines| && Contains(lines[i + 1], LoaderTag)
  }

  /** A line that closes an injection block: the dofile call of the setup script. */
  predicate IsEnd(line: string) {
    Contains(line, "dofile(") && Contains(line, "module_loader_setup.lua")
  }

  /** The first line at or after `j` that is not blank, or the end of the lines. */
  function SkipBlanks(lines: seq<string>, j: nat): (r: nat)
    requires j <= |lines|
    ensures j <= r <= |lines|
    ensures forall k :: j <= k < r ==> IsBlank(lines[k])
    ensures r < |lines| ==> !IsBlank(lines[r])
    decreases |lines| - j
  {
    if j < |lines| && IsBlank(lines[j]) then SkipBlanks(lines, j + 1) else j
  }

  /**
   * What the scan keeps of the lines, whether it saw an injection start,
   * and whether a block was still open at the end.
   */
  datatype Scan = Scan(kept: seq<string>, found: bool, open: bool)

  /**
   * The scan of cleanupHksInjection from line `i` on, `inside` telling
   * whether an injection block is open. A start line is dropped and opens a
   * block; every line of an open block is dropped; the end line closes it
   * and the blank lines right after it are dropped too; other lines are kept.
   */
  function Run(lines: seq<string>, i: nat, inside: bool): Scan
    requires i <= |lines|
    decreases |lines| - i
  {
    if i == |lines| then Scan([], false, inside)
    else if !inside && IsStart(lines, i) then
      var rest := Run(lines, i + 1, true);
      Scan(rest.kept, true, rest.open)
    else if inside then
      if IsEnd(lines[i]) then Run(lines, SkipBlanks(lines, i + 1), false)
      else Run(lines, i + 1, true)
    else
      var rest := Run(lines, i + 1, false);
      Scan([lines[i]] + rest.kept, rest.found, rest.open)
  }

  /** The loop of cleanupHksInjection, proved to compute Run from the first line. */
  method CleanHksLines(lines: seq<string>) returns (cleaned: seq<string>, found: bool, inside: bool)
    ensures Scan(cleaned, found, inside) == Run(lines, 0, false)
  {
    cleaned, found, inside := [], false, false;
    var i := 0;
    while i < |lines|
      invariant 0 <= i <= |lines|
      invariant cleaned + Run(lines, i, inside).kept == Run(lines, 0, false).kept
      invariant (found || Run(lines, i, inside).found) == Run(lines, 0, false).found
      invariant Run(lines, i, inside).open == Run(lines, 0, false).open
      decreases |lines| - i
    {
      var line := lines[i];
      if !inside && Contains(line, Banner) && i + 1 < |lines| && Contains(lines[i + 1], LoaderTag) {
        inside, found := true, true;
        i := i + 1;
      } else if inside {
        if Contains(line, "dofile(") && Contains(line, "module_loader_setup.lua") {
          inside := false;
          var skip := i + 1;
          while skip < |lines| && AllIn(lines[skip], BlankChars)
            invariant i + 1 <= skip <= |lines|
            invariant SkipBlanks(lines, skip) == SkipBlanks(lines, i + 1)
            decreases |lines| - skip
          {
            skip := skip + 1;
          }
          // The source sets i to skip - 1 and lets the loop increment it.
          i := skip;
        } else {
          i := i + 1;
        }
      } else {
        assert Run(lines, i, inside).kept == [line] + Run(lines, i + 1, false).kept;
        cleaned := cleaned + [line];
        i := i + 1;
      }
    }
    assert Run(lines, i, inside) == Scan([], false, inside);
  }

  // ---- Properties of the scan ----

  /** `a` is obtained from `b` by dropping some lines. */
  predicate SubsequenceOf(a: seq<string>, b: seq<string>)
    decreases |b|
  {
    if a == [] then true
    else if b == [] then false
    else (a[0] == b[0] && SubsequenceOf(a[1..], b[1..])) || SubsequenceOf(a, b[1..])
  }

  lemma {:induction false} SubsequenceOfDrop(a: seq<string>, b: seq<string>, k: nat)
    requires k <= |b| && SubsequenceOf(a, b[k..])
    ensures SubsequenceOf(a, b)
    decreases k
  {
    if k > 0 {
      assert b[1..][k - 1..] == b[k..];
      SubsequenceOfDrop(a, b[1..], k - 1);
      if a != [] {
        assert SubsequenceOf(a, b[1..]);
      }
    }
  }

  /** Cleaning only ever drops lines: what is kept appears in the input, in order. */
  lemma {:induction false} KeptIsSubsequence(lines: seq<string>, i: nat, inside: bool)
    requires i <= |lines|
    ensures SubsequenceOf(Run(lines, i, inside).kept, lines[i..])
    decreases |lines| - i
  {
    if i < |lines| {
      var rest := lines[i + 1..];
      assert lines[i..][1..] == rest;
      if !inside && IsStart(lines, i) {
        KeptIsSubsequence(lines, i + 1, true);
        SubsequenceOfDrop(Run(lines, i + 1, true).kept, lines[i..], 1);
      } else if inside {
        var next := if IsEnd(lines[i]) then SkipBlanks(lines, i + 1) else i + 1;
        KeptIsSubsequence(lines, next, false || !IsEnd(lines[i]));
        assert lines[i..][next - i..] == lines[next..];
        SubsequenceOfDrop(Run(lines, next, !IsEnd(lines[i])).kept, lines[i..], next - i);
      } else {
        KeptIsSubsequence(lines, i + 1, false);
        var kept := Run(lines, i + 1, false).kept;
        assert ([lines[i]] + kept)[1..] == kept;
      }
    }
  }

  /** Outside a block, the scan reports a start iff some later line opens a block. */
  lemma {:induction false} FoundIffStart(lines: seq<string>, i: nat)
    requires i <= |lines|
    ensures Run(lines, i, false).found <==> exists j :: i <= j < |lines| && IsStart(lines, j)
    decreases |lines| - i
  {
    if i < |lines| && !IsStart(lines, i) {
      FoundIffStart(lines, i + 1);
      assert forall j :: i <= j < |lines| && IsStart(lines, j) ==> i + 1 <= j;
    }
  }

  /** Without a start line the scan keeps every line. */
  lemma {:induction false} NoStartKeepsAll(lines: seq<string>, i: nat)
    requires i <= |lines|
    requires forall j :: i <= j < |lines| ==> !IsStart(lines, j)
    ensures Run(lines, i, false) == Scan(lines[i..], false, false)
    decreases |lines| - i
  {
    if i < |lines| {
      NoStartKeepsAll(lines, i + 1);
      assert lines[i..] == [lines[i]] + lines[i + 1..];
    }
  }

  /** A block that is never closed swallows everything to the end of the file. */
  lemma {:induction false} UnclosedBlockDropsRest(lines: seq<string>, i: nat)
    requires i <= |lines|
    requires forall j :: i <= j < |lines| ==> !IsEnd(lines[j])
    ensures Run(lines, i, true) == Scan([], false, true)
    decreases |lines| - i
  {
    if i < |lines| {
      UnclosedBlockDropsRest(lines, i + 1);
    }
  }

  /** Inside a block, every line up to the first end line is dropped, and the scan resumes after the blank lines that follow it. */
  lemma {:induction false} InsideUntilEnd(lines: seq<string>, k: nat, j: nat)
    requires k <= j < |lines| && IsEnd(lines[j])
    requires forall m :: k <= m < j ==> !IsEnd(lines[m])
    ensures Run(lines, k, true) == Run(lines, SkipBlanks(lines, j + 1), false)
    decreases j - k
  {
    if k < j {
      InsideUntilEnd(lines, k + 1, j);
    }
  }

  /**
   * A closed block is removed: the start line, every line up to and
   * including the first end line, and the blank lines after it are dropped;
   * the scan then goes on outside a block at the first non-blank line, which
   * is kept unless it opens another block.
   */
  lemma {:induction false} ClosedBlockRemoved(lines: seq<string>, i: nat, j: nat)
    requires i < |lines| && IsStart(lines, i)
    requires i + 1 <= j < |lines| && IsEnd(lines[j])
    requires forall m :: i + 1 <= m < j ==> !IsEnd(lines[m])
    ensures var rest := Run(lines, SkipBlanks(lines, j + 1), false);
      Run(lines, i, false) == Scan(rest.kept, true, rest.open)
    ensures var next := SkipBlanks(lines, j + 1);
      next < |lines| && !IsStart(lines, next) ==>
        var kept := Run(lines, i, false).kept;
        |kept| > 0 && kept[0] == lines[next]
  {
    InsideUntilEnd(lines, i + 1, j);
  }

  /** The outcome of cleaning a script's text. */
  datatype CleanResult =
    | EmptyScript          // no line could be read: the cleanup reports failure
    | NoInjection          // no block start: the file is left alone
    | Cleaned(content: string)

  /** cleanupHksInjection on the text of the script: read lines, scan, write the kept lines. */
  function CleanScript(content: string): (r: CleanResult)
    ensures r == EmptyScript <==> content == ""
  {
    var lines := Lines(content);
    if lines == [] then EmptyScript
    else
      var scan := Run(lines, 0, false);
      if !scan.found then NoInjection else Cleaned(Unlines(scan.kept))
  }

  /** Text without a block start is never rewritten. */
  lemma NoStartNoRewrite(content: string)
    requires forall j :: 0 <= j < |Lines(content)| ==> !IsStart(Lines(content), j)
    ensures !CleanScript(content).Cleaned?
  {
    FoundIffStart(Lines(content), 0);
  }

  // ---- Cleanup undoes injection ----

  lemma NoNewlineInHeader(configFileName: string, moduleRelativePath: string, line: string)
    requires '\n' !in configFileName && '\n' !in moduleRelativePath && '\n' !in line
    ensures var ls := HeaderLines(configFileName, moduleRelativePath) + [line, ""];
      forall k :: 0 <= k < |ls| ==> '\n' !in ls[k]
  {
    var ls := HeaderLines(configFileName, moduleRelativePath) + [line, ""];
    assert '\n' !in Banner && '\n' !in VersionLine;
    forall k | 0 <= k < |ls| ensures '\n' !in ls[k] {
      if k == 4 {
        assert ls[k] == "-- Config: " + configFileName;
      } else if k == 5 {
        assert ls[k] == "-- Module Path: " + moduleRelativePath;
      }
    }
  }

  /** The injected text, read back as lines: the header, the bootstrap line, a blank line, then the original's lines. */
  lemma {:induction false} LinesOfNewContent(configFileName: string, moduleRelativePath: string, line: string, original: string)
    requires '\n' !in configFileName && '\n' !in moduleRelativePath && '\n' !in line
    ensures Lines(NewContent(configFileName, moduleRelativePath, line, original)) ==
      HeaderLines(configFileName, moduleRelativePath) + [line, ""] + Lines(original)
  {
    var h := HeaderLines(configFileName, moduleRelativePath);
    assert Unlines([line, ""]) == line + "\n\n" by {
      UnlinesCons(line, [""]);
      UnlinesCons("", []);
      assert [line] + [""] == [line, ""];
      assert [""] + [] == [""];
    }
    UnlinesAppend(h, [line, ""]);
    assert NewContent(configFileName, moduleRelativePath, line, original) == Unlines(h + [line, ""]) + original;
    NoNewlineInHeader(configFileName, moduleRelativePath, line);
    LinesOfUnlines(h + [line, ""], original);
  }

  lemma HeaderOpensBlock()
    ensures Contains(Banner, Banner)
    ensures Contains(VersionLine, LoaderTag)
  {
    ContainsPrefix(Banner, "");
    assert Banner + "" == Banner;
    ContainsPrefix(LoaderTag, " v11.3 - Enhanced" + " Path Resolution");
    SeqAssoc(LoaderTag, " v11.3 - Enhanced", " Path Resolution");
  }

  /** None of the fixed header lines holds a '(' and so none of them closes a block. */
  lemma FixedHeaderLinesDoNotClose()
    ensures !IsEnd(VersionLine) && !IsEnd("-- by Malice") && !IsEnd(Banner) && !IsEnd("")
  {
    assert '(' in "dofile(";
    assert '(' !in VersionLine;
    NotContainsByChar(VersionLine, "dofile(", '(');
    NotContainsByChar("-- by Malice", "dofile(", '(');
    assert '(' !in Banner;
    NotContainsByChar(Banner, "dofile(", '(');
    NotContainsByChar("", "dofile(", '(');
  }

  /** The scan inside the header block, from its tag line to its bootstrap line. */
  lemma {:induction false} ScanThroughHeader(xs: seq<string>, configFileName: string, moduleRelativePath: string, line: string)
    requires |xs| >= 10
    requires xs[..8] == HeaderLines(configFileName, moduleRelativePath) && xs[8] == line && xs[9] == ""
    requires IsEnd(line)
    requires !IsEnd("-- Config: " + configFileName) && !IsEnd("-- Module Path: " + moduleRelativePath)
    ensures Run(xs, 0, false) == Scan(Run(xs, SkipBlanks(xs, 9), false).kept, true, Run(xs, SkipBlanks(xs, 9), false).open)
  {
    var h := HeaderLines(configFileName, moduleRelativePath);
    assert forall k :: 0 <= k < 8 ==> xs[k] == h[k];
    HeaderOpensBlock();
    FixedHeaderLinesDoNotClose();
    assert IsStart(xs, 0);
    assert Run(xs, 7, true) == Run(xs, 8, true);
    assert Run(xs, 6, true) == Run(xs, 7, true);
    assert Run(xs, 5, true) == Run(xs, 6, true);
    assert Run(xs, 4, true) == Run(xs, 5, true);
    assert Run(xs, 3, true) == Run(xs, 4, true);
    assert Run(xs, 2, true) == Run(xs, 3, true);
    assert Run(xs, 1, true) == Run(xs, 2, true);
  }

  /**
   * Cleanup removes exactly what injection added: the header block, the
   * bootstrap line and the blank line after it. This holds when the module
   * path and names are single lines, the two configurable header lines do
   * not look like a bootstrap line, the original opens no block of its own
   * and does not begin with a blank line (those would be dropped too).
   */
  lemma {:induction false} CleanupUndoesInjectionLines(configFileName: string, moduleRelativePath: string, moduleAbsolutePath: Path, original: string)
    requires '\n' !in configFileName && '\n' !in moduleRelativePath && '\n' !in moduleAbsolutePath
    requires !IsEnd("-- Config: " + configFileName) && !IsEnd("-- Module Path: " + moduleRelativePath)
    requires forall j :: 0 <= j < |Lines(original)| ==> !IsStart(Lines(original), j)
    requires Lines(original) == [] || !IsBlank(Lines(original)[0])
    ensures var line := InjectionLine(moduleAbsolutePath);
      Run(Lines(NewContent(configFileName, moduleRelativePath, line, original)), 0, false) ==
        Scan(Lines(original), true, false)
  {
    var line := InjectionLine(moduleAbsolutePath);
    var h := HeaderLines(configFileName, moduleRelativePath);
    var orig := Lines(original);
    var xs := h + [line, ""] + orig;
    LinesOfNewContent(configFileName, moduleRelativePath, line, original);
    InjectionLineMarkers(moduleAbsolutePath);
    assert xs[..8] == h && xs[8] == line && xs[9] == "";
    ScanThroughHeader(xs, configFileName, moduleRelativePath, line);
    assert IsBlank(xs[9]);
    assert SkipBlanks(xs, 9) == 10 by {
      assert |xs| == 10 || xs[10] == orig[0];
    }
    assert xs[10..] == orig;
    assert forall j :: 10 <= j < |xs| ==> !IsStart(xs, j) by {
      forall j | 10 <= j < |xs| ensures !IsStart(xs, j) {
        assert xs[j] == orig[j - 10];
        if j + 1 < |xs| {
          assert xs[j + 1] == orig[j - 9];
        }
        assert !IsStart(orig, j - 10);
      }
    }
    NoStartKeepsAll(xs, 10);
  }

  /**
   * The byte-level round trip: cleaning an injected script gives back the
   * original text when it ends with a line break (the cleaner writes every
   * line followed by "\n").
   */
  lemma {:induction false} CleanupUndoesInjection(configFileName: string, moduleRelativePath: string, moduleAbsolutePath: Path, original: string)
    requires '\n' !in configFileName && '\n' !in moduleRelativePath && '\n' !in moduleAbsolutePath
    requires !IsEnd("-- Config: " + configFileName) && !IsEnd("-- Module Path: " + moduleRelativePath)
    requires forall j :: 0 <= j < |Lines(original)| ==> !IsStart(Lines(original), j)
    requires Lines(original) == [] || !IsBlank(Lines(original)[0])
    requires original == "" || original[|original| - 1] == '\n'
    ensures CleanScript(NewContent(configFileName, moduleRelativePath, InjectionLine(moduleAbsolutePath), original)) ==
      Cleaned(original)
  {
    var content := NewContent(configFileName, moduleRelativePath, InjectionLine(moduleAbsolutePath), original);
    CleanupUndoesInjectionLines(configFileName, moduleRelativePath, moduleAbsolutePath, original);
    LinesOfNewContent(configFileName, moduleRelativePath, InjectionLine(moduleAbsolutePath), original);
    assert Lines(content) != [];
    UnlinesOfLines(original);
  }

  /** What cleaning writes has no block start left in it when the original had none: a second run changes nothing. */
  lemma {:induction false} CleanedScriptIsStable(configFileName: string, moduleRelativePath: string, moduleAbsolutePath: Path, original: string)
    requires '\n' !in configFileName && '\n' !in moduleRelativePath && '\n' !in moduleAbsolutePath
    requires !IsEnd("-- Config: " + configFileName) && !IsEnd("-- Module Path: " + moduleRelativePath)
    requires forall j :: 0 <= j < |Lines(original)| ==> !IsStart(Lines(original), j)
    requires Lines(original) == [] || !IsBlank(Lines(original)[0])
    ensures var first := CleanScript(NewContent(configFileName, moduleRelativePath, InjectionLine(moduleAbsolutePath), original));
      first.Cleaned? && !CleanScript(first.content).Cleaned?
  {
    var content := NewContent(configFileName, moduleRelativePath, InjectionLine(moduleAbsolutePath), original);
    CleanupUndoesInjectionLines(configFileName, moduleRelativePath, moduleAbsolutePath, original);
    LinesOfNewContent(configFileName, moduleRelativePath, InjectionLine(moduleAbsolutePath), original);
    assert Lines(content) != [];
    var written := Unlines(Lines(original));
    LinesNoNewline(original);
    LinesOfUnlines(Lines(original), "");
    assert Lines(original) + Lines("") == Lines(original);
    assert written + "" == written;
    NoStartNoRewrite(written);
  }

  /** The bootstrap line of the example, in its shortest form. */
  const ExampleEnd := "dofile('" + SetupScriptName + "')"

  /** A kept line that starts with the loader tag. */
  const ExampleTagged := LoaderTag + " x"

  lemma ExampleEndCloses()
    ensures IsEnd(ExampleEnd)
  {
    ContainsPrefix("dofile(", "'" + SetupScriptName + "')");
    assert "dofile(" + ("'" + SetupScriptName + "')") == ExampleEnd;
    ContainsInfix("dofile('", SetupScriptName, "')");
  }

  lemma ExampleTagLinesDoNotClose()
    ensures !IsEnd(LoaderTag) && !IsEnd(ExampleTagged)
  {
    assert '(' in "dofile(" && '(' !in LoaderTag && '(' !in ExampleTagged;
    NotContainsByChar(LoaderTag, "dofile(", '(');
    NotContainsByChar(ExampleTagged, "dofile(", '(');
  }

  lemma ExampleTaggedOpens()
    ensures !IsBlank(ExampleTagged) && Contains(LoaderTag, LoaderTag) && Contains(ExampleTagged, LoaderTag)
  {
    assert ExampleTagged[0] == '-' && '-' !in BlankChars;
    ContainsPrefix(LoaderTag, "");
    assert LoaderTag + "" == LoaderTag;
    ContainsPrefix(LoaderTag, " x");
  }

  lemma BannerIsNotTagged()
    ensures !Contains(Banner, LoaderTag)
  {
    assert 'L' in LoaderTag && 'L' !in Banner;
    NotContainsByChar(Banner, LoaderTag, 'L');
  }

  /**
   * Cleaning is not idempotent in general: a banner line kept by the first
   * pass can meet a later "-- Lua Loader" line, and the second pass then
   * removes them too.
   */
  lemma CleanupNotIdempotent()
    ensures var lines := [Banner, Banner, LoaderTag, ExampleEnd, ExampleTagged];
      && Run(lines, 0, false) == Scan([Banner, ExampleTagged], true, false)
      && Run([Banner, ExampleTagged], 0, false) == Scan([], true, true)
  {
    var lines := [Banner, Banner, LoaderTag, ExampleEnd, ExampleTagged];
    ExampleEndCloses();
    ExampleTagLinesDoNotClose();
    ExampleTaggedOpens();
    BannerIsNotTagged();
    HeaderOpensBlock();
    assert Run(lines, 4, false) == Scan([ExampleTagged], false, false) by {
      assert !IsStart(lines, 4);
      assert Run(lines, 5, false) == Scan([], false, false);
    }
    assert SkipBlanks(lines, 4) == 4;
    assert Run(lines, 3, true) == Run(lines, 4, false);
    assert Run(lines, 2, true) == Run(lines, 3, true);
    assert IsStart(lines, 1);
    assert Run(lines, 1, false) == Scan([ExampleTagged], true, false);
    assert !IsStart(lines, 0);
    var once := [Banner, ExampleTagged];
    assert IsStart(once, 0);
    assert Run(once, 1, true) == Scan([], false, true) by {
      assert Run(once, 2, true) == Scan([], false, true);
    }
  }

  // ---- The file operations ----

  /** The effect of a cleanup step: its success flag and the contents it leaves. */
  datatype StepEffect = StepEffect(ok: bool, disk: Disk)

  /**
   * cleanupHksInjection on contents `d`: a missing script counts as clean; a
   * script that cannot be read or has no lines is a failure; a script
   * without an injection is left alone; otherwise the kept lines are written
   * back.
   */
  ghost function HksCleanupEffect(fsys: FileSystem, d: Disk, hksPath: Path): StepEffect {
    if !ExistsOn(d, hksPath) then StepEffect(true, d)
    else if !fsys.ReadableOn(d, hksPath) then StepEffect(false, d)
    else match CleanScript(d.files[hksPath])
      case EmptyScript => StepEffect(false, d)
      case NoInjection => StepEffect(true, d)
      case Cleaned(content) =>
        if fsys.WritableOn(d, hksPath) then StepEffect(true, d.(files := d.files[hksPath := content]))
        else StepEffect(false, d)
  }

  method CleanupHksInjection(fsys: FileSystem, hksPath: Path) returns (ok: bool)
    requires fsys.Valid()
    modifies fsys
    ensures fsys.Valid()
    ensures StepEffect(ok, fsys.Contents()) == HksCleanupEffect(fsys, old(fsys.Contents()), hksPath)
    ensures fsys.dirs == old(fsys.dirs)
    ensures forall p :: p != hksPath ==> SameAt(old(fsys.files), fsys.files, p)
  {
    if !fsys.Exists(hksPath) {
      return true;
    }
    var read := fsys.ReadFile(hksPath);
    var lines := if read.None? then [] else Lines(read.value);
    if lines == [] {
      return false;
    }
    var cleaned, found, inside := CleanHksLines(lines);
    if !found {
      return true;
    }
    ok := fsys.WriteFile(hksPath, Unlines(cleaned));
  }

  /** The flag getFlagFilePath names lies inside the generated directory, so removing that directory removes it. */
  lemma FlagIsInsideLoaderDirectory(modulePath: Path)
    requires modulePath != ""
    ensures Under(FlagFile.FlagFilePath(modulePath), LoaderDirectory(modulePath))
  {
    var flag := FlagFile.FlagFilePath(modulePath);
    var dir := LoaderDirectory(modulePath);
    assert flag == dir + "/" + ".modules_loaded";
    assert flag[..|dir + "/"|] == dir + "/";
  }

  /**
   * cleanupModuleLoaderDirectory on contents `d`: a missing directory counts
   * as clean; otherwise it is removed with everything below it, and the
   * step fails when the removal throws on a read-only path at or below it.
   */
  ghost function DirectoryCleanupEffect(fsys: FileSystem, d: Disk, modulePath: Path): StepEffect {
    var dir := LoaderDirectory(modulePath);
    if !ExistsOn(d, dir) then StepEffect(true, d)
    else if fsys.RemoveAllFailsOn(d, dir) then StepEffect(false, d)
    else StepEffect(true, Disk(FilesOutside(d.files, dir), DirsOutside(d.dirs, dir)))
  }

  /**
   * The directory step succeeds iff the directory is missing or nothing at or
   * below it is read-only; success leaves nothing at or below it, and failure
   * changes nothing.
   */
  lemma DirectoryCleanupOutcome(fsys: FileSystem, d: Disk, modulePath: Path)
    ensures var dir := LoaderDirectory(modulePath);
      var r := DirectoryCleanupEffect(fsys, d, modulePath);
      && (r.ok <==> !ExistsOn(d, dir) || forall p :: p in fsys.readOnly && Under(p, dir) ==> !ExistsOn(d, p))
      && (r.ok && ExistsOn(d, dir) ==> forall p :: Under(p, dir) ==> !ExistsOn(r.disk, p))
      && (!r.ok ==> r.disk == d)
  {
  }

  method CleanupModuleLoaderDirectory(fsys: FileSystem, modulePath: Path) returns (ok: bool)
    requires fsys.Valid()
    modifies fsys
    ensures fsys.Valid()
    ensures StepEffect(ok, fsys.Contents()) == DirectoryCleanupEffect(fsys, old(fsys.Contents()), modulePath)
    ensures forall p :: !Under(p, LoaderDirectory(modulePath)) ==> SameAt(old(fsys.files), fsys.files, p)
  {
    var loaderDirectory := LoaderDirectory(modulePath);
    if !fsys.Exists(loaderDirectory) {
      return true;
    }
    ok := fsys.RemoveAll(loaderDirectory);
  }

  /** The two flag locations cleanupFlagFiles tries, the current one and the legacy one. */
  function FlagFilePaths(modulePath: Path): (r: seq<Path>)
    ensures |r| == 2 && r[0] != r[1]
    ensures modulePath != "" ==> r[0] == FlagFile.FlagFilePath(modulePath)
  {
    [modulePath + "/_module_loader/.modules_loaded", modulePath + "/.modules_loaded"]
  }

  /** The flags among `paths` that exist and can be removed, on contents `d`. */
  ghost function RemovableFlags(fsys: FileSystem, d: Disk, paths: seq<Path>): set<Path> {
    set p | p in paths && ExistsOn(d, p) && fsys.RemovableOn(d, p)
  }

  /**
   * cleanupFlagFiles on contents `d`: every existing flag that can be removed
   * is; the step fails iff some existing flag could not be.
   */
  ghost function FlagCleanupEffect(fsys: FileSystem, d: Disk, modulePath: Path): StepEffect {
    var paths := FlagFilePaths(modulePath);
    StepEffect(forall k :: 0 <= k < 2 ==> !ExistsOn(d, paths[k]) || fsys.RemovableOn(d, paths[k]),
      Disk(d.files - RemovableFlags(fsys, d, paths), d.dirs))
  }

  method CleanupFlagFiles(fsys: FileSystem, modulePath: Path) returns (ok: bool)
    requires fsys.Valid()
    modifies fsys
    ensures fsys.Valid()
    ensures StepEffect(ok, fsys.Contents()) == FlagCleanupEffect(fsys, old(fsys.Contents()), modulePath)
    ensures forall p :: p !in FlagFilePaths(modulePath) ==> SameAt(old(fsys.files), fsys.files, p)
  {
    var flagFilePaths := FlagFilePaths(modulePath);
    ghost var d0 := fsys.Contents();
    ok := true;
    var i := 0;
    while i < |flagFilePaths|
      invariant 0 <= i <= 2
      invariant fsys.Valid()
      invariant fsys.dirs == d0.dirs
      invariant fsys.files == d0.files - RemovableFlags(fsys, d0, flagFilePaths[..i])
      invariant ok == forall k :: 0 <= k < i ==> !ExistsOn(d0, flagFilePaths[k]) || fsys.RemovableOn(d0, flagFilePaths[k])
      invariant forall k :: i <= k < 2 ==>
        (fsys.Exists(flagFilePaths[k]) == ExistsOn(d0, flagFilePaths[k])) &&
        (fsys.Removable(flagFilePaths[k]) == fsys.RemovableOn(d0, flagFilePaths[k]))
    {
      var flagPath := flagFilePaths[i];
      if fsys.Exists(flagPath) {
        var removed := fsys.Remove(flagPath);
        if !removed {
          ok := false;
        }
      }
      assert flagFilePaths[..i + 1] == flagFilePaths[..i] + [flagPath];
      i := i + 1;
    }
    assert flagFilePaths[..2] == flagFilePaths;
  }

  /**
   * The files performFullCleanup may change: those below the generated
   * directory, the two flags, the game script and its "cleanup" backup.
   */
  predicate CleanupTargets(config: LoaderConfig, host: Host, now: DateTime, p: Path)
    requires now.Valid()
  {
    var modulePath := config.modulePath.absolutePath;
    || Under(p, LoaderDirectory(modulePath))
    || p in FlagFilePaths(modulePath)
    || p == HksPath(config)
    || p == BackupPath(config, HksPath(config), "cleanup", host, now)
  }

  /** What performFullCleanup reports and leaves behind. */
  datatype FullCleanup = FullCleanup(ok: bool, completed: nat, disk: Disk)

  /** 1 for a completed operation, 0 for a failed one. */
  function Tally(done: bool): nat {
    if done then 1 else 0
  }

  /** The directory step of performFullCleanup: skipped, and counted as done, when the module path is empty. */
  ghost function DirectoryStep(fsys: FileSystem, d: Disk, modulePath: Path): StepEffect {
    if modulePath != "" then DirectoryCleanupEffect(fsys, d, modulePath) else StepEffect(true, d)
  }

  /** The flag step of performFullCleanup: skipped, and counted as done, when the module path is empty. */
  ghost function FlagStep(fsys: FileSystem, d: Disk, modulePath: Path): StepEffect {
    if modulePath != "" then FlagCleanupEffect(fsys, d, modulePath) else StepEffect(true, d)
  }

  /**
   * The script step of performFullCleanup: skipped, and counted as done,
   * when the game script path is empty or the script does not exist;
   * otherwise the script is backed up with context "cleanup" and then
   * cleaned, whether or not the backup was made.
   */
  ghost function ScriptStep(fsys: FileSystem, d: Disk, config: LoaderConfig, host: Host, now: DateTime): StepEffect
    requires now.Valid()
  {
    var hks := HksPath(config);
    if config.gameScriptPath.absolutePath != "" && ExistsOn(d, hks)
    then HksCleanupEffect(fsys, DiskAfterBackup(fsys, d, hks, config, "cleanup", host, now), hks)
    else StepEffect(true, d)
  }

  /** performFullCleanup on contents `d`: the three steps in order, each on what the one before left. */
  ghost function FullCleanupEffect(fsys: FileSystem, d: Disk, config: LoaderConfig, host: Host, now: DateTime): FullCleanup
    requires now.Valid()
  {
    var modulePath := config.modulePath.absolutePath;
    var s1 := DirectoryStep(fsys, d, modulePath);
    var s2 := FlagStep(fsys, s1.disk, modulePath);
    var s3 := ScriptStep(fsys, s2.disk, config, host, now);
    FullCleanup(s1.ok && s2.ok && s3.ok, Tally(s1.ok) + Tally(s2.ok) + Tally(s3.ok), s3.disk)
  }

  /** Each step changes only the files it targets. */
  lemma StepFrames(fsys: FileSystem, d: Disk, modulePath: Path, hks: Path, p: Path)
    ensures !Under(p, LoaderDirectory(modulePath)) ==> SameAt(d.files, DirectoryCleanupEffect(fsys, d, modulePath).disk.files, p)
    ensures p !in FlagFilePaths(modulePath) ==> SameAt(d.files, FlagCleanupEffect(fsys, d, modulePath).disk.files, p)
    ensures p != hks ==> SameAt(d.files, HksCleanupEffect(fsys, d, hks).disk.files, p)
  {
  }

  /**
   * No file outside CleanupTargets gains, loses or changes content in a full
   * cleanup.
   */
  lemma FullCleanupFrame(fsys: FileSystem, d: Disk, config: LoaderConfig, host: Host, now: DateTime, p: Path)
    requires now.Valid()
    requires !CleanupTargets(config, host, now, p)
    ensures SameAt(d.files, FullCleanupEffect(fsys, d, config, host, now).disk.files, p)
  {
    var modulePath := config.modulePath.absolutePath;
    var hks := HksPath(config);
    var s1 := DirectoryStep(fsys, d, modulePath);
    var s2 := FlagStep(fsys, s1.disk, modulePath);
    var backedUp := DiskAfterBackup(fsys, s2.disk, hks, config, "cleanup", host, now);
    StepFrames(fsys, d, modulePath, hks, p);
    StepFrames(fsys, s1.disk, modulePath, hks, p);
    StepFrames(fsys, backedUp, modulePath, hks, p);
    BackupFrame(fsys, s2.disk, hks, config, "cleanup", host, now, p);
  }

  /** The accounting of a full cleanup: at most three steps complete, and success means all three did. */
  lemma FullCleanupCounts(fsys: FileSystem, d: Disk, config: LoaderConfig, host: Host, now: DateTime)
    requires now.Valid()
    ensures var r := FullCleanupEffect(fsys, d, config, host, now);
      r.completed <= 3 && (r.ok <==> r.completed == 3)
    ensures config.modulePath.absolutePath == "" && config.gameScriptPath.absolutePath == "" ==>
      FullCleanupEffect(fsys, d, config, host, now) == FullCleanup(true, 3, d)
  {
  }

  /**
   * A successful full cleanup leaves no flag file behind, unless the script
   * or its "cleanup" backup happens to live at that path.
   */
  lemma FullCleanupRemovesFlags(fsys: FileSystem, d: Disk, config: LoaderConfig, host: Host, now: DateTime, k: nat)
    requires now.Valid() && k < 2
    requires config.modulePath.absolutePath != ""
    ensures var r := FullCleanupEffect(fsys, d, config, host, now);
      var flag := FlagFilePaths(config.modulePath.absolutePath)[k];
      r.ok && flag in r.disk.files ==>
        flag == HksPath(config) || flag == BackupPath(config, HksPath(config), "cleanup", host, now)
  {
    var modulePath := config.modulePath.absolutePath;
    var hks := HksPath(config);
    var flag := FlagFilePaths(modulePath)[k];
    var s1 := DirectoryCleanupEffect(fsys, d, modulePath);
    var s2 := FlagCleanupEffect(fsys, s1.disk, modulePath);
    if s2.ok {
      assert flag !in s2.disk.files;
      if flag != hks && flag != BackupPath(config, hks, "cleanup", host, now) {
        var backedUp := DiskAfterBackup(fsys, s2.disk, hks, config, "cleanup", host, now);
        BackupFrame(fsys, s2.disk, hks, config, "cleanup", host, now, flag);
        StepFrames(fsys, backedUp, modulePath, hks, flag);
      }
    }
  }

  /**
   * What a full cleanup does to the game script, when the first two steps
   * cannot touch it and the backup is not written over it: the script is
   * rewritten with the kept lines exactly when it has an injection and can
   * be read and written, and keeps its content otherwise.
   */
  lemma FullCleanupScript(fsys: FileSystem, d: Disk, config: LoaderConfig, host: Host, now: DateTime)
    requires now.Valid()
    requires config.gameScriptPath.absolutePath != ""
    requires HksPath(config) in d.files && HksPath(config) !in d.dirs
    requires config.modulePath.absolutePath != "" ==>
      !Under(HksPath(config), LoaderDirectory(config.modulePath.absolutePath)) &&
      HksPath(config) !in FlagFilePaths(config.modulePath.absolutePath)
    requires HksPath(config) != BackupPath(config, HksPath(config), "cleanup", host, now)
    ensures var r := FullCleanupEffect(fsys, d, config, host, now);
      var hks := HksPath(config);
      var cleaned := CleanScript(d.files[hks]);
      && hks in r.disk.files
      && r.disk.files[hks] ==
           if cleaned.Cleaned? && hks !in fsys.unreadable && hks !in fsys.readOnly then cleaned.content
           else d.files[hks]
  {
    var modulePath := config.modulePath.absolutePath;
    var hks := HksPath(config);
    var s1 := DirectoryStep(fsys, d, modulePath);
    var s2 := FlagStep(fsys, s1.disk, modulePath);
    StepFrames(fsys, d, modulePath, hks, hks);
    StepFrames(fsys, s1.disk, modulePath, hks, hks);
    ScriptStepOnScript(fsys, s2.disk, config, host, now, d.files[hks]);
  }

  /** The script step alone, on contents where the script is a file holding `content`. */
  lemma ScriptStepOnScript(fsys: FileSystem, d: Disk, config: LoaderConfig, host: Host, now: DateTime, content: string)
    requires now.Valid()
    requires config.gameScriptPath.absolutePath != ""
    requires HksPath(config) in d.files && d.files[HksPath(config)] == content && HksPath(config) !in d.dirs
    requires HksPath(config) != BackupPath(config, HksPath(config), "cleanup", host, now)
    ensures var files := ScriptStep(fsys, d, config, host, now).disk.files;
      var cleaned := CleanScript(content);
      && HksPath(config) in files
      && files[HksPath(config)] ==
           if cleaned.Cleaned? && HksPath(config) !in fsys.unreadable && HksPath(config) !in fsys.readOnly then cleaned.content
           else content
  {
    var hks := HksPath(config);
    var backedUp := DiskAfterBackup(fsys, d, hks, config, "cleanup", host, now);
    BackupFrame(fsys, d, hks, config, "cleanup", host, now, hks);
    assert hks in backedUp.files && backedUp.files[hks] == content && hks !in backedUp.dirs;
  }

  /**
   * The whole round trip on the file system: a full cleanup of a script that
   * was injected gives back the original text (under the conditions of
   * CleanupUndoesInjection), provided the script can be read and written.
   */
  lemma FullCleanupRestoresScript(fsys: FileSystem, d: Disk, config: LoaderConfig, host: Host, now: DateTime, original: string)
    requires now.Valid()
    requires config.gameScriptPath.absolutePath != ""
    requires HksPath(config) in d.files && HksPath(config) !in d.dirs
    requires config.modulePath.absolutePath != "" ==>
      !Under(HksPath(config), LoaderDirectory(config.modulePath.absolutePath)) &&
      HksPath(config) !in FlagFilePaths(config.modulePath.absolutePath)
    requires HksPath(config) != BackupPath(config, HksPath(config), "cleanup", host, now)
    requires HksPath(config) !in fsys.unreadable && HksPath(config) !in fsys.readOnly
    requires var configFileName := host.fileName(config.configFile);
      var moduleRelativePath := config.modulePath.relativePath;
      && d.files[HksPath(config)] == NewContent(configFileName, moduleRelativePath, InjectionLine(config.modulePath.absolutePath), original)
      && '\n' !in configFileName && '\n' !in moduleRelativePath && '\n' !in config.modulePath.absolutePath
      && !IsEnd("-- Config: " + configFileName) && !IsEnd("-- Module Path: " + moduleRelativePath)
    requires forall j :: 0 <= j < |Lines(original)| ==> !IsStart(Lines(original), j)
    requires Lines(original) == [] || !IsBlank(Lines(original)[0])
    requires original == "" || original[|original| - 1] == '\n'
    ensures var files := FullCleanupEffect(fsys, d, config, host, now).disk.files;
      HksPath(config) in files && files[HksPath(config)] == original
  {
    FullCleanupScript(fsys, d, config, host, now);
    CleanupUndoesInjection(host.fileName(config.configFile), config.modulePath.relativePath,
      config.modulePath.absolutePath, original);
  }

  /**
   * performFullCleanup: the directory, the flags and the script injection,
   * each skipped (and counted as done) when its path is not configured. The
   * script is backed up with context "cleanup" before it is cleaned. The
   * result is true iff all three operations were completed, and the new
   * contents are those FullCleanupEffect composes.
   */
  method PerformFullCleanup(fsys: FileSystem, config: LoaderConfig, host: Host, now: DateTime)
    returns (ok: bool, completed: nat)
    requires fsys.Valid() && now.Valid()
    modifies fsys
    ensures fsys.Valid()
    ensures FullCleanup(ok, completed, fsys.Contents()) == FullCleanupEffect(fsys, old(fsys.Contents()), config, host, now)
    ensures completed <= 3 && (ok <==> completed == 3)
    ensures config.modulePath.absolutePath == "" && config.gameScriptPath.absolutePath == "" ==>
      ok && fsys.files == old(fsys.files) && fsys.dirs == old(fsys.dirs)
    ensures forall p :: !CleanupTargets(config, host, now, p) ==> SameAt(old(fsys.files), fsys.files, p)
  {
    ok, completed := true, 0;
    var modulePath := config.modulePath.absolutePath;
    ghost var e := FullCleanupEffect(fsys, fsys.Contents(), config, host, now);
    ghost var d0 := fsys.Contents();
    ghost var s1 := DirectoryStep(fsys, d0, modulePath);

    if modulePath != "" {
      var removed := CleanupModuleLoaderDirectory(fsys, modulePath);
      if removed { completed := completed + 1; } else { ok := false; }
    } else {
      completed := completed + 1;
    }
    assert s1 == StepEffect(ok, fsys.Contents()) && completed == Tally(s1.ok);
    ghost var s2 := FlagStep(fsys, s1.disk, modulePath);

    if modulePath != "" {
      var flagsRemoved := CleanupFlagFiles(fsys, modulePath);
      if flagsRemoved { completed := completed + 1; } else { ok := false; }
    } else {
      completed := completed + 1;
    }
    assert s2.disk == fsys.Contents() && ok == (s1.ok && s2.ok) && completed == Tally(s1.ok) + Tally(s2.ok);

    var hksPath := HksPath(config);
    if config.gameScriptPath.absolutePath != "" {
      if fsys.Exists(hksPath) {
        var _ := CreateHksBackup(fsys, hksPath, config, "cleanup", host, now);
        var cleaned := CleanupHksInjection(fsys, hksPath);
        if cleaned { completed := completed + 1; } else { ok := false; }
      } else {
        completed := completed + 1;
      }
    } else {
      completed := completed + 1;
    }
    assert e == FullCleanup(ok, completed, fsys.Contents());
    forall p | !CleanupTargets(config, host, now, p) ensures SameAt(d0.files, fsys.files, p) {
      FullCleanupFrame(fsys, d0, config, host, now, p);
    }
  }
}
