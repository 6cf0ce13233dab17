/**
 * Injection of the loader's bootstrap line into the game script c0000.hks
 * (HksInjector.cpp): detection of an earlier injection, the header and new
 * content, the timestamped backup, and the apply / skip / backup decisions.
 */
module HksInjector {
  import opened Wrappers
  import opened Text
  import opened Environment
  import opened Config

  /** The game script patched inside the configured script directory. */
  function HksPath(config: LoaderConfig): (r: Path)
    ensures StartsWith(r, config.gameScriptPath.absolutePath)
    ensures |r| == |config.gameScriptPath.absolutePath| + 10
    ensures r[|config.gameScriptPath.absolutePath|..] == "/c0000.hks"
  {
    config.gameScriptPath.absolutePath + "/c0000.hks"
  }

  /** Where the generated setup script lives below the module directory. */
  const LoaderDirName := "/_module_loader/"
  const SetupScriptName := "module_loader_setup.lua"
  const SetupScriptSuffix := LoaderDirName + SetupScriptName

  /** The generated setup script the injected line loads. */
  function SetupScriptPath(moduleAbsolutePath: Path): (r: Path)
    ensures StartsWith(r, moduleAbsolutePath + LoaderDirName)
    ensures '\n' !in moduleAbsolutePath ==> '\n' !in r
  {
    var r := moduleAbsolutePath + SetupScriptSuffix;
    assert r[..|moduleAbsolutePath| + |LoaderDirName|] == moduleAbsolutePath + LoaderDirName;
    r
  }

  /**
   * The generated directory below the module path, as Cleanup.cpp and
   * LuaSetup.cpp spell it; the setup script lies directly inside it.
   */
  function LoaderDirectory(moduleAbsolutePath: Path): (r: Path)
    ensures SetupScriptPath(moduleAbsolutePath) == r + "/" + SetupScriptName
  {
    var r := moduleAbsolutePath + "/_module_loader";
    assert "/_module_loader" + "/" == LoaderDirName;
    SeqAssoc(moduleAbsolutePath, "/_module_loader", "/");
    SeqAssoc(moduleAbsolutePath, LoaderDirName, SetupScriptName);
    r
  }

  /** The bootstrap line: dofile on the setup script's absolute path, in single quotes. */
  function InjectionLine(moduleAbsolutePath: Path): (r: string)
    ensures StartsWith(r, "dofile('")
    ensures Contains(r, SetupScriptPath(moduleAbsolutePath))
    ensures '\n' !in moduleAbsolutePath ==> '\n' !in r
  {
    var path := SetupScriptPath(moduleAbsolutePath);
    var r := "dofile('" + path + "')";
    ContainsInfix("dofile('", path, "')");
    assert r[..8] == "dofile('";
    r
  }

  /** The bootstrap line carries both markers the cleanup scanner looks for. */
  lemma InjectionLineMarkers(moduleAbsolutePath: Path)
    ensures Contains(InjectionLine(moduleAbsolutePath), "dofile(")
    ensures Contains(InjectionLine(moduleAbsolutePath), "module_loader_setup.lua")
  {
    var path := SetupScriptPath(moduleAbsolutePath);
    var r := InjectionLine(moduleAbsolutePath);
    assert Contains(r, "dofile(") by {
      DofilePrefix();
      StartsWithTrans(r, "dofile('", "dofile(");
      ContainsAt(r, "dofile(", 0);
    }
    assert Contains(path, "module_loader_setup.lua") by {
      SuffixNamesSetupScript();
      ContainsWidened(moduleAbsolutePath, SetupScriptSuffix, "", "module_loader_setup.lua");
      assert moduleAbsolutePath + SetupScriptSuffix + "" == path;
    }
    ContainsWidened("dofile('", path, "')", "module_loader_setup.lua");
  }

  lemma DofilePrefix()
    ensures StartsWith("dofile('", "dofile(")
  {
  }

  lemma SuffixNamesSetupScript()
    ensures Contains(SetupScriptSuffix, "module_loader_setup.lua")
  {
    ContainsInfix(LoaderDirName, SetupScriptName, "");
    assert LoaderDirName + SetupScriptName + "" == SetupScriptSuffix;
  }

  lemma StartsWithTrans(s: string, p: string, q: string)
    requires StartsWith(s, p) && StartsWith(p, q)
    ensures StartsWith(s, q)
  {
    assert s[..|q|] == p[..|q|];
  }

  datatype InjectionStatus = InjectionStatus(isInjected: bool, matchedPattern: string, matchType: string)

  const NotInjected := InjectionStatus(false, "", "")

  /** Markers of injections made by earlier versions, with the description logged for each. */
  const LegacyPatterns: seq<(string, string)> := [
    ("-- Lua Loader by Malice", "legacy header signature"),
    ("dofile('", "legacy dofile single quotes"),
    ("dofile(\"", "legacy dofile double quotes"),
    ("_module_loader", "legacy module loader reference")
  ]

  /** Every signal checkInjectionStatus tests, in the order it tests them. */
  function DetectionSignals(injectionLine: string): seq<(string, string)> {
    [(injectionLine, "exact current injection"),
     ("module_loader_setup.lua", "module loader reference")] + LegacyPatterns
  }

  /** The earliest signal of `signals` that occurs in `content`. */
  predicate IsFirstSignal(content: string, signals: seq<(string, string)>, k: int) {
    && 0 <= k < |signals|
    && Contains(content, signals[k].0)
    && forall j :: 0 <= j < k ==> !Contains(content, signals[j].0)
  }

  /** The early-return loop over the legacy patterns. */
  function FirstSignal(content: string, signals: seq<(string, string)>): (r: InjectionStatus)
    ensures r.isInjected <==> exists k :: 0 <= k < |signals| && Contains(content, signals[k].0)
    ensures r.isInjected ==> exists k ::
      && IsFirstSignal(content, signals, k)
      && r.matchedPattern == signals[k].0 && r.matchType == signals[k].1
    ensures !r.isInjected ==> r == NotInjected
  {
    if signals == [] then NotInjected
    else if Contains(content, signals[0].0) then
      assert IsFirstSignal(content, signals, 0);
      InjectionStatus(true, signals[0].0, signals[0].1)
    else
      var r := FirstSignal(content, signals[1..]);
      if r.isInjected then
        var k :| IsFirstSignal(content, signals[1..], k) &&
          r.matchedPattern == signals[1..][k].0 && r.matchType == signals[1..][k].1;
        assert IsFirstSignal(content, signals, k + 1);
        r
      else
        assert forall k :: 1 <= k < |signals| ==> signals[k] == signals[1..][k - 1];
        r
  }

  /** The first detection signal is found directly in the content. */
  lemma FirstSignalHead(content: string, signals: seq<(string, string)>)
    requires signals != [] && Contains(content, signals[0].0)
    ensures FirstSignal(content, signals) == InjectionStatus(true, signals[0].0, signals[0].1)
  {
  }

  /**
   * checkInjectionStatus: the exact bootstrap line, then any reference to the
   * setup script, then the legacy patterns in order. The result is the first
   * detection signal that occurs, so the content counts as injected iff any
   * of the six occurs.
   */
  method CheckInjectionStatus(fileContent: string, injectionLine: string) returns (r: InjectionStatus)
    ensures r == FirstSignal(fileContent, DetectionSignals(injectionLine))
  {
    ghost var signals := DetectionSignals(injectionLine);
    if Contains(fileContent, injectionLine) {
      return InjectionStatus(true, injectionLine, "exact current injection");
    }
    assert signals[1..][0] == ("module_loader_setup.lua", "module loader reference");
    if Contains(fileContent, "module_loader_setup.lua") {
      FirstSignalHead(fileContent, signals[1..]);
      return InjectionStatus(true, "module_loader_setup.lua", "module loader reference");
    }
    assert signals[1..][1..] == LegacyPatterns;
    var i := 0;
    while i < |LegacyPatterns|
      invariant 0 <= i <= |LegacyPatterns|
      invariant FirstSignal(fileContent, signals) == FirstSignal(fileContent, LegacyPatterns[i..])
    {
      var (pattern, description) := LegacyPatterns[i];
      if Contains(fileContent, pattern) {
        FirstSignalHead(fileContent, LegacyPatterns[i..]);
        return InjectionStatus(true, pattern, description);
      }
      assert LegacyPatterns[i..][1..] == LegacyPatterns[i + 1..];
      i := i + 1;
    }
    return NotInjected;
  }

  // The header literals are joined from short pieces, which keeps the
  // verifier's proofs about their characters small.

  /** The banner line of the header: "-- " and forty '=' characters. */
  const Banner := "-- " + "====================" + "===================="

  /** The tag that opens the second header line, which the cleanup scanner looks for. */
  const LoaderTag := "-- Lua Loader"

  const VersionLine := LoaderTag + " v11.3 - Enhanced" + " Path Resolution"

  /**
   * The seven header lines and the blank line that ends the header: every
   * line but the last is a Lua comment, so the header changes nothing the
   * game runs; the fifth and sixth name the config file and the module path.
   */
  function HeaderLines(configFileName: string, moduleRelativePath: string): (r: seq<string>)
    ensures |r| == 8 && r[7] == ""
    ensures forall k :: 0 <= k < 7 ==> IsLuaComment(r[k])
    ensures EndsWith(r[4], configFileName) && EndsWith(r[5], moduleRelativePath)
  {
    var config := "-- Config: " + configFileName;
    var modulePath := "-- Module Path: " + moduleRelativePath;
    assert Banner[0] == '-' && Banner[1] == '-';
    assert VersionLine[0] == '-' && VersionLine[1] == '-';
    assert config[0] == '-' && config[1] == '-' && config[|config| - |configFileName|..] == configFileName;
    assert modulePath[0] == '-' && modulePath[1] == '-' && modulePath[|modulePath| - |moduleRelativePath|..] == moduleRelativePath;
    [Banner, VersionLine, "-- by Malice", Banner, config, modulePath, Banner, ""]
  }

  /** A line Lua reads as a comment. */
  predicate IsLuaComment(line: string) {
    |line| >= 2 && line[0] == '-' && line[1] == '-'
  }

  /** The header text: each header line terminated by "\n". */
  function Header(configFileName: string, moduleRelativePath: string): string {
    Unlines(HeaderLines(configFileName, moduleRelativePath))
  }

  /**
   * The new script: header, bootstrap line, one blank line, then the original
   * content byte for byte.
   */
  function NewContent(configFileName: string, moduleRelativePath: string, injectionLine: string, original: string): (r: string)
    ensures StartsWith(r, Header(configFileName, moduleRelativePath))
    ensures |r| >= |original| && r[|r| - |original|..] == original
  {
    var header := Header(configFileName, moduleRelativePath);
    var r := header + injectionLine + "\n\n" + original;
    assert r[..|header|] == header;
    r
  }

  /** The new script holds the bootstrap line. */
  lemma NewContentShape(configFileName: string, moduleRelativePath: string, injectionLine: string, original: string)
    ensures Contains(NewContent(configFileName, moduleRelativePath, injectionLine, original), injectionLine)
  {
    var header := Header(configFileName, moduleRelativePath);
    ContainsInfix(header, injectionLine, "\n\n" + original);
    assert header + injectionLine + ("\n\n" + original) == NewContent(configFileName, moduleRelativePath, injectionLine, original);
  }

  /** Injection output is always recognised as injected, by its exact bootstrap line. */
  lemma {:induction false} InjectedContentIsDetected(configFileName: string, moduleRelativePath: string, moduleAbsolutePath: Path, original: string)
    ensures var line := InjectionLine(moduleAbsolutePath);
      FirstSignal(NewContent(configFileName, moduleRelativePath, line, original), DetectionSignals(line)) ==
        InjectionStatus(true, line, "exact current injection")
  {
    var line := InjectionLine(moduleAbsolutePath);
    NewContentShape(configFileName, moduleRelativePath, line, original);
    FirstSignalHead(NewContent(configFileName, moduleRelativePath, line, original), DetectionSignals(line));
  }

  // ---- Backup naming and location ----

  function Digit(d: nat): char
    requires d < 10
  {
    ('0' as int + d) as char
  }

  /** A number below 100 in two digits, zero padded. */
  function TwoDigits(n: nat): (r: string)
    requires n < 100
    ensures |r| == 2
  {
    [Digit(n / 10), Digit(n % 10)]
  }

  /** A number below 10000 in four digits, zero padded. */
  function FourDigits(n: nat): (r: string)
    requires n < 10000
    ensures |r| == 4
  {
    TwoDigits(n / 100) + TwoDigits(n % 100)
  }

  lemma DigitInjective(a: nat, b: nat)
    requires a < 10 && b < 10 && Digit(a) == Digit(b)
    ensures a == b
  {
  }

  lemma TwoDigitsInjective(a: nat, b: nat)
    requires a < 100 && b < 100 && TwoDigits(a) == TwoDigits(b)
    ensures a == b
  {
    assert TwoDigits(a)[0] == TwoDigits(b)[0] && TwoDigits(a)[1] == TwoDigits(b)[1];
    DigitInjective(a / 10, b / 10);
    DigitInjective(a % 10, b % 10);
  }

  lemma FourDigitsInjective(a: nat, b: nat)
    requires a < 10000 && b < 10000 && FourDigits(a) == FourDigits(b)
    ensures a == b
  {
    assert FourDigits(a)[..2] == TwoDigits(a / 100) && FourDigits(b)[..2] == TwoDigits(b / 100);
    assert FourDigits(a)[2..] == TwoDigits(a % 100) && FourDigits(b)[2..] == TwoDigits(b % 100);
    TwoDigitsInjective(a / 100, b / 100);
    TwoDigitsInjective(a % 100, b % 100);
  }

  /** strftime with "%Y-%m-%d_%H-%M-%S". */
  function Timestamp(t: DateTime): (r: string)
    requires t.Valid()
    ensures |r| == 19
  {
    FourDigits(t.year) + "-" + TwoDigits(t.month) + "-" + TwoDigits(t.day) + "_" +
    TwoDigits(t.hour) + "-" + TwoDigits(t.minute) + "-" + TwoDigits(t.second)
  }

  /** Backups taken at different seconds get different timestamps. */
  lemma TimestampInjective(a: DateTime, b: DateTime)
    requires a.Valid() && b.Valid() && Timestamp(a) == Timestamp(b)
    ensures a == b
  {
    var sa, sb := Timestamp(a), Timestamp(b);
    assert sa[0..4] == FourDigits(a.year) && sb[0..4] == FourDigits(b.year);
    assert sa[5..7] == TwoDigits(a.month) && sb[5..7] == TwoDigits(b.month);
    assert sa[8..10] == TwoDigits(a.day) && sb[8..10] == TwoDigits(b.day);
    assert sa[11..13] == TwoDigits(a.hour) && sb[11..13] == TwoDigits(b.hour);
    assert sa[14..16] == TwoDigits(a.minute) && sb[14..16] == TwoDigits(b.minute);
    assert sa[17..19] == TwoDigits(a.second) && sb[17..19] == TwoDigits(b.second);
    FourDigitsInjective(a.year, b.year);
    TwoDigitsInjective(a.month, b.month);
    TwoDigitsInjective(a.day, b.day);
    TwoDigitsInjective(a.hour, b.hour);
    TwoDigitsInjective(a.minute, b.minute);
    TwoDigitsInjective(a.second, b.second);
  }

  /**
   * `<basename>.backup_<timestamp>`, followed by `_<context>` only for a
   * non-empty context: the name starts with the file's own name and the
   * stamp, and the context follows exactly when one is given.
   */
  function BackupFileName(baseName: string, stamp: string, context: string): (r: string)
    ensures var stem := baseName + ".backup_" + stamp;
      && StartsWith(r, stem)
      && (context == "" <==> |r| == |stem|)
      && (context != "" ==> r[|stem|..] == "_" + context)
  {
    var stem := baseName + ".backup_" + stamp;
    var r := stem + (if context == "" then "" else "_" + context);
    assert r[..|stem|] == stem;
    r
  }

  /** Two backups of the same file share a name only if taken at the same second for the same reason. */
  lemma BackupFileNameInjective(baseName: string, a: DateTime, b: DateTime, ca: string, cb: string)
    requires a.Valid() && b.Valid()
    requires BackupFileName(baseName, Timestamp(a), ca) == BackupFileName(baseName, Timestamp(b), cb)
    ensures a == b && ca == cb
  {
    var stemA := baseName + ".backup_" + Timestamp(a);
    var stemB := baseName + ".backup_" + Timestamp(b);
    assert |stemA| == |stemB|;
    var name := BackupFileName(baseName, Timestamp(a), ca);
    assert name[..|stemA|] == stemA && name[..|stemB|] == stemB;
    assert stemA[|baseName| + 8..] == Timestamp(a) && stemB[|baseName| + 8..] == Timestamp(b);
    TimestampInjective(a, b);
    if ca != "" && cb != "" {
      assert ("_" + ca)[1..] == ca && ("_" + cb)[1..] == cb;
    }
  }

  /** The configured backup folder resolved against the config directory, or the script's own directory. */
  function BackupDirectory(config: LoaderConfig, hksPath: Path, host: Host): (r: Path)
    ensures config.backupHKSFolder == "" ==> r == host.parentPath(hksPath)
    ensures config.backupHKSFolder != "" ==> r == host.resolvePathWithFallbacks(config.backupHKSFolder, config.configDir)
  {
    if config.backupHKSFolder == "" then host.parentPath(hksPath)
    else host.resolvePathWithFallbacks(config.backupHKSFolder, config.configDir)
  }

  /** The path the backup copy is written to. */
  function BackupPath(config: LoaderConfig, hksPath: Path, context: string, host: Host, now: DateTime): Path
    requires now.Valid()
  {
    var name := BackupFileName(host.fileName(hksPath), Timestamp(now), context);
    host.normalizePath(BackupDirectory(config, hksPath, host) + "/" + name)
  }

  /**
   * When path normalisation loses nothing, backups of one script taken at
   * different seconds or for different reasons never overwrite each other.
   */
  lemma BackupPathInjective(config: LoaderConfig, hksPath: Path, host: Host, a: DateTime, b: DateTime, ca: string, cb: string)
    requires a.Valid() && b.Valid()
    requires forall x: Path, y: Path :: host.normalizePath(x) == host.normalizePath(y) ==> x == y
    requires BackupPath(config, hksPath, ca, host, a) == BackupPath(config, hksPath, cb, host, b)
    ensures a == b && ca == cb
  {
    var d := BackupDirectory(config, hksPath, host) + "/";
    var na := BackupFileName(host.fileName(hksPath), Timestamp(a), ca);
    var nb := BackupFileName(host.fileName(hksPath), Timestamp(b), cb);
    assert d + na == d + nb;
    assert (d + na)[|d|..] == na && (d + nb)[|d|..] == nb;
    BackupFileNameInjective(host.fileName(hksPath), a, b, ca, cb);
  }

  /**
   * The backup gets past validation and directory creation, on a file system
   * whose contents are `d`.
   */
  ghost predicate BackupReachesCopy(fsys: FileSystem, d: Disk, hksPath: Path, config: LoaderConfig, host: Host) {
    host.validateHKSForBackup(hksPath) && !fsys.DirectoryCreationFailsOn(d, BackupDirectory(config, hksPath, host))
  }

  /** The backup copy is made. */
  ghost predicate BackupCopies(fsys: FileSystem, d: Disk, hksPath: Path, config: LoaderConfig, context: string, host: Host, now: DateTime)
    requires now.Valid()
  {
    var target := BackupPath(config, hksPath, context, host, now);
    && BackupReachesCopy(fsys, d, hksPath, config, host)
    && fsys.ReadableOn(d, hksPath)
    && target !in fsys.readOnly
    && target !in d.dirs + {BackupDirectory(config, hksPath, host)}
  }

  ghost function FilesAfterBackup(fsys: FileSystem, d: Disk, hksPath: Path, config: LoaderConfig, context: string, host: Host, now: DateTime): map<Path, string>
    requires now.Valid()
  {
    if BackupCopies(fsys, d, hksPath, config, context, host, now)
    then d.files[BackupPath(config, hksPath, context, host, now) := d.files[hksPath]]
    else d.files
  }

  ghost function DirsAfterBackup(fsys: FileSystem, d: Disk, hksPath: Path, config: LoaderConfig, host: Host): set<Path> {
    if BackupReachesCopy(fsys, d, hksPath, config, host)
    then d.dirs + {BackupDirectory(config, hksPath, host)}
    else d.dirs
  }

  /** The contents createHksBackup leaves behind. */
  ghost function DiskAfterBackup(fsys: FileSystem, d: Disk, hksPath: Path, config: LoaderConfig, context: string, host: Host, now: DateTime): Disk
    requires now.Valid()
  {
    Disk(FilesAfterBackup(fsys, d, hksPath, config, context, host, now), DirsAfterBackup(fsys, d, hksPath, config, host))
  }

  /**
   * createHksBackup: validation first, then the backup directory is created,
   * then the script is copied to its timestamped name. Validation or directory
   * failure returns false before anything is copied.
   */
  method CreateHksBackup(fsys: FileSystem, hksPath: Path, config: LoaderConfig, context: string, host: Host, now: DateTime)
    returns (ok: bool)
    requires fsys.Valid() && now.Valid()
    modifies fsys
    ensures fsys.Valid()
    ensures ok == BackupCopies(fsys, old(fsys.Contents()), hksPath, config, context, host, now)
    ensures fsys.Contents() == DiskAfterBackup(fsys, old(fsys.Contents()), hksPath, config, context, host, now)
    ensures !host.validateHKSForBackup(hksPath) ==> !ok && fsys.files == old(fsys.files) && fsys.dirs == old(fsys.dirs)
    ensures forall p :: p != BackupPath(config, hksPath, context, host, now) ==> SameAt(old(fsys.files), fsys.files, p)
  {
    forall p | p != BackupPath(config, hksPath, context, host, now)
      ensures SameAt(fsys.files, FilesAfterBackup(fsys, fsys.Contents(), hksPath, config, context, host, now), p)
    {
      BackupFrame(fsys, fsys.Contents(), hksPath, config, context, host, now, p);
    }
    if !host.validateHKSForBackup(hksPath) {
      return false;
    }
    var backupName := BackupFileName(host.fileName(hksPath), Timestamp(now), context);
    var backupDir := BackupDirectory(config, hksPath, host);
    var created := fsys.CreateDirectories(backupDir);
    if !created {
      return false;
    }
    var backupPath := host.normalizePath(backupDir + "/" + backupName);
    ok := fsys.CopyFile(hksPath, backupPath);
  }

  datatype InjectOutcome =
    | EmptyGameScriptPath
    | HksNotFound
    | HksReadFailure
    | AlreadyInjected
    | Injected
    | HksWriteFailure

  /** What an injection run reports and leaves behind in the file system. */
  datatype InjectEffect = InjectEffect(outcome: InjectOutcome, files: map<Path, string>, dirs: set<Path>)

  /**
   * The effect injectIntoHksFile has on `fsys`. An empty game script path or a
   * missing or unreadable script stops before any change. An already injected
   * script is left as it is, with a "launch" backup only when
   * backupHKSonLaunch is set. Otherwise an "injection" backup is attempted
   * whatever the flag and, whether or not it succeeded, the new content is
   * written.
   */
  ghost function InjectionEffect(fsys: FileSystem, config: LoaderConfig, host: Host, now: DateTime): InjectEffect
    requires now.Valid()
    reads fsys
  {
    var hks := HksPath(config);
    var same := InjectEffect(EmptyGameScriptPath, fsys.files, fsys.dirs);
    if config.gameScriptPath.absolutePath == "" then same
    else if hks !in fsys.files then same.(outcome := HksNotFound)
    else if hks in fsys.unreadable then same.(outcome := HksReadFailure)
    else ScriptEffect(fsys, config, host, now)
  }

  /** The part of InjectionEffect after the script has been read. */
  ghost function ScriptEffect(fsys: FileSystem, config: LoaderConfig, host: Host, now: DateTime): InjectEffect
    requires now.Valid() && HksPath(config) in fsys.files
    reads fsys
  {
    var hks := HksPath(config);
    var original := fsys.files[hks];
    var line := InjectionLine(config.modulePath.absolutePath);
    if FirstSignal(original, DetectionSignals(line)).isInjected then
      if config.backupHKSonLaunch then
        InjectEffect(AlreadyInjected, FilesAfterBackup(fsys, fsys.Contents(), hks, config, "launch", host, now),
          DirsAfterBackup(fsys, fsys.Contents(), hks, config, host))
      else InjectEffect(AlreadyInjected, fsys.files, fsys.dirs)
    else
      var backedUp := FilesAfterBackup(fsys, fsys.Contents(), hks, config, "injection", host, now);
      var dirs := DirsAfterBackup(fsys, fsys.Contents(), hks, config, host);
      if hks in fsys.readOnly then InjectEffect(HksWriteFailure, backedUp, dirs)
      else
        var content := NewContent(host.fileName(config.configFile), config.modulePath.relativePath, line, original);
        InjectEffect(Injected, backedUp[hks := content], dirs)
  }

  /** injectIntoHksFile; the outcome names the branch taken, which the source reports only in its log. */
  method InjectIntoHksFile(fsys: FileSystem, config: LoaderConfig, host: Host, now: DateTime)
    returns (outcome: InjectOutcome)
    requires fsys.Valid() && now.Valid()
    modifies fsys
    ensures fsys.Valid()
    ensures InjectEffect(outcome, fsys.files, fsys.dirs) == old(InjectionEffect(fsys, config, host, now))
  {
    if config.gameScriptPath.absolutePath == "" {
      return EmptyGameScriptPath;
    }
    var hksPath := HksPath(config);
    if !fsys.Exists(hksPath) || !fsys.IsRegularFile(hksPath) {
      return HksNotFound;
    }
    var read := fsys.ReadFile(hksPath);
    if read.None? {
      return HksReadFailure;
    }
    var fileContent := read.value;

    var injectionLine := InjectionLine(config.modulePath.absolutePath);
    var status := CheckInjectionStatus(fileContent, injectionLine);
    if status.isInjected {
      if config.backupHKSonLaunch {
        var _ := CreateHksBackup(fsys, hksPath, config, "launch", host, now);
      }
      return AlreadyInjected;
    }

    var _ := CreateHksBackup(fsys, hksPath, config, "injection", host, now);
    var newContent := NewContent(host.fileName(config.configFile), config.modulePath.relativePath, injectionLine, fileContent);
    var written := fsys.WriteFile(hksPath, newContent);
    outcome := if written then Injected else HksWriteFailure;
  }

  /** The early exits change nothing. */
  lemma InjectionGuards(fsys: FileSystem, config: LoaderConfig, host: Host, now: DateTime)
    requires now.Valid()
    ensures var e := InjectionEffect(fsys, config, host, now);
      e.outcome in {EmptyGameScriptPath, HksNotFound, HksReadFailure} <==>
        config.gameScriptPath.absolutePath == "" || !fsys.Readable(HksPath(config))
    ensures var e := InjectionEffect(fsys, config, host, now);
      e.outcome in {EmptyGameScriptPath, HksNotFound, HksReadFailure} ==> e.files == fsys.files && e.dirs == fsys.dirs
  {
  }

  /** A backup changes no file but its own copy. */
  lemma BackupFrame(fsys: FileSystem, d: Disk, hksPath: Path, config: LoaderConfig, context: string, host: Host, now: DateTime, p: Path)
    requires now.Valid()
    requires p != BackupPath(config, hksPath, context, host, now)
    ensures var files := FilesAfterBackup(fsys, d, hksPath, config, context, host, now);
      (p in files <==> p in d.files) && (p in d.files ==> files[p] == d.files[p])
  {
  }

  /**
   * Only the script itself and the backup copy can change; every other file
   * keeps its presence and content.
   */
  lemma InjectionFrame(fsys: FileSystem, config: LoaderConfig, host: Host, now: DateTime, p: Path)
    requires now.Valid()
    requires p != HksPath(config)
    requires p != BackupPath(config, HksPath(config), "launch", host, now)
    requires p != BackupPath(config, HksPath(config), "injection", host, now)
    ensures var e := InjectionEffect(fsys, config, host, now);
      (p in e.files <==> p in fsys.files) && (p in fsys.files ==> e.files[p] == fsys.files[p])
  {
    if config.gameScriptPath.absolutePath != "" && fsys.Readable(HksPath(config)) {
      ScriptFrame(fsys, config, host, now, p);
    }
  }

  lemma ScriptFrame(fsys: FileSystem, config: LoaderConfig, host: Host, now: DateTime, p: Path)
    requires now.Valid() && HksPath(config) in fsys.files
    requires p != HksPath(config)
    requires p != BackupPath(config, HksPath(config), "launch", host, now)
    requires p != BackupPath(config, HksPath(config), "injection", host, now)
    ensures var e := ScriptEffect(fsys, config, host, now);
      (p in e.files <==> p in fsys.files) && (p in fsys.files ==> e.files[p] == fsys.files[p])
  {
    var hks := HksPath(config);
    BackupFrame(fsys, fsys.Contents(), hks, config, "launch", host, now, p);
    BackupFrame(fsys, fsys.Contents(), hks, config, "injection", host, now, p);
  }

  /**
   * A successful run writes the header and bootstrap line before the
   * untouched original content; any other run leaves the script's content
   * as it was. A readable, writable script without the bootstrap line is
   * always injected (a failed backup does not stop the write), and a script
   * that already has it is left alone, with nothing changed at all unless a
   * launch backup is asked for.
   */
  lemma InjectionWritesScript(fsys: FileSystem, config: LoaderConfig, host: Host, now: DateTime)
    requires fsys.Valid() && now.Valid()
    ensures var e := InjectionEffect(fsys, config, host, now);
      var hks := HksPath(config);
      && (hks in e.files <==> hks in fsys.files)
      && (e.outcome == Injected ==>
            var original := fsys.files[hks];
            var line := InjectionLine(config.modulePath.absolutePath);
            && !FirstSignal(original, DetectionSignals(line)).isInjected
            && e.files[hks] == NewContent(host.fileName(config.configFile), config.modulePath.relativePath, line, original))
      && (e.outcome != Injected && hks in fsys.files ==> e.files[hks] == fsys.files[hks])
      && (config.gameScriptPath.absolutePath != "" && fsys.Readable(hks) ==>
            var detected := FirstSignal(fsys.files[hks], DetectionSignals(InjectionLine(config.modulePath.absolutePath))).isInjected;
            && (!detected && hks !in fsys.readOnly ==> e.outcome == Injected)
            && (detected ==> e.outcome == AlreadyInjected)
            && (detected && !config.backupHKSonLaunch ==> e.files == fsys.files && e.dirs == fsys.dirs))
  {
    var hks := HksPath(config);
    if config.gameScriptPath.absolutePath != "" && fsys.Readable(hks) {
      BackupKeepsSource(fsys, fsys.Contents(), hks, config, "launch", host, now);
      BackupKeepsSource(fsys, fsys.Contents(), hks, config, "injection", host, now);
      assert InjectionEffect(fsys, config, host, now) == ScriptEffect(fsys, config, host, now);
    }
  }

  /** A backup never changes the file it copies. */
  lemma BackupKeepsSource(fsys: FileSystem, d: Disk, hksPath: Path, config: LoaderConfig, context: string, host: Host, now: DateTime)
    requires now.Valid() && hksPath in d.files
    ensures var files := FilesAfterBackup(fsys, d, hksPath, config, context, host, now);
      hksPath in files && files[hksPath] == d.files[hksPath]
  {
  }

  /**
   * Injection is idempotent: what a successful run writes is recognised as
   * injected, so a later run reports AlreadyInjected and keeps the content.
   */
  lemma {:induction false} InjectionIdempotent(config: LoaderConfig, host: Host, original: string)
    ensures var line := InjectionLine(config.modulePath.absolutePath);
      var written := NewContent(host.fileName(config.configFile), config.modulePath.relativePath, line, original);
      FirstSignal(written, DetectionSignals(line)).isInjected
  {
    InjectedContentIsDetected(host.fileName(config.configFile), config.modulePath.relativePath,
      config.modulePath.absolutePath, original);
  }

  /** Two runs in a row: the second finds the first one's work and changes nothing in the script. */
  method InjectTwice(fsys: FileSystem, config: LoaderConfig, host: Host, first: DateTime, second: DateTime)
    returns (a: InjectOutcome, b: InjectOutcome)
    requires fsys.Valid() && first.Valid() && second.Valid()
    modifies fsys
    ensures fsys.Valid()
    ensures a == Injected ==> b == AlreadyInjected
    ensures a == Injected ==> HksPath(config) in old(fsys.files) && HksPath(config) in fsys.files
    ensures a == Injected ==>
      fsys.files[HksPath(config)] == NewContent(host.fileName(config.configFile), config.modulePath.relativePath,
        InjectionLine(config.modulePath.absolutePath), old(fsys.files[HksPath(config)]))
  {
    InjectionWritesScript(fsys, config, host, first);
    a := InjectIntoHksFile(fsys, config, host, first);
    ghost var afterFirst := fsys.files;
    InjectionWritesScript(fsys, config, host, second);
    b := InjectIntoHksFile(fsys, config, host, second);
    if a == Injected {
      InjectionIdempotent(config, host, old(fsys.files[HksPath(config)]));
    }
  }
}
