/**
 * Generation of the Lua setup script (LuaSetup.cpp): the placeholder
 * substitution over the embedded template, the configuration checks, and
 * the directory / remove / write sequence that puts the script where the
 * injected bootstrap line looks for it.
 */
module LuaSetup {
  import opened Wrappers
  import opened Text
  import opened Environment
  import opened Config
  import opened HksInjector

  // ---- replaceAll ----

  /**
   * What replaceAll computes, read left to right: at an occurrence of
   * `search` emit `rep` and continue after the occurrence, otherwise emit
   * the next character. Inserted text is never looked at again. An empty
   * `search` leaves the subject alone.
   */
  function Replaced(s: string, search: string, rep: string): string
    decreases |s|
  {
    if search == "" || |s| < |search| then s
    else if MatchesAt(s, search, 0) then rep + Replaced(s[|search|..], search, rep)
    else [s[0]] + Replaced(s[1..], search, rep)
  }

  /** Occurrences in a suffix are occurrences in the whole, shifted. */
  lemma MatchesInSuffix(s: string, p: string, k: nat, j: nat)
    requires k <= |s|
    ensures MatchesAt(s[k..], p, j) <==> MatchesAt(s, p, k + j)
  {
    if k + j + |p| <= |s| {
      assert s[k..][j..j + |p|] == s[k + j..k + j + |p|];
    }
  }

  /** Characters before the first occurrence are copied unchanged. */
  lemma {:induction false} ReplacedSkip(s: string, search: string, rep: string, k: nat)
    requires search != "" && k <= |s|
    requires forall j :: 0 <= j < k ==> !MatchesAt(s, search, j)
    ensures Replaced(s, search, rep) == s[..k] + Replaced(s[k..], search, rep)
    decreases k
  {
    if k == 0 {
      assert s[..0] + s[0..] == s;
    } else if |s| < |search| {
      assert s[..k] + s[k..] == s;
    } else {
      var t := s[1..];
      forall j | 0 <= j < k - 1 ensures !MatchesAt(t, search, j) {
        MatchesInSuffix(s, search, 1, j);
      }
      ReplacedSkip(t, search, rep, k - 1);
      assert t[k - 1..] == s[k..];
      assert [s[0]] + t[..k - 1] == s[..k];
      SeqAssoc([s[0]], t[..k - 1], Replaced(s[k..], search, rep));
    }
  }

  /** One turn of replaceAll's loop keeps the part done plus the part to do equal to the answer. */
  lemma ReplaceStep(result: string, search: string, replace: string, pos: nat, i: nat, next: string)
    requires search != "" && pos <= |result| && Find(result, search, pos) == Some(i)
    requires next == result[..i] + replace + result[i + |search|..]
    ensures next[..i + |replace|] + Replaced(next[i + |replace|..], search, replace)
      == result[..pos] + Replaced(result[pos..], search, replace)
  {
    var t := result[pos..];
    var rest := result[i + |search|..];
    forall j | 0 <= j < i - pos ensures !MatchesAt(t, search, j) {
      MatchesInSuffix(result, search, pos, j);
    }
    ReplacedSkip(t, search, replace, i - pos);
    var u := t[i - pos..];
    assert u == result[i..];
    MatchesInSuffix(result, search, i, 0);
    assert u[|search|..] == rest;
    assert Replaced(u, search, replace) == replace + Replaced(rest, search, replace);
    assert t[..i - pos] == result[pos..i];
    assert next[i + |replace|..] == rest;
    assert next[..i + |replace|] == result[..pos] + result[pos..i] + replace;
    SeqAssoc(result[pos..i], replace, Replaced(rest, search, replace));
    SeqAssoc(result[..pos], result[pos..i] + replace, Replaced(rest, search, replace));
    SeqAssoc(result[..pos], result[pos..i], replace);
  }

  /** When the search fails, the rest of the subject stays as it is. */
  lemma ReplaceStop(result: string, search: string, replace: string, pos: nat)
    requires search != "" && pos <= |result| && Find(result, search, pos).None?
    ensures result[..pos] + Replaced(result[pos..], search, replace) == result
  {
    var t := result[pos..];
    forall j | 0 <= j < |t| ensures !MatchesAt(t, search, j) {
      MatchesInSuffix(result, search, pos, j);
    }
    ReplacedSkip(t, search, replace, |t|);
    assert t[..|t|] == t && t[|t|..] == "";
    assert result[..pos] + t == result;
  }

  /**
   * replaceAll: the loop that edits `subject` in place, resuming each search
   * after the text it has just inserted.
   */
  method ReplaceAll(subject: string, search: string, replace: string) returns (result: string)
    ensures result == Replaced(subject, search, replace)
  {
    result := subject;
    if search == "" {
      return;
    }
    var pos: nat := 0;
    var found := Find(result, search, pos);
    assert result[..0] + result[0..] == result;
    while found.Some?
      invariant pos <= |result|
      invariant result[..pos] + Replaced(result[pos..], search, replace) == Replaced(subject, search, replace)
      invariant found == Find(result, search, pos)
      decreases |result| - pos
    {
      var i := found.value;
      var next := result[..i] + replace + result[i + |search|..];
      ReplaceStep(result, search, replace, pos, i, next);
      result := next;
      pos := i + |replace|;
      found := Find(result, search, pos);
    }
    ReplaceStop(result, search, replace, pos);
  }

  /** Without an occurrence of `search` the subject comes back unchanged. */
  lemma ReplacedWithoutOccurrence(s: string, search: string, rep: string)
    requires !Contains(s, search)
    ensures Replaced(s, search, rep) == s
  {
    if search != "" {
      forall j | 0 <= j < |s| ensures !MatchesAt(s, search, j) {
        if j <= |s| - |search| {
          assert !MatchesAt(s, search, j);
        }
      }
      ReplacedSkip(s, search, rep, |s|);
      assert s[..|s|] == s && s[|s|..] == "";
    }
  }

  /** Replacing a string by itself changes nothing. */
  lemma {:induction false} ReplacedBySelf(s: string, search: string)
    ensures Replaced(s, search, search) == s
    decreases |s|
  {
    if search != "" && |s| >= |search| {
      if MatchesAt(s, search, 0) {
        ReplacedBySelf(s[|search|..], search);
        assert s[..|search|] + s[|search|..] == s;
      } else {
        ReplacedBySelf(s[1..], search);
        assert [s[0]] + s[1..] == s;
      }
    }
  }

  /**
   * Inserted text is never searched again: the answer is the text before
   * the first occurrence, the replacement, and the answer for the text after
   * the occurrence alone; without an occurrence (or with an empty `search`)
   * the subject is the answer.
   */
  lemma ReplacedIsNotRescanned(s: string, search: string, rep: string)
    ensures search != "" && Find(s, search, 0).Some? ==>
      var i := Find(s, search, 0).value;
      i + |search| <= |s| && Replaced(s, search, rep) == s[..i] + rep + Replaced(s[i + |search|..], search, rep)
    ensures search == "" || Find(s, search, 0).None? ==> Replaced(s, search, rep) == s
  {
    if search != "" {
      match Find(s, search, 0)
      case None =>
        ContainsIff(s, search);
        ReplacedWithoutOccurrence(s, search, rep);
      case Some(i) =>
        ReplacedAtFirst(s, search, rep, i);
    }
  }

  /** The first occurrence, at `i`, is replaced and the search resumes after it. */
  lemma ReplacedAtFirst(s: string, search: string, rep: string, i: nat)
    requires search != "" && Find(s, search, 0) == Some(i)
    ensures i + |search| <= |s| && Replaced(s, search, rep) == s[..i] + rep + Replaced(s[i + |search|..], search, rep)
  {
    ReplacedSkip(s, search, rep, i);
    var u := s[i..];
    MatchesInSuffix(s, search, i, 0);
    assert u[|search|..] == s[i + |search|..];
    assert Replaced(u, search, rep) == rep + Replaced(s[i + |search|..], search, rep);
    SeqAssoc(s[..i], rep, Replaced(s[i + |search|..], search, rep));
  }

  /** On one-character strings replaceAll is std::replace: an independent definition of the same map. */
  lemma {:induction false} ReplacedSingleChar(s: string, a: char, b: char)
    ensures Replaced(s, [a], [b]) == ReplaceChar(s, a, b)
    decreases |s|
  {
    if s != "" {
      MatchesCharAt(s, a, 0);
      ReplacedSingleChar(s[1..], a, b);
    }
  }

  // ---- The placeholders of the template ----

  /** The template's placeholder syntax `${NAME}`. */
  function Placeholder(name: string): (r: string)
    ensures |r| == |name| + 3 && r[0] == '$' && r[|r| - 1] == '}'
  {
    "${" + name + "}"
  }

  /**
   * A placeholder starts with its only '$' and ends with its only '}', so
   * no placeholder is a proper prefix of another.
   */
  predicate IsPlaceholder(p: string) {
    |p| >= 2 && p[0] == '$' && '$' !in p[1..] && p[|p| - 1] == '}' && '}' !in p[..|p| - 1]
  }

  lemma PlaceholderShape(name: string)
    requires '$' !in name && '}' !in name
    ensures IsPlaceholder(Placeholder(name))
  {
    var p := Placeholder(name);
    assert p[1..] == "{" + name + "}";
    assert p[..|p| - 1] == "${" + name;
  }

  lemma PlaceholderInjective(a: string, b: string)
    requires Placeholder(a) == Placeholder(b)
    ensures a == b
  {
    assert a == Placeholder(a)[2..|a| + 2];
  }

  /**
   * The substitutions generateLuaScript applies, in its order: the loader
   * directory, the module path, the config directory, then the two relative
   * paths.
   */
  function Substitutions(config: LoaderConfig, loaderDir: Path): (r: seq<(string, string)>)
    ensures |r| == 5
  {
    [(Placeholder("LOADER_DIR"), loaderDir),
     (Placeholder("MODULE_PATH"), config.modulePath.absolutePath),
     (Placeholder("CONFIG_DIR"), config.configDir),
     (Placeholder("CONFIG_RELATIVE_PATH"), config.gameScriptPath.relativePath),
     (Placeholder("MODULE_RELATIVE_PATH"), config.modulePath.relativePath)]
  }

  /** The template after the substitutions, applied one after the other. */
  function Substituted(template: string, subs: seq<(string, string)>): string
    decreases |subs|
  {
    if subs == [] then template else Substituted(Replaced(template, subs[0].0, subs[0].1), subs[1..])
  }

  /** generateLuaScript: five replaceAll calls reassigning the script in turn. */
  method GenerateLuaScript(config: LoaderConfig, loaderDir: Path, template: string) returns (lua: string)
    ensures lua == Substituted(template, Substitutions(config, loaderDir))
  {
    var subs := Substitutions(config, loaderDir);
    lua := template;
    lua := ReplaceAll(lua, Placeholder("LOADER_DIR"), loaderDir);
    assert Substituted(template, subs) == Substituted(lua, subs[1..]);
    lua := ReplaceAll(lua, Placeholder("MODULE_PATH"), config.modulePath.absolutePath);
    assert Substituted(template, subs) == Substituted(lua, subs[2..]);
    lua := ReplaceAll(lua, Placeholder("CONFIG_DIR"), config.configDir);
    assert Substituted(template, subs) == Substituted(lua, subs[3..]);
    lua := ReplaceAll(lua, Placeholder("CONFIG_RELATIVE_PATH"), config.gameScriptPath.relativePath);
    assert Substituted(template, subs) == Substituted(lua, subs[4..]);
    lua := ReplaceAll(lua, Placeholder("MODULE_RELATIVE_PATH"), config.modulePath.relativePath);
    assert Substituted(lua, subs[5..]) == lua;
  }

  /** The keys are distinct placeholders. */
  predicate PlaceholderKeys(subs: seq<(string, string)>) {
    && (forall i :: 0 <= i < |subs| ==> IsPlaceholder(subs[i].0))
    && (forall i, j :: 0 <= i < j < |subs| ==> subs[i].0 != subs[j].0)
  }

  /** No value holds a '$', so no value can form a placeholder. */
  predicate DollarFreeValues(subs: seq<(string, string)>) {
    forall i :: 0 <= i < |subs| ==> '$' !in subs[i].1
  }

  /** The five placeholders of generateLuaScript are distinct and well formed. */
  lemma SubstitutionKeys(config: LoaderConfig, loaderDir: Path)
    ensures PlaceholderKeys(Substitutions(config, loaderDir))
  {
    var names := ["LOADER_DIR", "MODULE_PATH", "CONFIG_DIR", "CONFIG_RELATIVE_PATH", "MODULE_RELATIVE_PATH"];
    var subs := Substitutions(config, loaderDir);
    forall i | 0 <= i < 5 ensures IsPlaceholder(subs[i].0) {
      assert subs[i].0 == Placeholder(names[i]);
      assert '$' !in names[i] && '}' !in names[i];
      PlaceholderShape(names[i]);
    }
    forall i, j | 0 <= i < j < 5 ensures subs[i].0 != subs[j].0 {
      assert names[i] != names[j];
      if subs[i].0 == subs[j].0 {
        PlaceholderInjective(names[i], names[j]);
      }
    }
  }

  /** Both properties survive dropping the first substitutions. */
  lemma SubstitutionsSuffix(subs: seq<(string, string)>, k: nat)
    requires k <= |subs|
    ensures PlaceholderKeys(subs) ==> PlaceholderKeys(subs[k..])
    ensures DollarFreeValues(subs) ==> DollarFreeValues(subs[k..])
  {
    var rest := subs[k..];
    forall i | 0 <= i < |rest| ensures rest[i] == subs[i + k] {
    }
  }

  /** Text without a '$' is left alone by a placeholder substitution. */
  lemma ReplacedDollarFree(s: string, p: string, rep: string)
    requires IsPlaceholder(p) && '$' !in s
    ensures Replaced(s, p, rep) == s
  {
    NotContainsByChar(s, p, '$');
    ReplacedWithoutOccurrence(s, p, rep);
  }

  lemma {:induction false} SubstitutedDollarFree(s: string, subs: seq<(string, string)>)
    requires forall i :: 0 <= i < |subs| ==> IsPlaceholder(subs[i].0)
    requires '$' !in s
    ensures Substituted(s, subs) == s
    decreases |subs|
  {
    if subs != [] {
      ReplacedDollarFree(s, subs[0].0, subs[0].1);
      SubstitutedDollarFree(s, subs[1..]);
    }
  }

  /** A placeholder between '$'-free text is replaced by its value. */
  lemma ReplacedSingle(a: string, p: string, b: string, rep: string)
    requires IsPlaceholder(p) && '$' !in a && '$' !in b
    ensures Replaced(a + p + b, p, rep) == a + rep + b
  {
    var s := a + p + b;
    forall j | 0 <= j < |a| ensures !MatchesAt(s, p, j) {
      MatchChar(s, p, j, 0);
      assert s[j] == a[j];
    }
    ReplacedSkip(s, p, rep, |a|);
    var t := s[|a|..];
    assert t[..|p|] == p && t[|p|..] == b;
    assert s[..|a|] == a;
    ReplacedDollarFree(b, p, rep);
    SeqAssoc(a, rep, b);
  }

  /** Apart from the one opening `q`, `a + q + b` holds no '$'. */
  lemma DollarOnlyAtPlaceholder(a: string, q: string, b: string)
    requires IsPlaceholder(q) && '$' !in a && '$' !in b
    ensures forall i :: 0 <= i < |a + q + b| && i != |a| ==> (a + q + b)[i] != '$'
  {
    var s := a + q + b;
    forall i | 0 <= i < |s| && i != |a| ensures s[i] != '$' {
      if i < |a| {
        assert s[i] == a[i];
      } else if i < |a| + |q| {
        assert s[i] == q[1..][i - |a| - 1];
      } else {
        assert s[i] == b[i - |a| - |q|];
      }
    }
  }

  /** Two different placeholders: a text starting with one does not start with the other. */
  lemma PlaceholderNotPrefix(p: string, q: string, t: string)
    requires IsPlaceholder(p) && IsPlaceholder(q) && p != q && StartsWith(t, q)
    ensures !StartsWith(t, p)
  {
    assert t[..|q|] == q;
    if |p| < |q| {
      MatchChar(t, p, 0, |p| - 1);
      assert q[..|q| - 1][|p| - 1] == t[|p| - 1];
    } else if |p| == |q| {
      assert t[..|p|] != p;
    } else {
      MatchChar(t, p, 0, |q| - 1);
      assert p[..|p| - 1][|q| - 1] == p[|q| - 1];
      assert t[|q| - 1] == q[|q| - 1];
    }
  }

  /** One placeholder leaves the text around another one alone. */
  lemma ReplacedOther(a: string, q: string, b: string, p: string, rep: string)
    requires IsPlaceholder(p) && IsPlaceholder(q) && p != q && '$' !in a && '$' !in b
    ensures Replaced(a + q + b, p, rep) == a + q + b
  {
    var s := a + q + b;
    DollarOnlyAtPlaceholder(a, q, b);
    forall i: nat | i <= |s| - |p| ensures !MatchesAt(s, p, i) {
      if i == |a| {
        var t := s[|a|..];
        assert t[..|q|] == q;
        PlaceholderNotPrefix(p, q, t);
        assert s[i..i + |p|] == t[..|p|] || |t| < |p|;
      } else {
        MatchChar(s, p, i, 0);
      }
    }
    ReplacedWithoutOccurrence(s, p, rep);
  }

  /**
   * Substituting a template that holds one placeholder, among '$'-free text,
   * puts that placeholder's value in its place: no other substitution
   * touches it, before or after.
   */
  lemma {:induction false} SubstitutedSingle(a: string, b: string, subs: seq<(string, string)>, k: nat)
    requires PlaceholderKeys(subs) && DollarFreeValues(subs) && k < |subs|
    requires '$' !in a && '$' !in b
    ensures Substituted(a + subs[k].0 + b, subs) == a + subs[k].1 + b
    decreases |subs|
  {
    SubstitutionsSuffix(subs, 1);
    if k == 0 {
      ReplacedSingle(a, subs[0].0, b, subs[0].1);
      SubstitutedDollarFree(a + subs[0].1 + b, subs[1..]);
    } else {
      ReplacedOther(a, subs[k].0, b, subs[0].0, subs[0].1);
      SubstitutedSingle(a, b, subs[1..], k - 1);
    }
  }

  /**
   * Each placeholder of generateLuaScript, met once among '$'-free template
   * text, is replaced by its own value when no value holds a '$'.
   */
  lemma GeneratedValueInPlace(config: LoaderConfig, loaderDir: Path, a: string, b: string, k: nat)
    requires k < 5 && '$' !in a && '$' !in b
    requires DollarFreeValues(Substitutions(config, loaderDir))
    ensures var subs := Substitutions(config, loaderDir);
      Substituted(a + subs[k].0 + b, subs) == a + subs[k].1 + b
  {
    SubstitutionKeys(config, loaderDir);
    SubstitutedSingle(a, b, Substitutions(config, loaderDir), k);
  }

  /**
   * The order of the substitutions is observable: a module path that is
   * itself the config-directory placeholder is expanded by the later pass.
   */
  lemma SubstitutionOrderMatters(config: LoaderConfig, loaderDir: Path, a: string, b: string)
    requires '$' !in a && '$' !in b
    requires config.modulePath.absolutePath == Placeholder("CONFIG_DIR")
    requires '$' !in config.configDir
    requires '$' !in config.gameScriptPath.relativePath && '$' !in config.modulePath.relativePath
    ensures Substituted(a + Placeholder("MODULE_PATH") + b, Substitutions(config, loaderDir)) == a + config.configDir + b
  {
    var subs := Substitutions(config, loaderDir);
    SubstitutionKeys(config, loaderDir);
    var t := a + subs[1].0 + b;
    ReplacedOther(a, subs[1].0, b, subs[0].0, subs[0].1);
    ReplacedSingle(a, subs[1].0, b, subs[1].1);
    assert Substituted(t, subs) == Substituted(a + subs[2].0 + b, subs[2..]);
    SubstitutionsSuffix(subs, 2);
    var later := subs[2..];
    assert DollarFreeValues(later) by {
      forall i | 0 <= i < 3 ensures '$' !in later[i].1 {
        assert later[i] == subs[i + 2];
      }
    }
    SubstitutedSingle(a, b, later, 0);
  }

  // ---- validateConfiguration ----

  /** The problem validateConfiguration reports. */
  datatype ConfigIssue = ModulePathEmpty | ConfigDirEmpty | ModulePathBlank

  /** validateConfiguration: the first failing check, in the source's order. */
  function ValidateConfiguration(config: LoaderConfig): (r: Option<ConfigIssue>)
    ensures r.None? <==> (config.configDir != "" &&
      exists k :: 0 <= k < |config.modulePath.absolutePath| && config.modulePath.absolutePath[k] !in BlankChars)
    ensures r == Some(ModulePathEmpty) <==> config.modulePath.absolutePath == ""
    ensures r == Some(ConfigDirEmpty) <==> config.modulePath.absolutePath != "" && config.configDir == ""
    ensures r == Some(ModulePathBlank) <==> (config.modulePath.absolutePath != "" && config.configDir != "" &&
      forall k :: 0 <= k < |config.modulePath.absolutePath| ==> config.modulePath.absolutePath[k] in BlankChars)
  {
    var m := config.modulePath.absolutePath;
    if m == "" then Some(ModulePathEmpty)
    else if config.configDir == "" then Some(ConfigDirEmpty)
    else if IsBlank(m) then Some(ModulePathBlank)
    else None
  }

  // ---- createWorkingSetupScript ----

  /** Where createWorkingSetupScript writes the script: the file the bootstrap line loads. */
  lemma ScriptIsTheInjectedPath(moduleAbsolutePath: Path)
    ensures LoaderDirectory(moduleAbsolutePath) + "/" + SetupScriptName == SetupScriptPath(moduleAbsolutePath)
    ensures Contains(InjectionLine(moduleAbsolutePath), LoaderDirectory(moduleAbsolutePath) + "/" + SetupScriptName)
  {
  }

  /** How createWorkingSetupScript ended; the source reports it only in its log. */
  datatype SetupOutcome =
    | InvalidConfiguration(issue: ConfigIssue)
    | DirectoryFailure
    | WriteFailure
    | Created

  datatype SetupEffect = SetupEffect(outcome: SetupOutcome, files: map<Path, string>, dirs: set<Path>)

  /**
   * The whole effect of createWorkingSetupScript: nothing on an invalid
   * configuration or when the directory cannot be made; otherwise the old
   * script is removed if it can be, and the new one written if the path is writable.
   */
  ghost function SetupScriptEffect(fsys: FileSystem, config: LoaderConfig, template: string): SetupEffect
    reads fsys
  {
    var m := config.modulePath.absolutePath;
    var loaderDir := LoaderDirectory(m);
    var script := SetupScriptPath(m);
    match ValidateConfiguration(config)
    case Some(issue) => SetupEffect(InvalidConfiguration(issue), fsys.files, fsys.dirs)
    case None =>
      if !fsys.Exists(loaderDir) && fsys.DirectoryCreationFails(loaderDir) then
        SetupEffect(DirectoryFailure, fsys.files, fsys.dirs)
      else
        var dirs := if fsys.Exists(loaderDir) then fsys.dirs else fsys.dirs + {loaderDir};
        var files := if fsys.Exists(script) && fsys.Removable(script) then fsys.files - {script} else fsys.files;
        if script in fsys.readOnly || script in fsys.dirs then SetupEffect(WriteFailure, files, dirs)
        else SetupEffect(Created, files[script := Substituted(template, Substitutions(config, loaderDir))], dirs)
  }

  /** createLoaderDirectory: an existing path counts as success. */
  method CreateLoaderDirectory(fsys: FileSystem, loaderDir: Path) returns (ok: bool)
    requires fsys.Valid()
    modifies fsys
    ensures fsys.Valid()
    ensures ok == (old(fsys.Exists(loaderDir)) || !old(fsys.DirectoryCreationFails(loaderDir)))
    ensures fsys.files == old(fsys.files)
    ensures fsys.dirs == if old(fsys.Exists(loaderDir)) || !ok then old(fsys.dirs) else old(fsys.dirs) + {loaderDir}
  {
    if fsys.Exists(loaderDir) {
      return true;
    }
    ok := fsys.CreateDirectories(loaderDir);
  }

  /** cleanupExistingScript: removes the old script; a missing one counts as success. */
  method CleanupExistingScript(fsys: FileSystem, setupScript: Path) returns (ok: bool)
    requires fsys.Valid()
    modifies fsys
    ensures fsys.Valid()
    ensures ok == (!old(fsys.Exists(setupScript)) || old(fsys.Removable(setupScript)))
    ensures fsys.files == if old(fsys.Exists(setupScript)) && ok then old(fsys.files) - {setupScript} else old(fsys.files)
    ensures fsys.dirs == old(fsys.dirs)
  {
    if fsys.Exists(setupScript) {
      ok := fsys.Remove(setupScript);
    } else {
      ok := true;
    }
  }

  /** writeScriptFile: an ofstream in binary mode receiving the whole script. */
  method WriteScriptFile(fsys: FileSystem, setupScript: Path, luaContent: string) returns (ok: bool)
    requires fsys.Valid()
    modifies fsys
    ensures fsys.Valid()
    ensures ok == old(fsys.Writable(setupScript))
    ensures fsys.files == if ok then old(fsys.files)[setupScript := luaContent] else old(fsys.files)
    ensures fsys.dirs == old(fsys.dirs)
  {
    ok := fsys.WriteFile(setupScript, luaContent);
  }

  /** createWorkingSetupScript, with the embedded Lua template as a parameter. */
  method CreateWorkingSetupScript(fsys: FileSystem, config: LoaderConfig, template: string) returns (outcome: SetupOutcome)
    requires fsys.Valid()
    modifies fsys
    ensures fsys.Valid()
    ensures SetupEffect(outcome, fsys.files, fsys.dirs) == old(SetupScriptEffect(fsys, config, template))
  {
    var issue := ValidateConfiguration(config);
    if issue.Some? {
      return InvalidConfiguration(issue.value);
    }
    var loaderDir := config.modulePath.absolutePath + "/_module_loader";
    // "/module_loader_setup.lua", written as "/" + SetupScriptName to spare the solver a literal comparison
    var setupScript := loaderDir + "/" + SetupScriptName;
    ScriptIsTheInjectedPath(config.modulePath.absolutePath);
    assert loaderDir != setupScript by {
      assert |setupScript| > |loaderDir|;
    }
    var dirCreated := CreateLoaderDirectory(fsys, loaderDir);
    if !dirCreated {
      return DirectoryFailure;
    }
    var _ := CleanupExistingScript(fsys, setupScript);
    var luaContent := GenerateLuaScript(config, loaderDir, template);
    var written := WriteScriptFile(fsys, setupScript, luaContent);
    if !written {
      return WriteFailure;
    }
    return Created;
  }

  /**
   * The abort flow: a configuration failure or a directory failure leaves the
   * file system as it was, and success leaves the generated script at the
   * path the bootstrap line loads.
   */
  lemma SetupAbortFlow(fsys: FileSystem, config: LoaderConfig, template: string)
    ensures var e := SetupScriptEffect(fsys, config, template);
      && (e.outcome.InvalidConfiguration? || e.outcome == DirectoryFailure ==> e.files == fsys.files && e.dirs == fsys.dirs)
      && (e.outcome.InvalidConfiguration? <==> ValidateConfiguration(config).Some?)
      && (e.outcome == Created ==>
            var m := config.modulePath.absolutePath;
            SetupScriptPath(m) in e.files &&
            e.files[SetupScriptPath(m)] == Substituted(template, Substitutions(config, LoaderDirectory(m))))
  {
  }

  /** Nothing but the setup script changes among the files. */
  lemma SetupFrame(fsys: FileSystem, config: LoaderConfig, template: string, p: Path)
    requires p != SetupScriptPath(config.modulePath.absolutePath)
    ensures var e := SetupScriptEffect(fsys, config, template);
      (p in e.files <==> p in fsys.files) && (p in e.files ==> e.files[p] == fsys.files[p])
  {
  }
}
