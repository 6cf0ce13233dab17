/**
 * The TOML-subset reader of ConfigParser.cpp: `key = value` lines, trimmed
 * of spaces and tabs, with comments, section headers and lines without '='
 * skipped, one level of quotes stripped, and five keys dispatched into the
 * LoaderConfig.
 */
module ConfigParser {
  import opened Wrappers
  import opened Text
  import opened Environment
  import opened Config
  import opened Logging

  /** The characters parseTomlConfig trims: " \t". */
  const TomlBlank: set<char> := {' ', '\t'}

  /** A `key = value` line after trimming and quote stripping. */
  datatype Entry = Entry(key: string, value: string)

  /** The value opens with a double or a single quote. */
  predicate OpensQuote(value: string) {
    value != "" && (value[0] == '"' || value[0] == '\'')
  }

  /**
   * The quote stripping: a value that opens with a quote and closes it again
   * becomes the text strictly between the first two quotes, so anything after
   * the closing quote (a trailing comment, say) is dropped; otherwise the
   * value is kept as it is.
   */
  function StripQuotes(value: string): (r: string)
    ensures OpensQuote(value) && value[0] in value[1..] ==>
      |r| + 1 < |value| && r == value[1..|r| + 1] && value[|r| + 1] == value[0] && value[0] !in r
    ensures !(OpensQuote(value) && value[0] in value[1..]) ==> r == value
  {
    if OpensQuote(value) then
      match Find(value, [value[0]], 1)
      case None =>
        assert value[0] !in value[1..] by {
          forall k | 1 <= k < |value| ensures value[k] != value[0] {
            MatchesCharAt(value, value[0], k);
          }
        }
        value
      case Some(e) =>
        MatchesCharAt(value, value[0], e);
        var r := value[1..e];
        assert value[0] !in r by {
          forall k | 1 <= k < e ensures value[k] != value[0] {
            MatchesCharAt(value, value[0], k);
          }
        }
        r
    else value
  }

  /** The line as parseTomlConfig sees it once it is trimmed. */
  function TrimmedLine(line: string): string {
    Trim(line, TomlBlank)
  }

  /** A trimmed line that is empty, a comment or a section header is skipped. */
  predicate Skipped(t: string) {
    t == "" || t[0] == '#' || t[0] == '['
  }

  /**
   * One line of the loop body: None for a skipped line or one without '=',
   * otherwise the trimmed key before the first '=' and the trimmed, unquoted
   * value after it.
   */
  function ParseLine(line: string): (r: Option<Entry>)
    ensures r.None? <==> Skipped(TrimmedLine(line)) || '=' !in TrimmedLine(line)
    ensures r.Some? ==> '=' !in r.value.key
    ensures r.Some? && r.value.key != "" ==> r.value.key[0] !in TomlBlank && r.value.key[|r.value.key| - 1] !in TomlBlank
  {
    var t := TrimmedLine(line);
    if Skipped(t) then None
    else
      FindCharFacts(t, '=', 0);
      match Find(t, "=", 0)
      case None => None
      case Some(eq) =>
        var before := t[..eq];
        assert '=' !in before;
        TrimKeepsOut(before, TomlBlank, '=');
        Some(Entry(Trim(before, TomlBlank), StripQuotes(Trim(t[eq + 1..], TomlBlank))))
  }

  /** Trimming text that neither starts nor ends with a trimmed character is the identity. */
  lemma TrimmedAlready(s: string, cs: set<char>)
    requires s == "" || (s[0] !in cs && s[|s| - 1] !in cs)
    ensures Trim(s, cs) == s
  {
    assert TrimStartIndex(s, cs, 0) == 0;
    assert TrimEndIndex(s, cs, 0, |s|) == |s|;
    assert s[0..|s|] == s;
  }

  /** What is left of a written line once its outer blanks are trimmed. */
  function WrittenCore(key: string, p2: string, p3: string, raw: string): string {
    (key + p2) + "=" + (if raw == "" then "" else p3 + raw)
  }

  /** A written line trims to its core. */
  lemma WrittenLineTrims(p1: string, key: string, p2: string, p3: string, raw: string, p4: string)
    requires AllIn(p1, TomlBlank) && AllIn(p3, TomlBlank) && AllIn(p4, TomlBlank)
    requires key != "" && key[0] !in TomlBlank
    requires raw == "" || raw[|raw| - 1] !in TomlBlank
    ensures TrimmedLine(p1 + key + p2 + "=" + p3 + raw + p4) == WrittenCore(key, p2, p3, raw)
  {
    var t := WrittenCore(key, p2, p3, raw);
    assert t[0] == key[0];
    if raw == "" {
      assert p1 + key + p2 + "=" + p3 + raw + p4 == p1 + t + (p3 + p4);
      assert AllIn(p3 + p4, TomlBlank) by {
        forall k | 0 <= k < |p3 + p4| ensures (p3 + p4)[k] in TomlBlank {
          if k < |p3| { assert (p3 + p4)[k] == p3[k]; } else { assert (p3 + p4)[k] == p4[k - |p3|]; }
        }
      }
      assert t[|t| - 1] == '=';
      TrimAround(p1, t, p3 + p4, TomlBlank);
    } else {
      assert p1 + key + p2 + "=" + p3 + raw + p4 == p1 + t + p4;
      assert t[|t| - 1] == raw[|raw| - 1];
      TrimAround(p1, t, p4, TomlBlank);
    }
  }

  /** Text joined at a character splits back at that character's index. */
  lemma JoinedSplits(x: string, c: char, y: string)
    ensures (x + [c] + y)[|x|] == c
    ensures (x + [c] + y)[..|x|] == x && (x + [c] + y)[|x| + 1..] == y
  {
  }

  /** The first '=' of a written line's core is the one after the key. */
  lemma WrittenCoreFindsEquals(key: string, p2: string, p3: string, raw: string)
    requires AllIn(p2, TomlBlank) && '=' !in key
    ensures Find(WrittenCore(key, p2, p3, raw), "=", 0) == Some(|key| + |p2|)
  {
    var t := WrittenCore(key, p2, p3, raw);
    JoinedSplits(key + p2, '=', if raw == "" then "" else p3 + raw);
    forall k | 0 <= k < |key| + |p2| ensures t[k] != '=' {
      if k < |key| {
        assert t[k] == key[k];
      } else {
        assert t[k] == p2[k - |key|];
      }
    }
    FindCharAt(t, '=', |key| + |p2|);
  }

  /** A key followed by blanks trims to the key. */
  lemma TrimKeyHalf(key: string, p2: string)
    requires AllIn(p2, TomlBlank)
    requires key != "" && key[0] !in TomlBlank && key[|key| - 1] !in TomlBlank
    ensures Trim(key + p2, TomlBlank) == key
  {
    var half := key + p2;
    assert AllInRange(half, TomlBlank, |key|, |half|) by {
      forall k | |key| <= k < |half| ensures half[k] in TomlBlank {
        assert half[k] == p2[k - |key|];
      }
    }
    TrimIs(half, TomlBlank, 0, |key|);
    assert half[0..|key|] == key;
  }

  /** Blanks followed by a value trim to the value. */
  lemma TrimValueHalf(p3: string, raw: string)
    requires AllIn(p3, TomlBlank)
    requires raw == "" || (raw[0] !in TomlBlank && raw[|raw| - 1] !in TomlBlank)
    ensures Trim(if raw == "" then "" else p3 + raw, TomlBlank) == raw
  {
    if raw == "" {
      TrimIs("", TomlBlank, 0, 0);
    } else {
      var rest := p3 + raw;
      assert AllInRange(rest, TomlBlank, 0, |p3|) by {
        forall k | 0 <= k < |p3| ensures rest[k] in TomlBlank {
          assert rest[k] == p3[k];
        }
      }
      assert rest[|p3|] == raw[0] && rest[|rest| - 1] == raw[|raw| - 1];
      TrimIs(rest, TomlBlank, |p3|, |rest|);
      assert rest[|p3|..|rest|] == raw;
    }
  }

  /** The key half of a written line's core trims to the key. */
  lemma WrittenCoreKey(key: string, p2: string, p3: string, raw: string)
    requires AllIn(p2, TomlBlank)
    requires key != "" && key[0] !in TomlBlank && key[|key| - 1] !in TomlBlank
    ensures Trim(WrittenCore(key, p2, p3, raw)[..|key| + |p2|], TomlBlank) == key
  {
    JoinedSplits(key + p2, '=', if raw == "" then "" else p3 + raw);
    TrimKeyHalf(key, p2);
  }

  /** The value half of a written line's core trims to the value. */
  lemma WrittenCoreValue(key: string, p2: string, p3: string, raw: string)
    requires AllIn(p3, TomlBlank)
    requires raw == "" || (raw[0] !in TomlBlank && raw[|raw| - 1] !in TomlBlank)
    ensures Trim(WrittenCore(key, p2, p3, raw)[|key| + |p2| + 1..], TomlBlank) == raw
  {
    JoinedSplits(key + p2, '=', if raw == "" then "" else p3 + raw);
    TrimValueHalf(p3, raw);
  }

  /** ParseLine once the trimmed line is known not to be skipped and its first '=' and both halves are known. */
  lemma ParseLineAt(line: string, t: string, eq: nat, key: string, raw: string)
    requires TrimmedLine(line) == t && !Skipped(t) && Find(t, "=", 0) == Some(eq)
    requires eq < |t| && Trim(t[..eq], TomlBlank) == key && Trim(t[eq + 1..], TomlBlank) == raw
    ensures ParseLine(line) == Some(Entry(key, StripQuotes(raw)))
  {
  }

  /** A written line's core starts with its key, so it is not skipped. */
  lemma WrittenCoreNotSkipped(key: string, p2: string, p3: string, raw: string)
    requires key != "" && key[0] != '#' && key[0] != '['
    ensures !Skipped(WrittenCore(key, p2, p3, raw))
  {
    JoinedSplits(key + p2, '=', if raw == "" then "" else p3 + raw);
    assert WrittenCore(key, p2, p3, raw)[0] == key[0];
  }

  /** A line that trims to a written core reads back as its key and value. */
  lemma ParseWrittenCore(line: string, key: string, p2: string, p3: string, raw: string)
    requires TrimmedLine(line) == WrittenCore(key, p2, p3, raw)
    requires AllIn(p2, TomlBlank) && AllIn(p3, TomlBlank)
    requires key != "" && key[0] !in TomlBlank && key[|key| - 1] !in TomlBlank
    requires key[0] != '#' && key[0] != '[' && '=' !in key
    requires raw == "" || (raw[0] !in TomlBlank && raw[|raw| - 1] !in TomlBlank)
    ensures ParseLine(line) == Some(Entry(key, StripQuotes(raw)))
  {
    WrittenCoreNotSkipped(key, p2, p3, raw);
    WrittenCoreFindsEquals(key, p2, p3, raw);
    WrittenCoreKey(key, p2, p3, raw);
    WrittenCoreValue(key, p2, p3, raw);
    ParseLineAt(line, WrittenCore(key, p2, p3, raw), |key| + |p2|, key, raw);
  }

  /**
   * The key and the value a line is written with are the ones it is read back
   * with, whatever runs of blanks surround the key, the '=' and the value.
   */
  lemma ParseWrittenLine(p1: string, key: string, p2: string, p3: string, raw: string, p4: string)
    requires AllIn(p1, TomlBlank) && AllIn(p2, TomlBlank) && AllIn(p3, TomlBlank) && AllIn(p4, TomlBlank)
    requires key != "" && key[0] !in TomlBlank && key[|key| - 1] !in TomlBlank
    requires key[0] != '#' && key[0] != '[' && '=' !in key
    requires raw == "" || (raw[0] !in TomlBlank && raw[|raw| - 1] !in TomlBlank)
    ensures ParseLine(p1 + key + p2 + "=" + p3 + raw + p4) == Some(Entry(key, StripQuotes(raw)))
  {
    WrittenLineTrims(p1, key, p2, p3, raw, p4);
    ParseWrittenCore(p1 + key + p2 + "=" + p3 + raw + p4, key, p2, p3, raw);
  }

  /** A double-quoted value followed by a comment reads back as the text between the quotes. */
  lemma StripQuotedValue(v: string, rest: string)
    requires '"' !in v
    ensures StripQuotes("\"" + v + "\"" + rest) == v
  {
    var value := "\"" + v + "\"" + rest;
    assert value[|v| + 1] == '"';
    assert value[0] in value[1..] by {
      assert value[1..][|v|] == '"';
    }
    var r := StripQuotes(value);
    assert value[1..|v| + 1] == v;
    assert forall k :: 0 <= k < |v| ==> value[k + 1] == v[k];
  }

  // ---- Key dispatch ----

  /** What the loop carries: the configuration and the two found flags. */
  datatype ParseState = ParseState(config: LoaderConfig, foundGameScriptPath: bool, foundModulePath: bool)

  predicate IsGameScriptKey(key: string) {
    key == "scriptPath" || key == "gameScriptPath"
  }

  /** The value enables silent mode: only "true" and "1" do. */
  predicate IsTrue(value: string) {
    value == "true" || value == "1"
  }

  /** The key dispatch of the loop body. */
  function Apply(st: ParseState, e: Entry, host: Host): (r: ParseState)
    ensures r.config.configDir == st.config.configDir && r.config.configFile == st.config.configFile
    ensures r.config.cleanupOnNextLaunch == st.config.cleanupOnNextLaunch
  {
    var dir := st.config.configDir;
    if IsGameScriptKey(e.key) then
      st.(config := st.config.(gameScriptPath := PathInfo(e.value, host.resolvePathWithFallbacks(e.value, dir), dir)),
          foundGameScriptPath := true)
    else if e.key == "modulePath" then
      st.(config := st.config.(modulePath := PathInfo(e.value, host.resolvePathWithFallbacks(e.value, dir), dir)),
          foundModulePath := true)
    else if e.key == "silent" && IsTrue(e.value) then
      st.(config := st.config.(silentMode := true))
    else if e.key == "backupHKSonLaunch" then
      st.(config := st.config.(backupHKSonLaunch := IsTrue(e.value)))
    else if e.key == "backupHKSFolder" then
      st.(config := st.config.(backupHKSFolder := e.value))
    else st
  }

  /** A line's effect: a skipped or unparsable line (None) changes nothing. */
  function ApplyEntry(st: ParseState, e: Option<Entry>, host: Host): ParseState {
    match e
    case None => st
    case Some(entry) => Apply(st, entry, host)
  }

  /** The parsed lines of the file, one per line. */
  function ParseAll(lines: seq<string>): (r: seq<Option<Entry>>)
    ensures |r| == |lines| && forall k :: 0 <= k < |lines| ==> r[k] == ParseLine(lines[k])
  {
    seq(|lines|, k requires 0 <= k < |lines| => ParseLine(lines[k]))
  }

  /** The loop over the parsed lines, as a fold from the first line to the last. */
  function ApplyEntries(st: ParseState, es: seq<Option<Entry>>, host: Host): (r: ParseState)
    ensures r.config.configDir == st.config.configDir && r.config.configFile == st.config.configFile
    decreases |es|
  {
    if es == [] then st else ApplyEntry(ApplyEntries(st, es[..|es| - 1], host), es[|es| - 1], host)
  }

  /** The entry turns silent mode on. */
  predicate EnablesSilent(e: Option<Entry>) {
    e.Some? && e.value.key == "silent" && IsTrue(e.value.value)
  }

  /** Some entry among `es` turns silent mode on. */
  function SilentRequested(es: seq<Option<Entry>>): bool
    decreases |es|
  {
    es != [] && (SilentRequested(es[..|es| - 1]) || EnablesSilent(es[|es| - 1]))
  }

  /** The entry sets the game script path, under either of its names. */
  predicate SetsGameScriptPath(e: Option<Entry>) {
    e.Some? && IsGameScriptKey(e.value.key)
  }

  predicate SetsKey(e: Option<Entry>, key: string) {
    e.Some? && e.value.key == key
  }

  /** One more line of the fold. */
  lemma FoldStep(st: ParseState, es: seq<Option<Entry>>, k: nat, host: Host)
    requires k < |es|
    ensures ApplyEntries(st, es[..k + 1], host) == ApplyEntry(ApplyEntries(st, es[..k], host), es[k], host)
    ensures SilentRequested(es[..k + 1]) == (SilentRequested(es[..k]) || EnablesSilent(es[k]))
  {
    assert es[..k + 1][..k] == es[..k];
    assert es[..k + 1][k] == es[k];
  }

  /** An entry leaves every setting alone except the one its key names. */
  lemma ApplyFrame(st: ParseState, e: Option<Entry>, host: Host)
    ensures var r := ApplyEntry(st, e, host);
      && (!SetsGameScriptPath(e) ==> r.config.gameScriptPath == st.config.gameScriptPath)
      && (!SetsKey(e, "modulePath") ==> r.config.modulePath == st.config.modulePath)
      && (!SetsKey(e, "backupHKSonLaunch") ==> r.config.backupHKSonLaunch == st.config.backupHKSonLaunch)
      && (!SetsKey(e, "backupHKSFolder") ==> r.config.backupHKSFolder == st.config.backupHKSFolder)
  {
  }

  /** The script path is found iff some line sets it, under either name. */
  lemma {:induction false} FoundGameScriptPathIff(st: ParseState, es: seq<Option<Entry>>, host: Host)
    ensures ApplyEntries(st, es, host).foundGameScriptPath <==>
      st.foundGameScriptPath || exists k :: 0 <= k < |es| && SetsGameScriptPath(es[k])
    decreases |es|
  {
    if es != [] {
      var init := es[..|es| - 1];
      FoundGameScriptPathIff(st, init, host);
      forall k | 0 <= k < |init| ensures init[k] == es[k] {
      }
    }
  }

  /** The module path is found iff some line sets it. */
  lemma {:induction false} FoundModulePathIff(st: ParseState, es: seq<Option<Entry>>, host: Host)
    ensures ApplyEntries(st, es, host).foundModulePath <==>
      st.foundModulePath || exists k :: 0 <= k < |es| && SetsKey(es[k], "modulePath")
    decreases |es|
  {
    if es != [] {
      var init := es[..|es| - 1];
      FoundModulePathIff(st, init, host);
      forall k | 0 <= k < |init| ensures init[k] == es[k] {
      }
    }
  }

  /**
   * The last line that sets the script path, under either name, decides it:
   * its value, resolved against the config directory.
   */
  lemma {:induction false} LastGameScriptPathWins(st: ParseState, es: seq<Option<Entry>>, host: Host, i: nat)
    requires i < |es| && SetsGameScriptPath(es[i])
    requires forall k :: i < k < |es| ==> !SetsGameScriptPath(es[k])
    ensures var v := es[i].value.value;
      ApplyEntries(st, es, host).config.gameScriptPath ==
        PathInfo(v, host.resolvePathWithFallbacks(v, st.config.configDir), st.config.configDir)
    decreases |es|
  {
    var init := es[..|es| - 1];
    if i < |es| - 1 {
      forall k | i < k < |init| ensures !SetsGameScriptPath(init[k]) {
        assert init[k] == es[k];
      }
      assert init[i] == es[i];
      LastGameScriptPathWins(st, init, host, i);
      ApplyFrame(ApplyEntries(st, init, host), es[|es| - 1], host);
    }
  }

  /** The last modulePath line decides the module path. */
  lemma {:induction false} LastModulePathWins(st: ParseState, es: seq<Option<Entry>>, host: Host, i: nat)
    requires i < |es| && SetsKey(es[i], "modulePath")
    requires forall k :: i < k < |es| ==> !SetsKey(es[k], "modulePath")
    ensures var v := es[i].value.value;
      ApplyEntries(st, es, host).config.modulePath ==
        PathInfo(v, host.resolvePathWithFallbacks(v, st.config.configDir), st.config.configDir)
    decreases |es|
  {
    var init := es[..|es| - 1];
    if i < |es| - 1 {
      forall k | i < k < |init| ensures !SetsKey(init[k], "modulePath") {
        assert init[k] == es[k];
      }
      assert init[i] == es[i];
      LastModulePathWins(st, init, host, i);
      ApplyFrame(ApplyEntries(st, init, host), es[|es| - 1], host);
    }
  }

  /** The last backupHKSonLaunch line decides the flag: on for "true" or "1", off for anything else. */
  lemma {:induction false} LastBackupFlagWins(st: ParseState, es: seq<Option<Entry>>, host: Host, i: nat)
    requires i < |es| && SetsKey(es[i], "backupHKSonLaunch")
    requires forall k :: i < k < |es| ==> !SetsKey(es[k], "backupHKSonLaunch")
    ensures ApplyEntries(st, es, host).config.backupHKSonLaunch == IsTrue(es[i].value.value)
    decreases |es|
  {
    var init := es[..|es| - 1];
    if i < |es| - 1 {
      forall k | i < k < |init| ensures !SetsKey(init[k], "backupHKSonLaunch") {
        assert init[k] == es[k];
      }
      assert init[i] == es[i];
      LastBackupFlagWins(st, init, host, i);
      ApplyFrame(ApplyEntries(st, init, host), es[|es| - 1], host);
    }
  }

  /** The last backupHKSFolder line decides the folder, stored as written. */
  lemma {:induction false} LastBackupFolderWins(st: ParseState, es: seq<Option<Entry>>, host: Host, i: nat)
    requires i < |es| && SetsKey(es[i], "backupHKSFolder")
    requires forall k :: i < k < |es| ==> !SetsKey(es[k], "backupHKSFolder")
    ensures ApplyEntries(st, es, host).config.backupHKSFolder == es[i].value.value
    decreases |es|
  {
    var init := es[..|es| - 1];
    if i < |es| - 1 {
      forall k | i < k < |init| ensures !SetsKey(init[k], "backupHKSFolder") {
        assert init[k] == es[k];
      }
      assert init[i] == es[i];
      LastBackupFolderWins(st, init, host, i);
      ApplyFrame(ApplyEntries(st, init, host), es[|es| - 1], host);
    }
  }

  /**
   * Silent mode only ever turns on: it ends up set iff it was set before or
   * some line says `silent = true` or `silent = 1`.
   */
  lemma {:induction false} SilentModeIff(st: ParseState, es: seq<Option<Entry>>, host: Host)
    ensures ApplyEntries(st, es, host).config.silentMode == (st.config.silentMode || SilentRequested(es))
    decreases |es|
  {
    if es != [] {
      var init := es[..|es| - 1];
      SilentModeIff(st, init, host);
      var prev := ApplyEntries(st, init, host);
      assert ApplyEntries(st, es, host) == ApplyEntry(prev, es[|es| - 1], host);
      assert SilentRequested(es) == (SilentRequested(init) || EnablesSilent(es[|es| - 1]));
    }
  }

  // ---- parseTomlConfig ----

  /** The configuration before the first line: the config directory and file recorded. */
  function Start(config: LoaderConfig, tomlPath: Path, host: Host): (r: ParseState)
    ensures !r.foundGameScriptPath && !r.foundModulePath
  {
    ParseState(config.(configDir := host.normalizePath(host.parentPath(tomlPath)), configFile := tomlPath), false, false)
  }

  /**
   * parseTomlConfig over the file's text (None when it cannot be opened):
   * whether it succeeded, and the configuration it leaves behind, which keeps
   * the partial updates on failure as the reference argument does.
   */
  function ParseOutcome(config: LoaderConfig, tomlPath: Path, content: Option<string>, host: Host): (r: (bool, LoaderConfig))
    ensures r.1.configDir == host.normalizePath(host.parentPath(tomlPath)) && r.1.configFile == tomlPath
  {
    var st := Start(config, tomlPath, host);
    match content
    case None => (false, st.config)
    case Some(text) => Finish(ApplyEntries(st, ParseAll(Lines(text)), host))
  }

  /** The checks after the loop: a game script path is required, and the module path defaults to it. */
  function Finish(fin: ParseState): (bool, LoaderConfig) {
    if !fin.foundGameScriptPath then (false, fin.config)
    else if !fin.foundModulePath then (true, fin.config.(modulePath := fin.config.gameScriptPath))
    else (true, fin.config)
  }

  /**
   * The checks after the loop over any parsed lines: success iff a line names
   * the game script path; without a `modulePath` line the module path is the
   * game script path.
   */
  lemma FinishAfterEntries(st: ParseState, es: seq<Option<Entry>>, host: Host)
    requires !st.foundGameScriptPath && !st.foundModulePath
    ensures var r := Finish(ApplyEntries(st, es, host));
      r.0 <==> exists k :: 0 <= k < |es| && SetsGameScriptPath(es[k])
    ensures var r := Finish(ApplyEntries(st, es, host));
      r.0 && (forall k :: 0 <= k < |es| ==> !SetsKey(es[k], "modulePath")) ==> r.1.modulePath == r.1.gameScriptPath
  {
    FoundGameScriptPathIff(st, es, host);
    FoundModulePathIff(st, es, host);
  }

  /**
   * parseTomlConfig succeeds exactly when the file opens and one of its
   * entries names the game script path; on success a file without a
   * `modulePath` entry leaves the module path equal to the game script path.
   */
  lemma ParseOutcomeSucceedsIff(config: LoaderConfig, tomlPath: Path, content: Option<string>, host: Host)
    ensures var r := ParseOutcome(config, tomlPath, content, host);
      r.0 <==> content.Some? && var es := ParseAll(Lines(content.value));
      exists k :: 0 <= k < |es| && SetsGameScriptPath(es[k])
    ensures var r := ParseOutcome(config, tomlPath, content, host);
      r.0 ==> var es := ParseAll(Lines(content.value));
      (forall k :: 0 <= k < |es| ==> !SetsKey(es[k], "modulePath")) ==> r.1.modulePath == r.1.gameScriptPath
  {
    if content.Some? {
      FinishAfterEntries(Start(config, tomlPath, host), ParseAll(Lines(content.value)), host);
    }
  }

  /**
   * The first half of the loop body: trim the line, skip comments, section
   * headers and lines without '=', split at the first '=', trim both halves
   * and strip the value's quotes.
   */
  method ParseConfigLine(rawLine: string) returns (e: Option<Entry>)
    ensures e == ParseLine(rawLine)
  {
    var line := Trim(rawLine, TomlBlank);
    if line == "" || line[0] == '#' || line[0] == '[' {
      return None;
    }
    var eq := Find(line, "=", 0);
    if eq.None? {
      return None;
    }
    var key := Trim(line[..eq.value], TomlBlank);
    var value := Trim(line[eq.value + 1..], TomlBlank);
    value := StripQuotes(value);
    return Some(Entry(key, value));
  }

  /**
   * The if-chain of the loop body: one entry dispatched on its key; a
   * `silent` entry that turns silent mode on also tells the logger.
   */
  method ApplyKey(st: ParseState, e: Entry, host: Host, logger: Logger) returns (r: ParseState)
    modifies logger
    ensures r == Apply(st, e, host)
    ensures EnablesSilent(Some(e)) ==> logger.silent && logger.minLevel == Error
    ensures !EnablesSilent(Some(e)) ==> logger.silent == old(logger.silent) && logger.minLevel == old(logger.minLevel)
  {
    var key := e.key;
    var value := e.value;
    var outConfig := st.config;
    r := st;
    if key == "scriptPath" || key == "gameScriptPath" {
      var absolutePath := host.resolvePathWithFallbacks(value, outConfig.configDir);
      r := r.(config := outConfig.(gameScriptPath := PathInfo(value, absolutePath, outConfig.configDir)),
              foundGameScriptPath := true);
    } else if key == "modulePath" {
      var absolutePath := host.resolvePathWithFallbacks(value, outConfig.configDir);
      r := r.(config := outConfig.(modulePath := PathInfo(value, absolutePath, outConfig.configDir)),
              foundModulePath := true);
    } else if key == "silent" && (value == "true" || value == "1") {
      r := r.(config := outConfig.(silentMode := true));
      logger.SetSilentMode(true);
    } else if key == "backupHKSonLaunch" {
      r := r.(config := outConfig.(backupHKSonLaunch := value == "true" || value == "1"));
    } else if key == "backupHKSFolder" {
      r := r.(config := outConfig.(backupHKSFolder := value));
    }
  }

  /**
   * The getline loop of parseTomlConfig: each line parsed and dispatched in
   * turn; a `silent = true` line also switches the logger to silent mode.
   */
  method ApplyConfigLines(lines: seq<string>, start: ParseState, host: Host, logger: Logger) returns (st: ParseState)
    modifies logger
    ensures st == ApplyEntries(start, ParseAll(lines), host)
    ensures logger.silent == (old(logger.silent) || SilentRequested(ParseAll(lines)))
    ensures logger.minLevel == if SilentRequested(ParseAll(lines)) then Error else old(logger.minLevel)
  {
    ghost var entries := ParseAll(lines);
    st := start;
    var i := 0;
    while i < |lines|
      invariant 0 <= i <= |lines|
      invariant st == ApplyEntries(start, entries[..i], host)
      invariant logger.silent == (old(logger.silent) || SilentRequested(entries[..i]))
      invariant logger.minLevel == if SilentRequested(entries[..i]) then Error else old(logger.minLevel)
      decreases |lines| - i
    {
      FoldStep(start, entries, i, host);
      var entry := ParseConfigLine(lines[i]);
      i := i + 1;
      if entry.None? {
        continue;
      }
      st := ApplyKey(st, entry.value, host, logger);
    }
    assert entries[..|lines|] == entries;
  }

  /**
   * parseTomlConfig: record the config directory and file, read the TOML
   * file line by line, fail without a script path, and default the module
   * path to the script path.
   */
  method ParseTomlConfig(fsys: FileSystem, tomlPath: Path, config: LoaderConfig, host: Host, logger: Logger)
    returns (ok: bool, outConfig: LoaderConfig)
    modifies logger
    ensures (ok, outConfig) == ParseOutcome(config, tomlPath,
      if fsys.Readable(tomlPath) then Some(fsys.files[tomlPath]) else None, host)
    ensures var requested := fsys.Readable(tomlPath) && SilentRequested(ParseAll(Lines(fsys.files[tomlPath])));
      && logger.silent == (old(logger.silent) || requested)
      && logger.minLevel == if requested then Error else old(logger.minLevel)
  {
    outConfig := config.(configDir := host.normalizePath(host.parentPath(tomlPath)), configFile := tomlPath);
    var content := fsys.ReadFile(tomlPath);
    if content.None? {
      return false, outConfig;
    }
    var st := ApplyConfigLines(Lines(content.value), ParseState(outConfig, false, false), host, logger);
    outConfig := st.config;
    if !st.foundGameScriptPath {
      return false, outConfig;
    }
    if !st.foundModulePath {
      outConfig := outConfig.(modulePath := outConfig.gameScriptPath);
    }
    return true, outConfig;
  }
}
