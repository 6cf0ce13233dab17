/**
 * The .me3 rewrite of Me3Utils.cpp: every `luaLoaderConfigPath` line is
 * dropped and one fresh key line is placed after the first profileVersion
 * line, or appended at the end. The line rewrite is shared with the older
 * variant in DefaultConfig.cpp, which differs only in its comment and in
 * the path it stores.
 */
module Me3Utils {
  import opened Wrappers
  import opened Text
  import opened Environment

  // The string constants below are written as joined pieces: the verifier
  // then proves what it needs about them (which characters they hold, that
  // one does not occur in another) from the short pieces instead of
  // comparing one long literal character by character.

  /** The .me3 key that carries the TOML path. */
  const ConfigKey := "luaLoader" + "ConfigPath"

  /** The comment Me3Utils writes above a key line inserted after profileVersion. */
  const InsertedComment := "# LuaLoader " + "Configuration " + "(relative path " + "for portability)"

  /** The comment both variants write above a key line appended at the end. */
  const AppendedComment := "# --- Added " + "by LuaLoader ---"

  /** `luaLoaderConfigPath = "<path>"` */
  function KeyLine(path: string): (r: string)
    ensures Contains(r, ConfigKey)
    ensures '\n' !in path ==> '\n' !in r
  {
    var tail := " = \"" + path + "\"";
    assert '\n' !in ConfigKey;
    assert '\n' !in path ==> '\n' !in tail;
    SeqAssoc(ConfigKey, " = \"" + path, "\"");
    SeqAssoc(ConfigKey, " = \"", path);
    ContainsPrefix(ConfigKey, tail);
    ConfigKey + tail
  }

  /**
   * toLower: a copy of `str` with each character lowered in place, one
   * index at a time.
   */
  method ToLowerCopy(str: string) returns (res: string)
    ensures res == ToLower(str)
  {
    res := str;
    for k := 0 to |res|
      invariant |res| == |str|
      invariant forall j :: 0 <= j < k ==> res[j] == LowerChar(str[j])
      invariant forall j :: k <= j < |res| ==> res[j] == str[j]
    {
      res := res[k := LowerChar(res[k])];
    }
  }

  /**
   * The line after which the key is inserted: its lowercase form contains
   * "profileversion", or starts with "profileversion=" once all white space
   * is removed.
   */
  predicate IsProfileVersionLine(line: string) {
    Contains(ToLower(line), "profileversion") || StartsWith(RemoveSpaces(ToLower(line)), "profileversion=")
  }

  /** The four lines inserted after the profileVersion line. */
  function InsertedBlock(comment: string, keyLine: string): seq<string> {
    ["", comment, keyLine, ""]
  }

  /** The three lines appended when no profileVersion line is kept. */
  function AppendedBlock(keyLine: string): seq<string> {
    ["", AppendedComment, keyLine]
  }

  /** What the getline loop has built so far: the output lines and the `injected` flag. */
  datatype Rewrite = Rewrite(lines: seq<string>, injected: bool)

  /** The getline loop over `input`, as a fold from the first line to the last. */
  function Scan(input: seq<string>, comment: string, keyLine: string): Rewrite
    decreases |input|
  {
    if input == [] then Rewrite([], false)
    else
      var prev := Scan(input[..|input| - 1], comment, keyLine);
      var line := input[|input| - 1];
      if Contains(line, ConfigKey) then prev
      else if !prev.injected && IsProfileVersionLine(line) then
        Rewrite(prev.lines + [line] + InsertedBlock(comment, keyLine), true)
      else Rewrite(prev.lines + [line], prev.injected)
  }

  /** The lines written back: the loop's output, followed by the appended block if nothing was inserted. */
  function Rewritten(input: seq<string>, comment: string, keyLine: string): seq<string> {
    var s := Scan(input, comment, keyLine);
    if s.injected then s.lines else s.lines + AppendedBlock(keyLine)
  }

  /** The input lines that survive: those that do not mention the key, in their order. */
  function Kept(input: seq<string>): (r: seq<string>)
    ensures |r| <= |input|
    ensures forall k :: 0 <= k < |r| ==> !Contains(r[k], ConfigKey) && r[k] in input
    ensures (forall k :: 0 <= k < |input| ==> !Contains(input[k], ConfigKey)) ==> r == input
    decreases |input|
  {
    if input == [] then []
    else
      var init := input[..|input| - 1];
      var line := input[|input| - 1];
      assert input == init + [line];
      Kept(init) + (if Contains(line, ConfigKey) then [] else [line])
  }

  /** Kept filters line by line, so it keeps the order of the input. */
  lemma {:induction false} KeptAppend(a: seq<string>, b: seq<string>)
    ensures Kept(a + b) == Kept(a) + Kept(b)
    decreases |b|
  {
    if b == [] {
      assert a + b == a;
    } else {
      var init := b[..|b| - 1];
      assert (a + b)[..|a + b| - 1] == a + init;
      assert (a + b)[|a + b| - 1] == b[|b| - 1];
      KeptAppend(a, init);
      SeqAssoc(Kept(a), Kept(init), if Contains(b[|b| - 1], ConfigKey) then [] else [b[|b| - 1]]);
    }
  }

  predicate HasProfileLine(ks: seq<string>) {
    exists k :: 0 <= k < |ks| && IsProfileVersionLine(ks[k])
  }

  /** `p` is the first profileVersion line of `ks`. */
  predicate FirstProfileAt(ks: seq<string>, p: int) {
    0 <= p < |ks| && IsProfileVersionLine(ks[p]) && forall q :: 0 <= q < p ==> !IsProfileVersionLine(ks[q])
  }

  /** The line appended to the kept lines. */
  lemma KeptStep(input: seq<string>)
    requires input != []
    ensures var init, line := input[..|input| - 1], input[|input| - 1];
      Kept(input) == if Contains(line, ConfigKey) then Kept(init) else Kept(init) + [line]
  {
  }

  /** Whether the loop inserted: iff some surviving line is a profileVersion line. */
  lemma {:induction false} ScanInjectedIff(input: seq<string>, comment: string, keyLine: string)
    ensures Scan(input, comment, keyLine).injected <==> HasProfileLine(Kept(input))
    decreases |input|
  {
    if input != [] {
      var init, line := input[..|input| - 1], input[|input| - 1];
      ScanInjectedIff(init, comment, keyLine);
      KeptStep(input);
      var ks0, ks := Kept(init), Kept(input);
      if !Contains(line, ConfigKey) {
        forall k | 0 <= k < |ks0| ensures ks[k] == ks0[k] {
        }
        assert ks[|ks0|] == line;
      }
    }
  }

  /** A line appended after the inserted block stays after it. */
  lemma AppendAfterBlock(ks0: seq<string>, block: seq<string>, p: nat, line: string)
    requires p < |ks0|
    ensures var ks := ks0 + [line];
      ks0[..p + 1] + block + ks0[p + 1..] + [line] == ks[..p + 1] + block + ks[p + 1..]
  {
    var ks := ks0 + [line];
    assert ks[..p + 1] == ks0[..p + 1];
    assert ks[p + 1..] == ks0[p + 1..] + [line];
  }

  /**
   * The loop keeps the surviving lines in order and inserts the block once,
   * right after the first surviving profileVersion line.
   */
  lemma {:induction false} ScanShape(input: seq<string>, comment: string, keyLine: string)
    ensures var s := Scan(input, comment, keyLine); var ks := Kept(input);
      && (!s.injected ==> s.lines == ks)
      && (s.injected ==> exists p :: (FirstProfileAt(ks, p) &&
            s.lines == ks[..p + 1] + InsertedBlock(comment, keyLine) + ks[p + 1..]))
    decreases |input|
  {
    if input != [] {
      var init, line := input[..|input| - 1], input[|input| - 1];
      ScanShape(init, comment, keyLine);
      ScanInjectedIff(init, comment, keyLine);
      KeptStep(input);
      var prev := Scan(init, comment, keyLine);
      var ks0, ks := Kept(init), Kept(input);
      var block := InsertedBlock(comment, keyLine);
      if !Contains(line, ConfigKey) {
        if !prev.injected && IsProfileVersionLine(line) {
          FirstProfileNew(ks0, line);
          var p := |ks0|;
          assert ks[..p + 1] == ks && ks[p + 1..] == [];
        } else if prev.injected {
          var p :| FirstProfileAt(ks0, p) && prev.lines == ks0[..p + 1] + block + ks0[p + 1..];
          FirstProfileExtends(ks0, p, line);
          AppendAfterBlock(ks0, block, p, line);
        }
      }
    }
  }

  /** The first profileVersion line stays the first one when a line is appended. */
  lemma FirstProfileExtends(ks0: seq<string>, p: int, line: string)
    requires FirstProfileAt(ks0, p)
    ensures FirstProfileAt(ks0 + [line], p)
  {
    var ks := ks0 + [line];
    forall q | 0 <= q < p ensures !IsProfileVersionLine(ks[q]) {
      assert ks[q] == ks0[q];
    }
    assert ks[p] == ks0[p];
  }

  /** An appended profileVersion line is the first one when none came before. */
  lemma FirstProfileNew(ks0: seq<string>, line: string)
    requires !HasProfileLine(ks0) && IsProfileVersionLine(line)
    ensures FirstProfileAt(ks0 + [line], |ks0|)
  {
    var ks := ks0 + [line];
    forall q | 0 <= q < |ks0| ensures !IsProfileVersionLine(ks[q]) {
      assert ks[q] == ks0[q];
    }
  }

  /**
   * The lines written back in closed form: the surviving lines with the
   * four-line block after the first profileVersion line, or with the
   * three-line block after the last line when there is none.
   */
  lemma RewrittenShape(input: seq<string>, comment: string, keyLine: string)
    ensures var ks := Kept(input); var r := Rewritten(input, comment, keyLine);
      && (!HasProfileLine(ks) ==> r == ks + AppendedBlock(keyLine))
      && (HasProfileLine(ks) ==> exists p :: FirstProfileAt(ks, p))
      && forall p :: FirstProfileAt(ks, p) ==> r == ks[..p + 1] + InsertedBlock(comment, keyLine) + ks[p + 1..]
  {
    ScanShape(input, comment, keyLine);
    ScanInjectedIff(input, comment, keyLine);
    var ks := Kept(input);
    var block := InsertedBlock(comment, keyLine);
    var lines := Scan(input, comment, keyLine).lines;
    forall p | FirstProfileAt(ks, p)
      ensures Rewritten(input, comment, keyLine) == ks[..p + 1] + block + ks[p + 1..]
    {
      var q :| FirstProfileAt(ks, q) && lines == ks[..q + 1] + block + ks[q + 1..];
      FirstProfileUnique(ks, p, q);
    }
  }

  /** There is only one first profileVersion line. */
  lemma FirstProfileUnique(ks: seq<string>, p: int, q: int)
    requires FirstProfileAt(ks, p) && FirstProfileAt(ks, q)
    ensures p == q
  {
  }

  /** The number of lines that mention the key. */
  function CountKeyLines(ls: seq<string>): (n: nat)
    ensures n <= |ls|
  {
    if ls == [] then 0 else (if Contains(ls[0], ConfigKey) then 1 else 0) + CountKeyLines(ls[1..])
  }

  lemma {:induction false} CountKeyLinesAppend(a: seq<string>, b: seq<string>)
    ensures CountKeyLines(a + b) == CountKeyLines(a) + CountKeyLines(b)
  {
    if a != [] {
      assert (a + b)[0] == a[0] && (a + b)[1..] == a[1..] + b;
      CountKeyLinesAppend(a[1..], b);
    } else {
      assert a + b == b;
    }
  }

  lemma {:induction false} CountKeyLinesNone(ls: seq<string>)
    requires forall k :: 0 <= k < |ls| ==> !Contains(ls[k], ConfigKey)
    ensures CountKeyLines(ls) == 0
  {
    if ls != [] {
      CountKeyLinesNone(ls[1..]);
    }
  }

  /** Neither fixed comment mentions the key: neither holds a 'P'. */
  lemma CommentsDoNotMentionKey()
    ensures !Contains(InsertedComment, ConfigKey) && !Contains(AppendedComment, ConfigKey)
  {
    assert 'P' in ConfigKey;
    NotContainsByChar(InsertedComment, ConfigKey, 'P');
    NotContainsByChar(AppendedComment, ConfigKey, 'P');
  }

  /** The inserted block mentions the key once, in its key line. */
  lemma CountInsertedBlock(comment: string, keyLine: string)
    requires !Contains(comment, ConfigKey) && Contains(keyLine, ConfigKey)
    ensures CountKeyLines(InsertedBlock(comment, keyLine)) == 1
  {
    assert !Contains("", ConfigKey);
    var b3: seq<string> := [""];
    assert CountKeyLines(b3) == 0 by { assert b3[1..] == []; }
    var b2 := [keyLine] + b3;
    assert CountKeyLines(b2) == 1 by { assert b2[1..] == b3; }
    var b1 := [comment] + b2;
    assert CountKeyLines(b1) == 1 by { assert b1[1..] == b2; }
    var b0 := [""] + b1;
    assert CountKeyLines(b0) == 1 by { assert b0[1..] == b1; }
    assert InsertedBlock(comment, keyLine) == b0;
  }

  /** The appended block mentions the key once, in its key line. */
  lemma CountAppendedBlock(keyLine: string)
    requires Contains(keyLine, ConfigKey)
    ensures CountKeyLines(AppendedBlock(keyLine)) == 1
  {
    CommentsDoNotMentionKey();
    assert !Contains("", ConfigKey);
    var b2: seq<string> := [keyLine];
    assert CountKeyLines(b2) == 1 by { assert b2[1..] == []; }
    var b1 := [AppendedComment] + b2;
    assert CountKeyLines(b1) == 1 by { assert b1[1..] == b2; }
    var b0 := [""] + b1;
    assert CountKeyLines(b0) == 1 by { assert b0[1..] == b1; }
    assert AppendedBlock(keyLine) == b0;
  }

  /**
   * Whatever the input, the lines written back mention the key exactly once,
   * provided the inserted comment does not mention it.
   */
  lemma ExactlyOneKeyLine(input: seq<string>, comment: string, path: string)
    requires !Contains(comment, ConfigKey)
    ensures CountKeyLines(Rewritten(input, comment, KeyLine(path))) == 1
  {
    var keyLine := KeyLine(path);
    var ks := Kept(input);
    var r := Rewritten(input, comment, keyLine);
    RewrittenShape(input, comment, keyLine);
    if HasProfileLine(ks) {
      var p :| FirstProfileAt(ks, p);
      var a, b := ks[..p + 1], ks[p + 1..];
      var block := InsertedBlock(comment, keyLine);
      assert r == a + block + b;
      CountKeyLinesNone(a);
      CountKeyLinesNone(b);
      CountInsertedBlock(comment, keyLine);
      CountKeyLinesAppend(a, block);
      CountKeyLinesAppend(a + block, b);
    } else {
      CountKeyLinesNone(ks);
      CountAppendedBlock(keyLine);
      CountKeyLinesAppend(ks, AppendedBlock(keyLine));
    }
  }

  /** Every line written back is an input line or one of the fixed and key lines. */
  lemma RewrittenLinesOrigin(input: seq<string>, comment: string, keyLine: string)
    ensures forall k :: 0 <= k < |Rewritten(input, comment, keyLine)| ==>
      var line := Rewritten(input, comment, keyLine)[k];
      line in input || line == "" || line == comment || line == keyLine || line == AppendedComment
  {
    var ks := Kept(input);
    var r := Rewritten(input, comment, keyLine);
    RewrittenShape(input, comment, keyLine);
    forall k | 0 <= k < |r|
      ensures r[k] in input || r[k] == "" || r[k] == comment || r[k] == keyLine || r[k] == AppendedComment
    {
      assert r[k] in r;
      if HasProfileLine(ks) {
        var p :| FirstProfileAt(ks, p);
        assert forall x :: x in ks[..p + 1] || x in ks[p + 1..] ==> x in ks;
      }
    }
  }

  /**
   * The file written back reads back as the rewritten lines, so the next
   * launch sees exactly one key line.
   */
  lemma WrittenFileReadsBack(content: string, comment: string, path: string)
    requires '\n' !in comment && '\n' !in path
    ensures var r := Rewritten(Lines(content), comment, KeyLine(path)); Lines(Unlines(r)) == r
  {
    var input := Lines(content);
    var r := Rewritten(input, comment, KeyLine(path));
    LinesNoNewline(content);
    RewrittenLinesOrigin(input, comment, KeyLine(path));
    assert '\n' !in AppendedComment;
    forall k | 0 <= k < |r| ensures '\n' !in r[k] {
      if r[k] in input {
        var j :| 0 <= j < |input| && input[j] == r[k];
      }
    }
    LinesOfUnlines(r, "");
    assert Unlines(r) + "" == Unlines(r);
  }

  /**
   * The getline loop: drop key lines, keep the others, and insert the block
   * once after the first profileVersion line; append the other block when
   * none was found.
   */
  method RewriteMe3Lines(input: seq<string>, comment: string, keyLine: string) returns (lines: seq<string>)
    ensures lines == Rewritten(input, comment, keyLine)
  {
    lines := [];
    var injected := false;
    var i := 0;
    while i < |input|
      invariant 0 <= i <= |input|
      invariant Rewrite(lines, injected) == Scan(input[..i], comment, keyLine)
      decreases |input| - i
    {
      assert input[..i + 1][..i] == input[..i];
      var line := input[i];
      i := i + 1;
      if Contains(line, ConfigKey) {
        continue;
      }
      lines := lines + [line];
      var lowerLine := ToLowerCopy(line);
      var trimmedLower := RemoveSpaces(lowerLine);
      if !injected && (Contains(lowerLine, "profileversion") || StartsWith(trimmedLower, "profileversion=")) {
        lines := lines + ["", comment, keyLine, ""];
        injected := true;
      }
    }
    assert input[..|input|] == input;
    if !injected {
      lines := lines + ["", AppendedComment, keyLine];
    }
  }

  /**
   * makePathRelative: the TOML path relative to the .me3 file's directory
   * with forward slashes, or the bare file name when fs::relative throws.
   */
  function MakePathRelative(host: Host, me3Path: Path, tomlPath: Path): (r: string)
    ensures host.relative(host.absolute(tomlPath), host.parentPath(me3Path)).Some? ==> '\\' !in r
    ensures host.relative(host.absolute(tomlPath), host.parentPath(me3Path)).None? ==> r == host.fileName(tomlPath)
  {
    match host.relative(host.absolute(tomlPath), host.parentPath(me3Path))
    case Some(rel) => ReplaceChar(rel, '\\', '/')
    case None => host.fileName(tomlPath)
  }

  /** The files after the .me3 file at `me3Path` is rewritten to store `path`. */
  ghost function FilesAfterInjection(fsys: FileSystem, me3Path: Path, comment: string, path: string): map<Path, string>
    reads fsys
  {
    if fsys.Readable(me3Path) && fsys.Writable(me3Path) then
      fsys.files[me3Path := Unlines(Rewritten(Lines(fsys.files[me3Path]), comment, KeyLine(path)))]
    else fsys.files
  }

  /**
   * injectTomlPathToMe3: read the .me3 file, rewrite its lines around the
   * relative TOML path and write them back, each followed by "\n"; a file
   * that cannot be opened for reading or for writing is left as it is.
   */
  method InjectTomlPathToMe3(fsys: FileSystem, me3Path: Path, tomlPath: Path, host: Host)
    requires fsys.Valid()
    modifies fsys
    ensures fsys.Valid()
    ensures fsys.files == old(FilesAfterInjection(fsys, me3Path, InsertedComment, MakePathRelative(host, me3Path, tomlPath)))
    ensures fsys.dirs == old(fsys.dirs)
  {
    var content := fsys.ReadFile(me3Path);
    if content.None? {
      return;
    }
    var pathToStore := MakePathRelative(host, me3Path, tomlPath);
    var lines := RewriteMe3Lines(Lines(content.value), InsertedComment, KeyLine(pathToStore));
    var _ := fsys.WriteFile(me3Path, Unlines(lines));
  }

  /** The .me3 file Me3Utils writes mentions the key exactly once. */
  lemma InjectedFileHasOneKeyLine(input: seq<string>, path: string)
    ensures CountKeyLines(Rewritten(input, InsertedComment, KeyLine(path))) == 1
  {
    CommentsDoNotMentionKey();
    ExactlyOneKeyLine(input, InsertedComment, path);
  }
}
