/**
 * The older injectTomlPathToMe3 of DefaultConfig.cpp: the same .me3 line
 * rewrite as Me3Utils, storing the TOML path as given with its backslashes
 * turned into forward slashes, under a comment of its own.
 */
module DefaultConfig {
  import opened Text
  import opened Environment
  import Me3Utils

  // The comment is joined from pieces around its only 'P' so that the proof
  // that it does not mention the key looks at short pieces, not at one long
  // literal character by character.

  /** The comment this variant writes above a key line inserted after profileVersion. */
  const InsertedComment := CommentHead + "P" + CommentTail

  const CommentHead := "# LuaLoader Toml "
  const CommentTail := "ath Configuration " + "(paths can be " + "relative (to .me3 " + "file) or absolute)"

  /**
   * The comment does not mention the key: its only 'P' follows the 17
   * characters of CommentHead, the key's 'P' is at index 15, so a match could
   * only start at index 2, which holds 'L' where the key starts with 'l'.
   */
  lemma CommentDoesNotMentionKey()
    ensures !Contains(InsertedComment, Me3Utils.ConfigKey)
  {
    assert |CommentHead| == 17 && CommentHead[2] == 'L' && 'P' !in CommentHead;
    assert 'P' !in CommentTail;
    assert |Me3Utils.ConfigKey| == 19 && Me3Utils.ConfigKey[0] == 'l' && Me3Utils.ConfigKey[15] == 'P';
    NotContainsAround(CommentHead, 'P', CommentTail, Me3Utils.ConfigKey, 15);
  }

  /** std::replace(..., '\\', '/') over a copy of the path, one index at a time. */
  method NormalizeSlashes(tomlPath: Path) returns (normTomlPath: Path)
    ensures normTomlPath == ReplaceChar(tomlPath, '\\', '/')
    ensures '\\' !in normTomlPath
  {
    normTomlPath := tomlPath;
    for k := 0 to |normTomlPath|
      invariant |normTomlPath| == |tomlPath|
      invariant forall j :: 0 <= j < k ==> normTomlPath[j] == if tomlPath[j] == '\\' then '/' else tomlPath[j]
      invariant forall j :: k <= j < |normTomlPath| ==> normTomlPath[j] == tomlPath[j]
    {
      if normTomlPath[k] == '\\' {
        normTomlPath := normTomlPath[k := '/'];
      }
    }
  }

  /**
   * injectTomlPathToMe3 (DefaultConfig.cpp): read the .me3 file, rewrite its
   * lines around the slash-normalised TOML path and write them back; a file
   * that cannot be opened for reading or for writing is left as it is.
   */
  method InjectTomlPathToMe3(fsys: FileSystem, me3Path: Path, tomlPath: Path)
    requires fsys.Valid()
    modifies fsys
    ensures fsys.Valid()
    ensures fsys.files == old(Me3Utils.FilesAfterInjection(fsys, me3Path, InsertedComment, ReplaceChar(tomlPath, '\\', '/')))
    ensures fsys.dirs == old(fsys.dirs)
  {
    var content := fsys.ReadFile(me3Path);
    if content.None? {
      return;
    }
    var normTomlPath := NormalizeSlashes(tomlPath);
    var lines := Me3Utils.RewriteMe3Lines(Lines(content.value), InsertedComment, Me3Utils.KeyLine(normTomlPath));
    var _ := fsys.WriteFile(me3Path, Unlines(lines));
  }

  /** The .me3 file this variant writes mentions the key exactly once, whatever it held before. */
  lemma InjectedFileHasOneKeyLine(input: seq<string>, tomlPath: Path)
    ensures Me3Utils.CountKeyLines(Me3Utils.Rewritten(input, InsertedComment,
      Me3Utils.KeyLine(ReplaceChar(tomlPath, '\\', '/')))) == 1
  {
    CommentDoesNotMentionKey();
    Me3Utils.ExactlyOneKeyLine(input, InsertedComment, ReplaceChar(tomlPath, '\\', '/'));
  }
}
