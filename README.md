# LuaLoader core, modelled in Dafny

LuaLoader is a DLL that hooks a game's Lua runtime. At start-up it does four things:

1. It reads a small TOML file (`ConfigParser.cpp`) that says where the game script and the modules live.
2. It writes a generated Lua setup script into `<modulePath>/_module_loader/` (`LuaSetup.cpp`).
3. It patches the game script `c0000.hks` (`HksInjector.cpp`). The patch is a header block plus one bootstrap line, `dofile('<modulePath>/_module_loader/module_loader_setup.lua')`, and the script is backed up under a timestamped name first.
4. It can record the TOML path in a `.me3` profile (`Me3Utils.cpp`, and an older variant in `DefaultConfig.cpp`).

`Cleanup.cpp` undoes all of this. `FlagFile.cpp` manages the `.modules_loaded` flag that the Lua script uses to load its modules only once. `Logger.cpp` filters log messages by level and by a silent switch.

The model has one module per source file, plus four shared modules:

- `Wrappers` holds `Option`.
- `Text` models the string operations the code uses:
  - `std::string::find`;
  - trimming;
  - `std::getline` line splitting;
  - `tolower`;
  - `std::replace`;
  - `isspace` removal.
- `Environment` holds:
  - a `FileSystem` class with a map of files and a set of directories;
  - a `Host` record carrying the path helpers whose results depend on the machine.
- `Config` holds `PathInfo` and `LoaderConfig`.

How the model is written:

- **Stateful code.** Code that changes the file system or the logger is written as methods of, or on, those classes. Every file-system method's ensures give the whole new state: the `FileSystem` primitives and the single-step LuaSetup methods state it directly, and the compound operations do so through a ghost reference function. The logger methods state their new fields directly. Examples:
  - `InjectionEffect` for `injectIntoHksFile`;
  - `HksCleanupEffect` for `cleanupHksInjection`, and `FullCleanupEffect`, which composes the three cleanup steps on `Disk` values, for `performFullCleanup`;
  - `SetupScriptEffect` for `createWorkingSetupScript`;
  - `Me3Utils.FilesAfterInjection` for both `.me3` rewrites.
- **Loops.** Each loop is a method whose `while`/`for` loop is proved equal to a recursive specification function. Examples:
  - the cleanup scan is proved equal to `Cleanup.Run`;
  - `replaceAll` to `LuaSetup.Replaced`;
  - the `.me3` rewrite to `Me3Utils.Rewritten`;
  - the TOML line loop to `ConfigParser.ApplyEntries`.
- **Lemmas.** The properties the code is meant to have are lemmas about those functions:
  - cleanup undoes injection;
  - injection is idempotent;
  - configuration keys are "last one wins";
  - the rewritten `.me3` file holds exactly one config key line;
  - each template placeholder receives its own value.

## Model

| member | source | states |
|---|---|---|
| Text.Find | Dll1/ConfigParser.cpp:42-43 | `std::string::find`: `Some(i)` is the first occurrence at or after the start position; `None` means there is none |
| Text.Trim | Dll1/ConfigParser.cpp:36-37 | the result is the input with a run of characters of the set removed at each end; it neither starts nor ends with one |
| Text.Lines | Dll1/Cleanup.cpp:28-31 | `getline` splitting yields no lines exactly for empty text |
| Text.LinesNoNewline | Dll1/Cleanup.cpp:28-31 | no line returned by `getline` holds the delimiter |
| Text.LinesOfUnlines | Dll1/Cleanup.cpp:19-52 | reading back lines written by `writeFileLines` gives the same lines, when none holds a '\n' |
| Text.UnlinesOfLines | Dll1/Cleanup.cpp:19-52 | reading and then writing lines gives the original text back when it is empty or ends with '\n' |
| Text.ToLower | Dll1/Me3Utils.cpp:17-22 | same length, with each character mapped by the C-locale `tolower` |
| Text.ReplaceChar | Dll1/DefaultConfig.cpp:77-79 | `std::replace`: same length, each `a` becomes `b`, and no `a` is left when `a != b` |
| Text.RemoveSpaces | Dll1/Me3Utils.cpp:76-77 | the `remove_if(::isspace)` copy holds no space character and is unchanged on text without one |
| Text.RemoveSpacesChar | Dll1/Me3Utils.cpp:76-77 | one character is dropped iff it is a space, and kept otherwise |
| Text.RemoveSpacesAppend | Dll1/Me3Utils.cpp:76-77 | removal works piece by piece: on a concatenation it is the concatenation of the two removals, so with RemoveSpacesChar it keeps exactly the non-space characters in their order |
| Text.TrimIs | Dll1/ConfigParser.cpp:36-37 | trimming gives exactly the slice between the leading and the trailing run of set characters |
| Text.TrimAround | Dll1/ConfigParser.cpp:36-37 | text padded on both sides with set characters trims back to its untrimmed core |
| Logging.SafeLevelName | Dll1/Logger.cpp:26-33 | an in-range level gets its table name; "UNKNOWN" is returned exactly for an out-of-range value |
| Logging.LevelNamesDistinct | Dll1/Logger.cpp:21-23 | every level has a name of its own, and different levels have different names |
| Logging.Logger.constructor | Dll1/Logger.cpp:16-17 | the minimum level starts at Info, and silent mode starts off |
| Logging.Logger.SetLogLevel | Dll1/Logger.cpp:49-51 | sets the minimum level and leaves silent mode alone |
| Logging.Logger.GetLogLevel | Dll1/Logger.cpp:53-55 | returns the current minimum level |
| Logging.Logger.SetSilentMode | Dll1/Logger.cpp:58-65 | sets the flag; turning silent mode on also raises the minimum level to Error, and turning it off does not lower it |
| Logging.Logger.Log | Dll1/Logger.cpp:72-80 | a message is shown iff it is an Error or Brand message, or silent mode is off and its level is at least the minimum |
| Logging.SilentToggleKeepsErrorLevel | Dll1/Logger.cpp:58-80 | from any logger state, switching silent mode on and off again leaves silent mode off and the minimum level at Error, so the message logged next is shown iff it is an Error or Brand message |
| FlagFile.FlagFilePath | Dll1/FlagFile.cpp:12-17 | empty iff the module path is empty; otherwise a path below `<modulePath>/_module_loader/` ending in `/.modules_loaded` |
| FlagFile.ClearModuleLoadedFlag | Dll1/FlagFile.cpp:19-49 | removes the flag when the module path is set and the flag exists and can be removed; otherwise no change, with errors swallowed |
| FlagFile.CleanupFlagFile | Dll1/FlagFile.cpp:51-81 | the same effect as ClearModuleLoadedFlag, at process exit |
| HksInjector.HksPath | Dll1/HksInjector.cpp:117 | the script path is the game script directory followed by `/c0000.hks` |
| HksInjector.SetupScriptPath | Dll1/HksInjector.cpp:170 | the setup script lies below `<modulePath>/_module_loader/` and is a single line when the module path is |
| HksInjector.LoaderDirectory | Dll1/Cleanup.cpp:147 | the generated directory is the one the setup script lies directly inside |
| HksInjector.InjectionLine | Dll1/HksInjector.cpp:170-171 | the bootstrap line starts with `dofile('` and contains the setup script path |
| HksInjector.InjectionLineMarkers | Dll1/Cleanup.cpp:248-249 | the bootstrap line contains both markers that end a block in the cleanup scanner |
| HksInjector.FirstSignal | Dll1/HksInjector.cpp:101-108 | the status is injected iff some signal occurs; it then holds the first such signal and its description |
| HksInjector.CheckInjectionStatus | Dll1/HksInjector.cpp:82-108 | the exact line, then the setup script name, then the four legacy patterns in order: the result is FirstSignal over those six |
| HksInjector.HeaderLines | Dll1/HksInjector.cpp:209-215 | eight lines: seven Lua comments and a blank one; the fifth ends with the config file name and the sixth with the module's relative path |
| HksInjector.NewContent | Dll1/HksInjector.cpp:217 | the new script starts with the header and ends with the original content unchanged |
| HksInjector.NewContentShape | Dll1/HksInjector.cpp:209-217 | the new script contains the bootstrap line |
| HksInjector.InjectedContentIsDetected | Dll1/HksInjector.cpp:84-86 | injected content is always detected, by the exact bootstrap line |
| HksInjector.Timestamp | Dll1/HksInjector.cpp:27-32 | `%Y-%m-%d_%H-%M-%S` gives 19 characters |
| HksInjector.TimestampInjective | Dll1/HksInjector.cpp:27-32 | different valid times give different timestamps |
| HksInjector.BackupFileName | Dll1/HksInjector.cpp:34-40 | the name starts with `<file>.backup_<stamp>`, and `_<context>` follows exactly when the context is non-empty |
| HksInjector.BackupFileNameInjective | Dll1/HksInjector.cpp:34-40 | two backups of one file share a name only for the same second and the same context |
| HksInjector.BackupDirectory | Dll1/HksInjector.cpp:44-51 | the script's own directory when no backup folder is set, otherwise the folder resolved against the config directory |
| HksInjector.BackupPath | Dll1/HksInjector.cpp:62 | the normalised join of the backup directory and the backup file name |
| HksInjector.BackupPathInjective | Dll1/HksInjector.cpp:34-62 | when normalisation is injective, two backups of one script share a path only for the same second and the same context |
| HksInjector.CreateHksBackup | Dll1/HksInjector.cpp:19-73 | validation, then directory creation, then the copy; the result is true iff the copy was made; failed validation changes nothing; no file but the backup copy changes |
| HksInjector.InjectIntoHksFile | Dll1/HksInjector.cpp:110-265 | the files, directories and outcome are exactly those InjectionEffect describes, for every exit path |
| HksInjector.InjectionGuards | Dll1/HksInjector.cpp:112-167 | an early exit happens iff the path is empty or the script cannot be read, and it changes nothing |
| HksInjector.BackupFrame | Dll1/HksInjector.cpp:64-72 | a backup changes no file but its own copy |
| HksInjector.BackupKeepsSource | Dll1/HksInjector.cpp:64-72 | a backup never changes the file it copies |
| HksInjector.InjectionFrame | Dll1/HksInjector.cpp:110-265 | only the script and its two possible backup copies can change |
| HksInjector.ScriptFrame | Dll1/HksInjector.cpp:179-264 | once the script has been read, only the script and its backups can change |
| HksInjector.InjectionWritesScript | Dll1/HksInjector.cpp:179-264 | a successful run found no injection and wrote the header, the bootstrap line and then the original; any other run keeps the script's content; a readable, writable script without the bootstrap line is always injected, even when the backup fails; a script that has it reports AlreadyInjected, and without `backupHKSonLaunch` nothing at all changes |
| HksInjector.InjectionIdempotent | Dll1/HksInjector.cpp:179-197 | what a run writes is detected as injected by the next run |
| HksInjector.InjectTwice | Dll1/HksInjector.cpp:110-265 | after a successful injection, a second run reports AlreadyInjected and the script holds the first run's content |
| Cleanup.Run | Dll1/Cleanup.cpp:233-267 | the scan from line `i`: a banner followed by a `-- Lua Loader` line opens a block, a line holding both markers closes it, and the blank lines after a closed block are skipped; its properties are the lemmas ClosedBlockRemoved, InsideUntilEnd, KeptIsSubsequence, FoundIffStart, NoStartKeepsAll and UnclosedBlockDropsRest |
| Cleanup.InsideUntilEnd | Dll1/Cleanup.cpp:246-263 | inside a block, every line up to the first end line is dropped, and the scan resumes outside a block after the blank lines that follow it |
| Cleanup.ClosedBlockRemoved | Dll1/Cleanup.cpp:233-263 | any closed block is removed with both marker lines, the lines between and the blank lines after it; the scan resumes there, and the first non-blank line after it is kept unless it opens another block |
| Cleanup.SkipBlanks | Dll1/Cleanup.cpp:256-259 | finds the first line from `j` on that is not blank, all lines before it being blank |
| Cleanup.CleanHksLines | Dll1/Cleanup.cpp:228-267 | the for loop's kept lines, found flag and open-block flag are those of Run from line 0 |
| Cleanup.KeptIsSubsequence | Dll1/Cleanup.cpp:233-267 | cleaning only drops lines: the kept lines appear in the input in order |
| Cleanup.FoundIffStart | Dll1/Cleanup.cpp:236-245 | an injection is found iff some line is a banner followed by a `-- Lua Loader` line |
| Cleanup.NoStartKeepsAll | Dll1/Cleanup.cpp:233-267 | without a block start, every line is kept |
| Cleanup.UnclosedBlockDropsRest | Dll1/Cleanup.cpp:246-263 | a block that is never closed drops everything to the end |
| Cleanup.CleanScript | Dll1/Cleanup.cpp:220-224 | the script counts as unreadable (EmptyScript) iff its text is empty |
| Cleanup.NoStartNoRewrite | Dll1/Cleanup.cpp:269-272 | a script without a block start is never rewritten |
| Cleanup.LinesOfNewContent | Dll1/HksInjector.cpp:209-217 | the injected script, read as lines, is the eight header lines, the bootstrap line, a blank line and then the original lines |
| Cleanup.HeaderOpensBlock | Dll1/Cleanup.cpp:236-239 | the header's first two lines form a block start |
| Cleanup.FixedHeaderLinesDoNotClose | Dll1/Cleanup.cpp:248-249 | no fixed header line ends a block |
| Cleanup.ScanThroughHeader | Dll1/Cleanup.cpp:236-262 | the scanner drops the header and the bootstrap line, then continues after the following blank lines |
| Cleanup.CleanupUndoesInjectionLines | Dll1/Cleanup.cpp:233-267 | scanning an injected script keeps exactly the original's lines and reports the injection as found and closed |
| Cleanup.CleanupUndoesInjection | Dll1/Cleanup.cpp:214-289 | cleaning an injected script writes back the original text byte for byte, when the original ends with '\n' |
| Cleanup.CleanedScriptIsStable | Dll1/Cleanup.cpp:214-289 | a second cleanup after cleaning an injected script rewrites nothing |
| Cleanup.CleanupNotIdempotent | Dll1/Cleanup.cpp:233-267 | for a concrete script, the second pass removes lines that the first pass kept |
| Cleanup.CleanupHksInjection | Dll1/Cleanup.cpp:214-289 | the result and the files are those HksCleanupEffect gives: a missing file is clean; an unreadable or empty file fails; no injection means no write |
| Cleanup.FlagIsInsideLoaderDirectory | Dll1/Cleanup.cpp:146-147 | the load flag lies inside the generated directory, which the directory removal deletes |
| Cleanup.CleanupModuleLoaderDirectory | Dll1/Cleanup.cpp:146-182 | the result and the new contents are DirectoryCleanupEffect: a missing directory counts as success; otherwise everything at or below it is removed, and the step fails when `remove_all` throws on a read-only path there; files elsewhere are untouched |
| Cleanup.DirectoryCleanupOutcome | Dll1/Cleanup.cpp:146-182 | the step succeeds iff the directory is missing or no existing path at or below it is read-only; success leaves nothing at or below it |
| Cleanup.FlagFilePaths | Dll1/Cleanup.cpp:185-188 | two distinct locations, the first being getFlagFilePath's |
| Cleanup.CleanupFlagFiles | Dll1/Cleanup.cpp:184-212 | every existing removable flag is removed, and nothing else; the result is false iff some existing flag could not be removed |
| Cleanup.PerformFullCleanup | Dll1/Cleanup.cpp:57-144 | the result, the count and the new files and directories are exactly FullCleanupEffect: each step runs on what the one before left, and the "cleanup" backup is made only when the script exists by then; at most three operations complete, success means all three did, with no paths configured nothing changes, and no file outside the generated directory, the two flags, the script and its backup changes |
| Cleanup.FullCleanupCounts | Dll1/Cleanup.cpp:63-141 | at most three operations complete, success means all three did, and with no path configured the contents are left unchanged |
| Cleanup.FullCleanupFrame | Dll1/Cleanup.cpp:57-144 | a file that is not below the generated directory, not a flag, not the script and not its "cleanup" backup keeps its presence and content |
| Cleanup.FullCleanupRemovesFlags | Dll1/Cleanup.cpp:83-97 | after a successful cleanup neither flag file is left, unless the script or its backup lives at that path |
| Cleanup.FullCleanupScript | Dll1/Cleanup.cpp:99-125 | when the first two steps cannot touch the script, it ends with the cleaned text exactly when it holds an injection and can be read and written, and keeps its content otherwise |
| Cleanup.ScriptStepOnScript | Dll1/Cleanup.cpp:99-125 | the backup before the script step never changes the script, so the cleaning sees the original text |
| Cleanup.FullCleanupRestoresScript | Dll1/Cleanup.cpp:99-125 | a full cleanup of a script that injection wrote gives back the original text, under the conditions of CleanupUndoesInjection |
| LuaSetup.ReplaceAll | Dll1/LuaSetup.cpp:16-25 | the in-place loop computes Replaced: each occurrence is replaced, scanning left to right, and inserted text is never rescanned |
| LuaSetup.ReplacedWithoutOccurrence | Dll1/LuaSetup.cpp:16-25 | a subject without an occurrence is returned unchanged |
| LuaSetup.ReplacedBySelf | Dll1/LuaSetup.cpp:16-25 | replacing a string by itself changes nothing |
| LuaSetup.ReplacedIsNotRescanned | Dll1/LuaSetup.cpp:16-25 | for any subject: with a non-empty search text that occurs, the text up to the first occurrence is kept, the replacement is inserted once, and the scan resumes after the replaced occurrence, never inside the inserted text; with an empty search text or no occurrence the subject is unchanged |
| LuaSetup.ReplacedAtFirst | Dll1/LuaSetup.cpp:20-22 | the first occurrence found is replaced, and the rest of the subject is processed on its own |
| LuaSetup.ReplacedSingleChar | Dll1/LuaSetup.cpp:16-25 | on one-character strings replaceAll agrees with `std::replace` |
| LuaSetup.Placeholder | Dll1/LuaSetup.cpp:236-240 | `${NAME}` starts with '$' and ends with '}' |
| LuaSetup.PlaceholderShape | Dll1/LuaSetup.cpp:236-240 | a placeholder has exactly one '$' and one '}' |
| LuaSetup.PlaceholderInjective | Dll1/LuaSetup.cpp:236-240 | different names give different placeholders |
| LuaSetup.Substitutions | Dll1/LuaSetup.cpp:236-240 | five substitutions, in the source's order |
| LuaSetup.GenerateLuaScript | Dll1/LuaSetup.cpp:234-243 | the five replaceAll calls compute Substituted over Substitutions |
| LuaSetup.SubstitutionKeys | Dll1/LuaSetup.cpp:236-240 | the five placeholders are well formed and distinct |
| LuaSetup.SubstitutedDollarFree | Dll1/LuaSetup.cpp:236-240 | template text without '$' passes through unchanged |
| LuaSetup.SubstitutedSingle | Dll1/LuaSetup.cpp:236-240 | a placeholder amid '$'-free text receives its own value and nothing else |
| LuaSetup.GeneratedValueInPlace | Dll1/LuaSetup.cpp:234-243 | each placeholder gets its configured value when no value holds a '$' |
| LuaSetup.SubstitutionOrderMatters | Dll1/LuaSetup.cpp:237-238 | a module path that spells `${CONFIG_DIR}` is expanded again by the later pass |
| LuaSetup.ValidateConfiguration | Dll1/LuaSetup.cpp:28-48 | no issue iff the config directory is set and the module path has a non-blank character; an empty module path is reported first, then an empty config directory, then a blank module path, each as an if-and-only-if |
| LuaSetup.ScriptIsTheInjectedPath | Dll1/LuaSetup.cpp:302-303 | the script is written to the same file the bootstrap line loads |
| LuaSetup.CreateLoaderDirectory | Dll1/LuaSetup.cpp:51-74 | an existing path (file or directory) counts as success; otherwise it succeeds iff creation does not fail, and adds the directory |
| LuaSetup.CleanupExistingScript | Dll1/LuaSetup.cpp:77-93 | removes the old script; a missing one counts as success |
| LuaSetup.WriteScriptFile | Dll1/LuaSetup.cpp:247-289 | succeeds iff the path is writable, and then stores the whole script |
| LuaSetup.CreateWorkingSetupScript | Dll1/LuaSetup.cpp:292-330 | the outcome and new state are SetupScriptEffect: validate, create the directory, remove the old script (non-fatal), write |
| LuaSetup.SetupAbortFlow | Dll1/LuaSetup.cpp:295-311 | a validation or directory failure changes nothing; on success the generated script is at the setup script path |
| LuaSetup.SetupFrame | Dll1/LuaSetup.cpp:292-330 | no file but the setup script changes |
| ConfigParser.StripQuotes | Dll1/ConfigParser.cpp:54-61 | a value opening with a quote that recurs is cut to the text before the next matching quote; any other value is kept |
| ConfigParser.StripQuotedValue | Dll1/ConfigParser.cpp:54-61 | `"v"` followed by anything gives `v` when `v` holds no '"' |
| ConfigParser.ParseLine | Dll1/ConfigParser.cpp:36-61 | no entry iff the trimmed line is empty, a comment, a section or has no '='; a key holds no '=' and is trimmed |
| ConfigParser.ParseWrittenLine | Dll1/ConfigParser.cpp:36-61 | a line `key = value`, with any blank padding around the key, the '=' and the value, and with a trimmed key and value, parses back to that key and the value unquoted |
| ConfigParser.Apply | Dll1/ConfigParser.cpp:63-95 | a key never changes the config directory, the config file or the cleanup flag |
| ConfigParser.ParseAll | Dll1/ConfigParser.cpp:34-61 | each line is parsed on its own |
| ConfigParser.ApplyEntries | Dll1/ConfigParser.cpp:34-96 | applying the entries never changes the config directory or the config file |
| ConfigParser.FoldStep | Dll1/ConfigParser.cpp:34-96 | the fold over the first k+1 entries is one more step after the first k |
| ConfigParser.ApplyFrame | Dll1/ConfigParser.cpp:63-95 | each setting changes only under its own key |
| ConfigParser.FoundGameScriptPathIff | Dll1/ConfigParser.cpp:63-66 | the game path is found iff some entry has key `scriptPath` or `gameScriptPath` |
| ConfigParser.FoundModulePathIff | Dll1/ConfigParser.cpp:73-76 | the module path is found iff some entry has key `modulePath` |
| ConfigParser.LastGameScriptPathWins | Dll1/ConfigParser.cpp:63-66 | the last entry under either game key decides the game path and its resolved absolute path |
| ConfigParser.LastModulePathWins | Dll1/ConfigParser.cpp:73-76 | the last `modulePath` entry decides the module path |
| ConfigParser.LastBackupFlagWins | Dll1/ConfigParser.cpp:88-91 | the last `backupHKSonLaunch` entry decides the flag: true iff its value is "true" or "1" |
| ConfigParser.LastBackupFolderWins | Dll1/ConfigParser.cpp:92-95 | the last `backupHKSFolder` entry decides the folder |
| ConfigParser.SilentModeIff | Dll1/ConfigParser.cpp:83-87 | silent mode ends on iff it was on or some `silent` entry is "true" or "1"; it is never switched off |
| ConfigParser.Start | Dll1/ConfigParser.cpp:15-32 | neither path has been found at the start |
| ConfigParser.ParseOutcome | Dll1/ConfigParser.cpp:14-32 | the config directory and the config file are always set from the TOML path, whether or not the file opens |
| ConfigParser.FinishAfterEntries | Dll1/ConfigParser.cpp:98-108 | from the start state, the final check succeeds iff some entry names a game path; on success without a `modulePath` entry, the module path is the game path |
| ConfigParser.ParseOutcomeSucceedsIff | Dll1/ConfigParser.cpp:14-111 | success iff the file opens and names a game path; on success without a module path, the module path is the game path |
| ConfigParser.ApplyKey | Dll1/ConfigParser.cpp:63-95 | the key dispatch computes Apply, and switches the logger to silent and Error only for an enabling `silent` entry |
| ConfigParser.ApplyConfigLines | Dll1/ConfigParser.cpp:34-96 | the getline loop computes ApplyEntries over the parsed lines, and the logger ends silent iff it was silent or some line asked for it |
| ConfigParser.ParseTomlConfig | Dll1/ConfigParser.cpp:14-111 | the result and the config are ParseOutcome of the file's content, or of None when it cannot be opened; the logger's state follows the `silent` entries |
| Me3Utils.KeyLine | Dll1/Me3Utils.cpp:83 | the line contains `luaLoaderConfigPath`, and is a single line when the path is |
| Me3Utils.ToLowerCopy | Dll1/Me3Utils.cpp:17-22 | the transform over the copy computes ToLower |
| Me3Utils.Kept | Dll1/Me3Utils.cpp:66-71 | keeps, from the input, the lines that do not mention the key; it is the identity when no line does |
| Me3Utils.KeptAppend | Dll1/Me3Utils.cpp:66-71 | the filtering works line by line |
| Me3Utils.ScanInjectedIff | Dll1/Me3Utils.cpp:79-87 | the loop inserts iff a kept line is a profileVersion line |
| Me3Utils.ScanShape | Dll1/Me3Utils.cpp:65-88 | without insertion the loop yields the kept lines; with insertion, the block follows the first profileVersion line |
| Me3Utils.RewrittenShape | Dll1/Me3Utils.cpp:65-97 | the result is the kept lines with the block inserted after the first profileVersion line, or with the appended block at the end when there is none |
| Me3Utils.FirstProfileExtends | Dll1/Me3Utils.cpp:79-80 | the first profileVersion line stays first as lines are added |
| Me3Utils.FirstProfileNew | Dll1/Me3Utils.cpp:79-80 | a profileVersion line after none becomes the first one |
| Me3Utils.FirstProfileUnique | Dll1/Me3Utils.cpp:79-80 | there is only one first profileVersion line |
| Me3Utils.CountKeyLines | Dll1/Me3Utils.cpp:66 | the number of lines that mention the key is at most the number of lines |
| Me3Utils.CountKeyLinesAppend | Dll1/Me3Utils.cpp:66 | the count adds over concatenation |
| Me3Utils.CommentsDoNotMentionKey | Dll1/Me3Utils.cpp:82 | neither comment mentions the key |
| Me3Utils.ExactlyOneKeyLine | Dll1/Me3Utils.cpp:65-97 | the rewritten lines hold exactly one key line, whatever the input held |
| Me3Utils.RewrittenLinesOrigin | Dll1/Me3Utils.cpp:65-97 | every output line is a kept input line, a line of the inserted or appended block, or the key line |
| Me3Utils.WrittenFileReadsBack | Dll1/Me3Utils.cpp:106-108 | the written file reads back as the same lines |
| Me3Utils.RewriteMe3Lines | Dll1/Me3Utils.cpp:65-97 | the getline loop computes Rewritten |
| Me3Utils.MakePathRelative | Dll1/Me3Utils.cpp:25-41 | a relative path holds no '\\'; when the computation throws, the result is the file name |
| Me3Utils.InjectTomlPathToMe3 | Dll1/Me3Utils.cpp:43-118 | the files are FilesAfterInjection with the relative path: an unreadable or unwritable file is left alone |
| Me3Utils.InjectedFileHasOneKeyLine | Dll1/Me3Utils.cpp:65-97 | the rewritten file holds exactly one key line |
| DefaultConfig.CommentDoesNotMentionKey | Dll1/DefaultConfig.cpp:98 | this variant's comment does not mention the key |
| DefaultConfig.NormalizeSlashes | Dll1/DefaultConfig.cpp:77-79 | every backslash becomes '/', and none is left |
| DefaultConfig.InjectTomlPathToMe3 | Dll1/DefaultConfig.cpp:66-125 | the files are FilesAfterInjection with this variant's comment and the slash-normalised path |
| DefaultConfig.InjectedFileHasOneKeyLine | Dll1/DefaultConfig.cpp:82-113 | the file this variant writes holds exactly one key line |

## Left out

- Log text, the console and the branding banners only report what happened. The model returns the branch taken as an outcome value, or states the visible effect.
- `getTimeString` and the console output of `log`: only the level filter is modelled.
- `Logging.Logger.IsSilentMode` reads the flag and has no contract beyond that.
- Paths are handled by host functions that are parameters, not definitions: `normalizePath`, `resolvePathWithFallbacks` (PathUtils.cpp is not part of this model), `fs::path::filename`, `fs::path::parent_path`, `fs::absolute`, `fs::relative` and `validateHKSForBackup`.
- The clock is a `DateTime` parameter. Years outside 1000-9999 are excluded so that `%Y` gives four digits.
- The embedded `LUA_TEMPLATE` is a parameter of `GenerateLuaScript`, and the Lua it contains is not modelled.
- Stream I/O is modelled as one read of the whole file, or one write that either succeeds or fails. Failures are fixed sets of read-only and unreadable paths. Partial writes, `bad()` after writing, and text-mode CR/LF translation are not modelled.
- Environment.FileSystem.CreateDirectories records only the requested directory, not its missing parents. `fs::remove` on a directory is treated as a failure.
- Cleanup.CleanupModuleLoaderDirectory: the count of files, which only feeds a log line, is left out.
- Cleanup.CleanupModuleLoaderDirectory: when `remove_all` throws on a read-only path, the source may already have deleted part of the tree; the model keeps the whole tree in that case, because which part goes first depends on the directory iteration order.
- Me3Utils.InjectTomlPathToMe3: `foundExistingConfig` only picks a log message and is not modelled.
- Me3Utils.MakePathRelative: on the fallback path the result is `host.fileName(tomlPath)`, which the model leaves unconstrained, so it does not state that the fallback holds no backslash. On Windows, `filename()` splits on '\\' as well, so the source's fallback has none. What `fs::relative` returns is also up to the host.
- DefaultConfig.InjectTomlPathToMe3 shares the line rewrite with Me3Utils; the comment line is a parameter. Its `toLower` (DefaultConfig.cpp:59-64) is the same function as Me3Utils' and is modelled once, by `Me3Utils.ToLowerCopy`.
- `generateDefaultConfigToml` (DefaultConfig.cpp:13-56) writes a fixed text to a path and is not modelled.
- `debugHksFile` (Cleanup.cpp:291-340) only logs, and is not modelled.
- Thread safety and the DLL entry point (LuaLoader.cpp) are not part of this model.
