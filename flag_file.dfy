/** The `.modules_loaded` flag file the generated Lua script uses to load modules once (FlagFile.cpp). */
module FlagFile {
  import opened Text
  import opened Environment

  /** getFlagFilePath: empty for an empty module path. */
  function FlagFilePath(modulePath: Path): (r: Path)
    ensures r == "" <==> modulePath == ""
    ensures modulePath != "" ==> StartsWith(r, modulePath + "/_module_loader/")
    ensures modulePath != "" ==> r[|r| - |"/.modules_loaded"|..] == "/.modules_loaded"
  {
    if modulePath == "" then "" else modulePath + "/_module_loader/.modules_loaded"
  }

  /** What removing the flag of `modulePath` leaves in `files`, errors being swallowed. */
  ghost function FilesAfterFlagRemoval(fsys: FileSystem, modulePath: Path): map<Path, string>
    reads fsys
  {
    var flag := FlagFilePath(modulePath);
    if modulePath != "" && fsys.Exists(flag) && fsys.Removable(flag) then fsys.files - {flag} else fsys.files
  }

  /** clearModuleLoadedFlag: called at load time so the modules are loaded afresh. */
  method ClearModuleLoadedFlag(fsys: FileSystem, modulePath: Path)
    requires fsys.Valid()
    modifies fsys
    ensures fsys.Valid()
    ensures fsys.files == old(FilesAfterFlagRemoval(fsys, modulePath))
    ensures fsys.dirs == old(fsys.dirs)
  {
    if modulePath == "" {
      return;
    }
    var flagFile := FlagFilePath(modulePath);
    if flagFile == "" {
      return;
    }
    if fsys.Exists(flagFile) {
      var _ := fsys.Remove(flagFile);
    }
  }

  /** cleanupFlagFile: the process-exit twin of ClearModuleLoadedFlag, logging at trace level. */
  method CleanupFlagFile(fsys: FileSystem, modulePath: Path)
    requires fsys.Valid()
    modifies fsys
    ensures fsys.Valid()
    ensures fsys.files == old(FilesAfterFlagRemoval(fsys, modulePath))
    ensures fsys.dirs == old(fsys.dirs)
  {
    if modulePath == "" {
      return;
    }
    var flagFile := FlagFilePath(modulePath);
    if flagFile == "" {
      return;
    }
    if fsys.Exists(flagFile) {
      var _ := fsys.Remove(flagFile);
    }
  }
}
