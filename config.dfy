/** The loader's configuration record (ConfigParser.h). */
module Config {

  /** A configured path as written, as resolved, and the directory it was resolved against. */
  datatype PathInfo = PathInfo(relativePath: string, absolutePath: string, basePath: string)

  const EmptyPath := PathInfo("", "", "")

  datatype LoaderConfig = LoaderConfig(
    gameScriptPath: PathInfo,
    modulePath: PathInfo,
    configFile: string,
    configDir: string,
    silentMode: bool,
    backupHKSonLaunch: bool,
    backupHKSFolder: string,
    cleanupOnNextLaunch: bool)

  /** The member initialisers of LoaderConfig. */
  const Defaults := LoaderConfig(EmptyPath, EmptyPath, "", "", false, true, "", false)
}
