/**
 * `find_minecraft_dir`: the installation directory is the one named by
 * `MINECRAFT_HOME` when that variable is set and the path exists, and
 * otherwise the operating system's default location. The environment, the
 * platform directories and the filesystem are parameters.
 */
module Locate {
  import opened Wrappers
  import opened Text
  import opened Paths

  /** The `cfg!(target_os = ...)` branches. */
  datatype Os = MacOs | Windows | OtherOs

  datatype LocateError =
    | HomeDirectoryUnknown            // `dirs::home_dir` / `dirs::data_dir` gave nothing
    | InstallationNotFound(path: Path) // the default directory does not exist

  const MacOsSubdir := "Library/Application Support/minecraft"
  const DotMinecraft := ".minecraft"

  /**
   * The default installation directory for `os`, built from the home
   * directory (macOS and other systems) or the data directory (Windows);
   * None when the directory it needs is unknown.
   */
  function DefaultDir(os: Os, home: Option<Path>, dataDir: Option<Path>): (r: Option<Path>)
    ensures r.Some? <==> (if os == Windows then dataDir.Some? else home.Some?)
    ensures r.Some? && os == MacOs ==> r.value == home.value + Separator(home.value) + MacOsSubdir
    ensures r.Some? && os == Windows ==> r.value == dataDir.value + Separator(dataDir.value) + DotMinecraft
    ensures r.Some? && os == OtherOs ==> r.value == home.value + Separator(home.value) + DotMinecraft
  {
    match os
    case MacOs => if home.Some? then Some(Join(home.value, MacOsSubdir)) else None
    case Windows => if dataDir.Some? then Some(Join(dataDir.value, DotMinecraft)) else None
    case OtherOs => if home.Some? then Some(Join(home.value, DotMinecraft)) else None
  }

  /**
   * `find_minecraft_dir`. `minecraftHome` is `env::var("MINECRAFT_HOME")`
   * when it succeeds; `present` is the set of paths that exist.
   */
  function FindMinecraftDir(minecraftHome: Option<string>, os: Os, home: Option<Path>, dataDir: Option<Path>,
                            present: set<Path>): (r: Result<Path, LocateError>)
    // Only a directory that exists is ever returned.
    ensures r.Success? ==> r.value in present
    // A set and existing override wins over every default.
    ensures minecraftHome.Some? && minecraftHome.value in present ==> r == Success(minecraftHome.value)
    // Otherwise the answer is the OS default.
    ensures r.Success? && !(minecraftHome.Some? && minecraftHome.value in present) ==>
              DefaultDir(os, home, dataDir) == Some(r.value)
    ensures r == Failure(HomeDirectoryUnknown) <==>
              !(minecraftHome.Some? && minecraftHome.value in present) && DefaultDir(os, home, dataDir).None?
    ensures r.Failure? && r.error.InstallationNotFound? ==>
              DefaultDir(os, home, dataDir) == Some(r.error.path) && r.error.path !in present
  {
    if minecraftHome.Some? && minecraftHome.value in present then Success(minecraftHome.value)
    else
      match DefaultDir(os, home, dataDir)
      case None => Failure(HomeDirectoryUnknown)
      case Some(path) => if path in present then Success(path) else Failure(InstallationNotFound(path))
  }

  /** An override that does not exist is as good as none. */
  lemma MissingOverrideIgnored(minecraftHome: string, os: Os, home: Option<Path>, dataDir: Option<Path>,
                               present: set<Path>)
    requires minecraftHome !in present
    ensures FindMinecraftDir(Some(minecraftHome), os, home, dataDir, present)
         == FindMinecraftDir(None, os, home, dataDir, present)
  {
  }

  /** Locating fails exactly when neither the override nor the default names an existing directory. */
  lemma LocateFailsIffNothingExists(minecraftHome: Option<string>, os: Os, home: Option<Path>,
                                    dataDir: Option<Path>, present: set<Path>)
    ensures FindMinecraftDir(minecraftHome, os, home, dataDir, present).Failure? <==>
              !(minecraftHome.Some? && minecraftHome.value in present) &&
              !(DefaultDir(os, home, dataDir).Some? && DefaultDir(os, home, dataDir).value in present)
  {
  }

  /** On Linux and other systems, a home directory `/home/steve` gives `/home/steve/.minecraft`. */
  lemma LinuxDefault()
    ensures DefaultDir(OtherOs, Some("/home/steve"), None) == Some("/home/steve/.minecraft")
  {
    var home := "/home/steve";
    assert home[|home| - 1] == 'e' && DotMinecraft[0] == '.';
    assert home + "/" + DotMinecraft == "/home/steve/.minecraft";
  }
}
