/**
 * The settings fixed at startup (server.py:14-15, 352): the served root
 * BASE_DIR, which is the working directory, and SHOW_HIDDEN, together with the
 * offset of the host's local time zone from UTC, in seconds, which
 * `time.localtime` applies when `zipfile` dates an archived file. None of them
 * changes while requests are served, so they are one immutable record that
 * every operation receives.
 */
module Config {
  import opened PyStr
  import opened PosixPath

  datatype Config = Config(baseDir: string, showHidden: bool, utcOffset: int)

  /** BASE_DIR is what `os.getcwd()` returns: absolute and normalised. */
  predicate ValidConfig(cfg: Config)
  {
    AbsNormal(cfg.baseDir)
  }

  /** A hidden name starts with '.'. */
  predicate IsHidden(name: string)
  {
    StartsWith(name, ".")
  }

  /** A name that passes the hidden-files filter of the listing and of the archive walk. */
  predicate Visible(cfg: Config, name: string)
  {
    cfg.showHidden || !IsHidden(name)
  }
}
