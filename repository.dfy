/**
 * The cloned repository as the walkers see it.  `os.walk` is replaced by
 * the list of every file under the repository root in walk order; a file
 * is reached exactly when no directory on its way down is one of
 * `DEFAULT_SKIP_DIRS`, because both walkers prune those names from `dirs`
 * before descending.
 */
module Repository {
  import opened Wrappers
  import opened Text
  import opened Encoding

  /** `DEFAULT_SKIP_DIRS`. */
  const SkipDirs: set<string> := {
    ".git", "node_modules", "vendor", "dist", "build", ".venv",
    ".mypy_cache", ".pytest_cache", "__pycache__", "out", "target"
  }

  /**
   * One file: the directories leading to it below the root, its name, the
   * size `stat` reports (`None` where `stat` raises), its bytes (`None`
   * where opening or reading raises), and whether opening it for writing
   * raises.
   */
  datatype FileEntry = FileEntry(
    dirs: seq<string>,
    name: string,
    size: Option<nat>,
    data: Option<seq<byte>>,
    writeFails: bool)

  /** The walk reaches the file: no directory on its path is pruned. */
  predicate Walked(e: FileEntry) {
    forall k | 0 <= k < |e.dirs| :: e.dirs[k] !in SkipDirs
  }

  /** The file's path below the repository root, `/`-separated. */
  function PathOf(e: FileEntry): string {
    Join(e.dirs + [e.name], "/")
  }

  /** The working tree of one clone; `apply_replacements` rewrites its files in place. */
  class Checkout {
    var files: seq<FileEntry>

    constructor(files: seq<FileEntry>)
      ensures this.files == files
    {
      this.files := files;
    }
  }
}
