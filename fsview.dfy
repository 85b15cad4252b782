/** What the daemon learns about the live filesystem, given as facts rather
    than read: which paths exist (following symlinks), which are directories
    (following symlinks), which are symlinks themselves, what a readable
    directory lists, and where `canonicalize` sends a path. */
module FsView {
  datatype FsView = FsView(
    present: set<string>,
    dirs: set<string>,
    symlinks: set<string>,
    listings: map<string, seq<string>>,
    canonical: map<string, string>)
  {
    predicate Exists(p: string) { p in present }
    predicate IsDir(p: string) { p in dirs }
    predicate IsSymlink(p: string) { p in symlinks }

    /** `read_dir` succeeds and yields at least one entry. */
    predicate HasEntries(p: string) { p in listings && listings[p] != [] }
  }
}
