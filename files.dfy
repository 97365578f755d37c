/**
 * The file system as the helper queries it: `file_exists`, `is_readable`,
 * `is_dir` and `file_get_contents`, over an abstract table of paths.
 */
module Files {

  /** File contents by path, the directories, and the paths the process may read. */
  datatype FileSystem = FileSystem(files: map<string, string>, dirs: set<string>, readable: set<string>)

  /** `file_exists`: true for files and for directories. */
  predicate Exists(fs: FileSystem, path: string) {
    path in fs.files || path in fs.dirs
  }

  /** `is_readable`: false for a path that does not exist. */
  predicate IsReadable(fs: FileSystem, path: string) {
    Exists(fs, path) && path in fs.readable
  }

  /** `is_dir`. */
  predicate IsDir(fs: FileSystem, path: string) {
    path in fs.dirs
  }

  /**
   * `file_get_contents`. Reading a directory yields no data; PHP gives ""
   * or false there, both falsy, which is all the helper looks at.
   */
  function Read(fs: FileSystem, path: string): string {
    if path in fs.files then fs.files[path] else ""
  }

  /** Two file systems that answer every query about `path` alike. */
  predicate SameEntry(fs1: FileSystem, fs2: FileSystem, path: string) {
    && (path in fs1.files <==> path in fs2.files)
    && (path in fs1.files ==> fs1.files[path] == fs2.files[path])
    && (path in fs1.dirs <==> path in fs2.dirs)
    && (path in fs1.readable <==> path in fs2.readable)
  }
}
