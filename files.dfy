/** What the tile readers and catalog builders observe of the file system,
    as a value: which paths exist, the bytes of the files that open for
    reading, and the entries of the directories that can be listed. */
module Files {
  import opened Samples

  datatype EntryKind = RegularFile | Directory | OtherEntry

  /** A directory entry: its file name and what it is. */
  datatype Entry = Entry(name: string, kind: EntryKind)

  datatype FileSystem = FileSystem(
    present: set<string>,
    contents: map<string, seq<Byte>>,
    listings: map<string, seq<Entry>>)

  /** `std::filesystem::exists(path)` */
  predicate Exists(fs: FileSystem, path: string) {
    path in fs.present
  }

  /** An `ifstream` on `path` is good after opening. */
  predicate Opens(fs: FileSystem, path: string) {
    path in fs.contents
  }

  /** `dir / name`: a `/` is put between the two unless the directory is
      empty, which leaves the name alone, or already ends with one. */
  function Join(dir: string, name: string): (path: string)
    ensures |path| >= |dir| + |name| && path[..|dir|] == dir && path[|path| - |name|..] == name
    ensures dir == [] ==> path == name
  {
    if dir == [] then name
    else if dir[|dir| - 1] == '/' then dir + name
    else dir + "/" + name
  }
}
