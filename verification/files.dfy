/**
 * The chart directory as a value: file contents by name, plus the names the
 * operating system refuses to open for reading or to create for writing.
 */
module Files {
  import opened Results

  /** Why a single file operation failed. */
  datatype IoError = NotExist(path: string) | ReadDenied(path: string) | WriteDenied(path: string)

  datatype FileSystem = FileSystem(
    files: map<string, string>,
    unreadable: set<string>,
    unwritable: set<string>)

  /** `os.ReadFile`, and the opening half of `copyFile`. */
  function Read(fs: FileSystem, path: string): (r: Result<string, IoError>)
    ensures r.Success? <==> path in fs.files && path !in fs.unreadable
    ensures r.Success? ==> r.value == fs.files[path]
  {
    if path !in fs.files then Failure(NotExist(path))
    else if path in fs.unreadable then Failure(ReadDenied(path))
    else Success(fs.files[path])
  }

  /** `os.WriteFile` / `os.Create`: replaces the whole content, or fails and changes nothing. */
  function Write(fs: FileSystem, path: string, data: string): (r: Result<FileSystem, IoError>)
    ensures r.Success? <==> path !in fs.unwritable
    ensures r.Success? ==> r.value.files == fs.files[path := data]
    ensures r.Success? ==> r.value.unreadable == fs.unreadable && r.value.unwritable == fs.unwritable
  {
    if path in fs.unwritable then Failure(WriteDenied(path))
    else Success(fs.(files := fs.files[path := data]))
  }

  /** `copyFile(src, dst)`: `dst` gets the content of `src`; on failure nothing is written. */
  function Copy(fs: FileSystem, src: string, dst: string): (r: Result<FileSystem, IoError>)
    ensures r.Success? <==> Read(fs, src).Success? && dst !in fs.unwritable
    ensures r.Success? ==> r.value == fs.(files := fs.files[dst := fs.files[src]])
  {
    match Read(fs, src)
    case Failure(e) => Failure(e)
    case Success(data) => Write(fs, dst, data)
  }

  /** Where a command left the directory, and how it ended. */
  datatype Run<+E> = Run(fs: FileSystem, status: Outcome<E>)

  /** `path` has the same presence and content in both directories. */
  predicate Unchanged(a: FileSystem, b: FileSystem, path: string) {
    && (path in a.files <==> path in b.files)
    && (path in a.files ==> a.files[path] == b.files[path])
  }

  /** Both directories refuse the same names. */
  predicate SameFaults(a: FileSystem, b: FileSystem) {
    a.unreadable == b.unreadable && a.unwritable == b.unwritable
  }
}
