/**
  stat.go: Stat and LStat never fail; a failed system call is wrapped in an errorFileInfo,
  whose methods answer "", 0, mode 0 and "not a directory", and ErrFromStat unwraps it.
  The predicates IsDir, IsExist, IsLink, IsRegular and Size are decisions over that result.
*/
module Stat {
  import opened Wrappers
  import opened Paths
  import opened Fs

  /** What Stat and LStat return: the system's FileInfo, or an errorFileInfo. */
  datatype StatResult = Real(info: FileInfo) | ErrorInfo(error: Error)

  /**
    The answers of the FileInfo methods. An errorFileInfo has no name, size 0 and mode 0;
    mode 0 has no type bits, which is what Go calls a regular file.
  */
  function InfoOfResult(s: StatResult): FileInfo {
    match s
    case Real(info) => info
    case ErrorInfo(_) => FileInfo("", 0, Regular, 0)
  }

  function FromSyscall(r: Result<FileInfo, Error>): StatResult {
    match r
    case Ok(info) => Real(info)
    case Err(e) => ErrorInfo(e)
  }

  /** filebox.Stat */
  function StatOf(fs: FsMap, name: string): StatResult {
    FromSyscall(Fs.Stat(fs, name))
  }

  /** filebox.LStat */
  function LStatOf(fs: FsMap, name: string): StatResult {
    FromSyscall(Fs.Lstat(fs, name))
  }

  /** ErrFromStat */
  function ErrFromStat(s: StatResult): Option<Error> {
    match s
    case ErrorInfo(e) => Some(e)
    case Real(_) => None
  }

  /** IsDir */
  predicate IsDir(fs: FsMap, name: string) {
    InfoOfResult(StatOf(fs, name)).IsDir()
  }

  /** IsExist, as written: true when the stat error IS "does not exist". */
  predicate IsExist(fs: FsMap, name: string) {
    var err := ErrFromStat(StatOf(fs, name));
    err.Some? && IsNotExist(err.value)
  }

  /** IsExist as its documentation describes it: the path exists. */
  predicate IsExistIntended(fs: FsMap, name: string) {
    ErrFromStat(StatOf(fs, name)).None?
  }

  /** IsLink: the symbolic-link bit of LStat's mode. */
  predicate IsLink(fs: FsMap, name: string) {
    InfoOfResult(LStatOf(fs, name)).ftype == Symlink
  }

  /** IsRegular, as written: no type bits in Stat's mode, which an errorFileInfo also has. */
  predicate IsRegular(fs: FsMap, name: string) {
    InfoOfResult(StatOf(fs, name)).IsRegular()
  }

  /** IsRegular as its documentation describes it: the path is a regular file. */
  predicate IsRegularIntended(fs: FsMap, name: string) {
    StatOf(fs, name).Real? && StatOf(fs, name).info.IsRegular()
  }

  /** Size */
  function Size(fs: FsMap, name: string): nat {
    if !IsRegular(fs, name) then 0 else InfoOfResult(StatOf(fs, name)).size
  }

  /** FileMode: the type and the permission bits. */
  function FileMode(fs: FsMap, name: string): (FileType, nat) {
    var info := InfoOfResult(StatOf(fs, name));
    (info.ftype, info.perm)
  }

  /** Perm */
  function Perm(fs: FsMap, name: string): nat {
    InfoOfResult(StatOf(fs, name)).perm
  }

  // ---------------------------------------------------------------------------------------

  /** An errorFileInfo reports no name, size 0, mode 0, and is not a directory. */
  lemma ErrorInfoAnswers(e: Error)
    ensures InfoOfResult(ErrorInfo(e)).name == ""
    ensures InfoOfResult(ErrorInfo(e)).size == 0
    ensures InfoOfResult(ErrorInfo(e)).ftype == Regular && InfoOfResult(ErrorInfo(e)).perm == 0
    ensures !InfoOfResult(ErrorInfo(e)).IsDir()
  {
  }

  /** ErrFromStat(Stat(name)) is exactly os.Stat's error, and nil when os.Stat succeeds. */
  lemma ErrFromStatIsStatError(fs: FsMap, name: string)
    ensures ErrFromStat(StatOf(fs, name)) == (if Fs.Stat(fs, name).Err? then Some(Fs.Stat(fs, name).error) else None)
    ensures Fs.Stat(fs, name).Ok? ==> InfoOfResult(StatOf(fs, name)) == Fs.Stat(fs, name).value
  {
  }

  /** IsDir holds exactly for a path whose stat succeeds and names a directory. */
  lemma IsDirIff(fs: FsMap, name: string)
    ensures IsDir(fs, name) <==> IsDirAt(fs, name)
    ensures Fs.Stat(fs, name).Err? ==> !IsDir(fs, name)
  {
  }

  /** IsExist, as written, is true exactly when stat fails with "does not exist". */
  lemma IsExistIff(fs: FsMap, name: string)
    ensures IsExist(fs, name) <==> Fs.Stat(fs, name).Err? && IsNotExist(Fs.Stat(fs, name).error)
  {
  }

  /** So for every path that exists, IsExist answers false. */
  lemma IsExistFalseWhenPresent(fs: FsMap, name: string)
    requires Fs.Stat(fs, name).Ok?
    ensures !IsExist(fs, name)
    ensures IsExistIntended(fs, name)
  {
  }

  /** The intended IsExist holds exactly for the paths os.Stat finds. */
  lemma IsExistIntendedIff(fs: FsMap, name: string)
    ensures IsExistIntended(fs, name) <==> Fs.Stat(fs, name).Ok?
    ensures Fs.Stat(fs, name).Err? && IsNotExist(Fs.Stat(fs, name).error) ==> !IsExistIntended(fs, name)
  {
  }

  /** IsLink holds exactly for a path whose own node is a symbolic link; false when Lstat fails. */
  lemma IsLinkIff(fs: FsMap, name: string)
    ensures IsLink(fs, name) <==> Lookup(fs, name).Some? && Lookup(fs, name).value.LinkNode?
  {
  }

  /** IsRegular, as written, answers true for every path whose stat fails. */
  lemma IsRegularOnMissing(fs: FsMap, name: string)
    requires Fs.Stat(fs, name).Err?
    ensures IsRegular(fs, name)
    ensures !IsRegularIntended(fs, name)
  {
  }

  /** The intended IsRegular holds exactly for a path that resolves to a regular file. */
  lemma IsRegularIntendedIff(fs: FsMap, name: string)
    ensures IsRegularIntended(fs, name) <==> Resolve(fs, name).Ok? && fs[Resolve(fs, name).value].FileNode?
  {
  }

  /**
    Size is the byte count of the regular file a path resolves to, and 0 otherwise; the
    errorFileInfo's size 0 keeps the as-written IsRegular from mattering here.
  */
  lemma SizeIff(fs: FsMap, name: string)
    ensures Size(fs, name) == (if IsRegularIntended(fs, name) then |fs[Resolve(fs, name).value].data| else 0)
  {
  }
}
