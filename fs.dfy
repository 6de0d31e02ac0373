/**
  The operating-system calls the package makes (os.Stat, os.Lstat, os.Mkdir, os.MkdirAll,
  os.OpenFile, os.Symlink, os.Readlink, os.ReadDir, os.Remove, os.RemoveAll), over an
  in-memory filesystem: a map from cleaned paths to nodes.

  Paths are resolved lexically: the key of a path is Clean(path), a node's parent is the
  path with its last segment dropped, and only a symbolic link in the LAST position is
  followed (at most MaxHops times, as Linux does).
*/
module Fs {
  import opened Wrappers
  import opened Paths

  type byte = x: int | 0 <= x < 256

  /** A directory-entry name: what a listing holds, one segment of a path. */
  type Name = s: string | IsName(s) witness "a"

  /** Permission bits reported for directories (0o755) and symbolic links (0o777). */
  const DirPerm: nat := 493
  const LinkPerm: nat := 511
  /** Linux gives up after following 40 symbolic links (ELOOP). */
  const MaxHops: nat := 40

  datatype Node =
    | DirNode(names: seq<Name>)
    | FileNode(data: seq<byte>, perm: nat)
    | LinkNode(target: string)
    | SocketNode

  type FsMap = map<string, Node>

  datatype FileType = Regular | Directory | Symlink | SocketFile

  /** What os.Stat and os.Lstat report; `Regular` is Go's "no type bits set". */
  datatype FileInfo = FileInfo(name: string, size: nat, ftype: FileType, perm: nat) {
    predicate IsDir() {
      ftype == Directory
    }

    predicate IsRegular() {
      ftype == Regular
    }
  }

  datatype Errno = ENOENT | EEXIST | ENOTDIR | EISDIR | ELOOP | ENXIO | ENOTEMPTY | EINVAL | EBADF

  datatype Error =
    | PathError(path: string, errno: Errno)
    | WriteTooLong               // archive/tar: write too long
    | SocketNotSupported         // archive/tar: sockets not supported
    | NilHeader                  // a nil *tar.Header handed to WriteHeader (a panic in Go)
    | RelError(base: string, targ: string)
    | PatternHasSeparator        // os.CreateTemp / os.MkdirTemp: pattern contains "/"
    | NotSingleFile              // ClearFile on a directory
    | External(code: nat)        // an error raised by a component outside the model
    | Joined(errs: seq<Error>)   // errors.Join
    | EndOfFile                  // io.EOF
    | FileClosed                 // os.ErrClosed: a read from a closed file
    | WriteToDirectory           // archive/zip: write to directory
    | InvalidLevel(level: int)   // compress/gzip: invalid compression level

  /** errors.Is(err, fs.ErrNotExist) for the errors these calls return. */
  predicate IsNotExist(e: Error) {
    e.PathError? && e.errno == ENOENT
  }

  /** The non-nil members of an errors.Join argument list. */
  function Present(es: seq<Option<Error>>): (r: seq<Error>)
    ensures |r| <= |es|
    ensures r == [] <==> forall i | 0 <= i < |es| :: es[i].None?
  {
    if es == [] then []
    else
      var rest := Present(es[1..]);
      assert forall i | 1 <= i < |es| :: es[i] == es[1..][i - 1];
      if es[0].Some? then [es[0].value] + rest else rest
  }

  /** errors.Join: nil exactly when every argument is nil. */
  function JoinErrors(es: seq<Option<Error>>): (r: Option<Error>)
    ensures r.None? <==> forall i | 0 <= i < |es| :: es[i].None?
  {
    var present := Present(es);
    if present == [] then None else Some(Joined(present))
  }

  /** A state change that may fail part-way, keeping what was done before the failure. */
  datatype Outcome = Outcome(fs: FsMap, err: Option<Error>)

  function Commit(fs: FsMap, r: Result<FsMap, Error>): Outcome {
    match r
    case Ok(f) => Outcome(f, None)
    case Err(e) => Outcome(fs, Some(e))
  }

  // ---------------------------------------------------------------------------------------
  // Reading

  function InfoOf(name: string, n: Node): FileInfo {
    match n
    case DirNode(_) => FileInfo(name, 0, Directory, DirPerm)
    case FileNode(data, perm) => FileInfo(name, |data|, Regular, perm)
    case LinkNode(target) => FileInfo(name, |target|, Symlink, LinkPerm)
    case SocketNode => FileInfo(name, 0, SocketFile, 0)
  }

  function Lookup(fs: FsMap, p: string): Option<Node> {
    if p != "" && Clean(p) in fs then Some(fs[Clean(p)]) else None
  }

  /** os.Lstat: the node itself, symbolic links included. */
  function Lstat(fs: FsMap, p: string): Result<FileInfo, Error> {
    match Lookup(fs, p)
    case None => Err(PathError(p, ENOENT))
    case Some(n) => Ok(InfoOf(Base(p), n))
  }

  /** Where a link stored at key `k` points. */
  function LinkTarget(k: string, target: string): string {
    if Rooted(target) then Clean(target) else Join(Dir(k), target)
  }

  /** Follow symbolic links from key `k`, at most `hops` of them. */
  function Follow(fs: FsMap, k: string, hops: nat): (r: Result<string, Errno>)
    ensures r.Ok? ==> k in fs && r.value in fs && !fs[r.value].LinkNode?
    ensures r.Err? ==> r.error == ENOENT || r.error == ELOOP
    decreases hops
  {
    if k !in fs then Err(ENOENT)
    else match fs[k]
      case LinkNode(t) => if hops == 0 then Err(ELOOP) else Follow(fs, LinkTarget(k, t), hops - 1)
      case _ => Ok(k)
  }

  /** Where following links from `k` stops: the first key that is missing or not a link. */
  function Dangling(fs: FsMap, k: string, hops: nat): string
    decreases hops
  {
    if k !in fs then k
    else match fs[k]
      case LinkNode(t) => if hops == 0 then k else Dangling(fs, LinkTarget(k, t), hops - 1)
      case _ => k
  }

  /** The key os.Stat and os.Open end up at. */
  function Resolve(fs: FsMap, p: string): (r: Result<string, Error>)
    ensures r.Ok? ==> Lookup(fs, p).Some? && r.value in fs && !fs[r.value].LinkNode?
  {
    if p == "" then Err(PathError(p, ENOENT))
    else match Follow(fs, Clean(p), MaxHops)
      case Ok(k) => Ok(k)
      case Err(e) => Err(PathError(p, e))
  }

  /** os.Stat: like Lstat, but through symbolic links; the name is still Base(p). */
  function Stat(fs: FsMap, p: string): Result<FileInfo, Error> {
    match Resolve(fs, p)
    case Ok(k) => Ok(InfoOf(Base(p), fs[k]))
    case Err(e) => Err(e)
  }

  predicate IsDirAt(fs: FsMap, p: string) {
    Stat(fs, p).Ok? && Stat(fs, p).value.IsDir()
  }

  /** os.Readlink */
  function Readlink(fs: FsMap, p: string): Result<string, Error> {
    match Lookup(fs, p)
    case None => Err(PathError(p, ENOENT))
    case Some(n) => if n.LinkNode? then Ok(n.target) else Err(PathError(p, EINVAL))
  }

  /** os.Open for reading: the key of the opened node. Opening a socket fails. */
  function OpenRead(fs: FsMap, p: string): (r: Result<string, Error>)
    ensures r.Ok? ==> r.value in fs && (fs[r.value].DirNode? || fs[r.value].FileNode?)
  {
    var k :- Resolve(fs, p);
    if fs[k].SocketNode? then Err(PathError(p, ENXIO)) else Ok(k)
  }

  /** Reading everything from a handle opened at `k`; reading a directory fails. */
  function ReadAt(fs: FsMap, p: string, k: string): Result<seq<byte>, Error> {
    if k in fs && fs[k].FileNode? then Ok(fs[k].data)
    else if k in fs && fs[k].DirNode? then Err(PathError(p, EISDIR))
    else Err(PathError(p, EBADF))
  }

  /** os.ReadFile */
  function ReadFile(fs: FsMap, p: string): Result<seq<byte>, Error> {
    var k :- OpenRead(fs, p);
    ReadAt(fs, p, k)
  }

  /** A path Lstat reports as a regular file opens, and reads as exactly that many bytes. */
  lemma RegularReads(fs: FsMap, path: string)
    requires Lstat(fs, path).Ok? && Lstat(fs, path).value.IsRegular()
    ensures Clean(path) in fs && fs[Clean(path)].FileNode?
    ensures OpenRead(fs, path) == Ok(Clean(path))
    ensures ReadAt(fs, path, Clean(path)) == Ok(fs[Clean(path)].data)
    ensures |fs[Clean(path)].data| == Lstat(fs, path).value.size
  {
    var k := Clean(path);
    assert Lookup(fs, path) == Some(fs[k]);
    assert InfoOf(Base(path), fs[k]).ftype == Regular;
    assert fs[k].FileNode?;
    assert Follow(fs, k, MaxHops) == Ok(k);
    assert Resolve(fs, path) == Ok(k);
  }

  datatype DirEntry = DirEntry(name: Name, isDir: bool)

  function Entries(fs: FsMap, k: string, names: seq<Name>): (r: seq<DirEntry>)
    ensures |r| <= |names|
    ensures forall i | 0 <= i < |r| :: r[i].name in names
  {
    if names == [] then []
    else
      var rest := Entries(fs, k, names[1..]);
      var c := Join(k, names[0]);
      if c in fs then [DirEntry(names[0], fs[c].DirNode?)] + rest else rest
  }

  /** Each entry of a listing names an existing node, and is a directory exactly when that node is. */
  lemma {:induction false} EntriesNodes(fs: FsMap, k: string, names: seq<Name>)
    ensures forall e | e in Entries(fs, k, names) :: Join(k, e.name) in fs && e.isDir == fs[Join(k, e.name)].DirNode?
  {
    if names != [] {
      EntriesNodes(fs, k, names[1..]);
    }
  }

  /**
    os.ReadDir: the listing of the directory `p` leads to, in name order; an entry is a
    directory by its own node (a link to a directory is not one).
  */
  function ReadDir(fs: FsMap, p: string): Result<seq<DirEntry>, Error> {
    var k :- OpenRead(fs, p);
    match fs[k]
    case DirNode(names) => Ok(Entries(fs, k, names))
    case _ => Err(PathError(p, ENOTDIR))
  }

  // ---------------------------------------------------------------------------------------
  // Directory listings

  /** Byte-wise string order, the order os.ReadDir and filepath.Walk list names in. */
  predicate Less(a: string, b: string) {
    if a == [] then b != []
    else if b == [] then false
    else if a[0] != b[0] then a[0] < b[0]
    else Less(a[1..], b[1..])
  }

  function InsertName(names: seq<Name>, n: Name): (r: seq<Name>)
    ensures forall x :: x in r <==> x in names || x == n
  {
    if names == [] then [n]
    else if names[0] == n then names
    else if Less(n, names[0]) then [n] + names
    else [names[0]] + InsertName(names[1..], n)
  }

  function RemoveName(names: seq<Name>, n: string): (r: seq<Name>)
    ensures forall x :: x in r <==> x in names && x != n
  {
    if names == [] then []
    else if names[0] == n then RemoveName(names[1..], n)
    else [names[0]] + RemoveName(names[1..], n)
  }

  /** The key of the directory holding the node at `p` (lexically). */
  function ParentKey(p: string): string {
    var segs := Norm(p);
    if segs == [] then Clean(p) else Render(Rooted(p), segs[..|segs| - 1])
  }

  /** The last segment of Clean(p), when it is a plain name. */
  predicate HasName(p: string) {
    var segs := Norm(p);
    segs != [] && IsName(segs[|segs| - 1])
  }

  function LastName(p: string): Name
    requires HasName(p)
  {
    Norm(p)[|Norm(p)| - 1]
  }

  // ---------------------------------------------------------------------------------------
  // Changing the tree

  /**
    Link a new node in at `p`: it must not exist, its parent must be a directory, and its
    last segment must be a plain name ("/", "." and ".." always exist).
  */
  function CreateAt(fs: FsMap, p: string, node: Node): Result<FsMap, Error> {
    var k := Clean(p);
    if k in fs || !HasName(p) then Err(PathError(p, EEXIST))
    else
      var parent := ParentKey(p);
      if parent !in fs then Err(PathError(p, ENOENT))
      else match fs[parent]
        case DirNode(names) => Ok(fs[k := node][parent := DirNode(InsertName(names, LastName(p)))])
        case _ => Err(PathError(p, ENOTDIR))
  }

  /** os.Mkdir */
  function MkdirFs(fs: FsMap, p: string): Result<FsMap, Error> {
    if p == "" then Err(PathError(p, ENOENT)) else CreateAt(fs, p, DirNode([]))
  }

  /** os.MkdirAll, following Go's algorithm: parents first, then Mkdir of the path itself. */
  function MkdirAllFs(fs: FsMap, p: string): Outcome
    decreases |p|
  {
    match Stat(fs, p)
    case Ok(info) =>
      if info.IsDir() then Outcome(fs, None) else Outcome(fs, Some(PathError(p, ENOTDIR)))
    case Err(_) =>
      var i := |TrimTrailingSlashes(p)|;
      var j := LastSlash(p[..i]) + 1;
      var up := if j > 1 then MkdirAllFs(fs, p[..j - 1]) else Outcome(fs, None);
      if up.err.Some? then up else MkdirLast(up.fs, p)
  }

  /** MkdirAll's last step: Mkdir, and a path that is a directory after all is success. */
  function MkdirLast(fs: FsMap, p: string): Outcome {
    match MkdirFs(fs, p)
    case Ok(f) => Outcome(f, None)
    case Err(e) =>
      if Lstat(fs, p).Ok? && Lstat(fs, p).value.IsDir() then Outcome(fs, None)
      else Outcome(fs, Some(e))
  }

  /** os.OpenFile with O_CREATE|O_EXCL: a new empty file, failing when anything is at `p`. */
  function CreateNewFs(fs: FsMap, p: string, perm: nat): Result<FsMap, Error> {
    if p == "" then Err(PathError(p, ENOENT)) else CreateAt(fs, p, FileNode([], perm))
  }

  /** os.Symlink(target, p) */
  function SymlinkFs(fs: FsMap, target: string, p: string): Result<FsMap, Error> {
    if p == "" then Err(PathError(p, ENOENT)) else CreateAt(fs, p, LinkNode(target))
  }

  /**
    os.OpenFile for writing: the key of the opened file. An existing file is emptied when
    `trunc`; a missing one is created with `perm` when `create`.
  */
  function OpenFileFs(fs: FsMap, p: string, create: bool, trunc: bool, perm: nat): Result<(FsMap, string), Error> {
    if p == "" then Err(PathError(p, ENOENT))
    else match Follow(fs, Clean(p), MaxHops)
      case Ok(k) =>
        (match fs[k]
         case FileNode(data, pm) => Ok((if trunc then fs[k := FileNode([], pm)] else fs, k))
         case DirNode(_) => Err(PathError(p, EISDIR))
         case _ => Err(PathError(p, ENXIO)))
      case Err(ENOENT) =>
        if !create then Err(PathError(p, ENOENT))
        else if Clean(p) !in fs then
          var f :- CreateAt(fs, p, FileNode([], perm));
          Ok((f, Clean(p)))
        else
          // O_CREAT through links whose chain ends at a missing key creates that key
          var t := Dangling(fs, Clean(p), MaxHops);
          (match CreateAt(fs, t, FileNode([], perm))
           case Ok(f) => Ok((f, Clean(t)))
           case Err(e) => Err(PathError(p, e.errno)))
      case Err(e) => Err(PathError(p, e))
  }

  /** A file opened for writing: the tree after, the key of the open file, and the error. */
  datatype Opened = Opened(fs: FsMap, key: string, err: Option<Error>)

  function OpenFs(fs: FsMap, p: string, create: bool, trunc: bool, perm: nat): Opened {
    match OpenFileFs(fs, p, create, trunc, perm)
    case Ok(r) => Opened(r.0, r.1, None)
    case Err(e) => Opened(fs, "", Some(e))
  }

  /** Writing `data` from offset 0 over what a file holds: a longer old tail survives. */
  function Overwrite(prev: seq<byte>, data: seq<byte>): (r: seq<byte>)
    ensures |r| == if |data| < |prev| then |prev| else |data|
    ensures r[..|data|] == data
    ensures forall i | |data| <= i < |prev| :: r[i] == prev[i]
  {
    if |data| < |prev| then data + prev[|data|..] else data
  }

  /** Writes through a handle opened at `k`, starting at offset 0. */
  function WriteFs(fs: FsMap, k: string, data: seq<byte>): Result<FsMap, Error> {
    if k in fs && fs[k].FileNode? then Ok(fs[k := FileNode(Overwrite(fs[k].data, data), fs[k].perm)])
    else Err(PathError(k, EBADF))
  }

  /** File.Truncate(0) through a handle opened at `k`. */
  function TruncateFs(fs: FsMap, k: string): Result<FsMap, Error> {
    if k in fs && fs[k].FileNode? then Ok(fs[k := FileNode([], fs[k].perm)])
    else Err(PathError(k, EBADF))
  }

  /** Drop the node at key `k` and its name from its parent's listing. */
  function Detach(fs: FsMap, p: string, keep: FsMap): FsMap {
    var parent := ParentKey(p);
    if parent in keep && keep[parent].DirNode? then keep[parent := DirNode(RemoveName(keep[parent].names, LastNameOr(p)))]
    else keep
  }

  function LastNameOr(p: string): string {
    if Norm(p) == [] then "" else Norm(p)[|Norm(p)| - 1]
  }

  /** os.Remove: a file, a link, or an empty directory. */
  function RemoveFs(fs: FsMap, p: string): Result<FsMap, Error> {
    var k := Clean(p);
    if p == "" || k !in fs then Err(PathError(p, ENOENT))
    else if fs[k].DirNode? && fs[k].names != [] then Err(PathError(p, ENOTEMPTY))
    else if !HasName(p) then Err(PathError(p, EINVAL))
    else Ok(Detach(fs, p, fs - {k}))
  }

  /** Whether key `x` is `k` or lies below it. */
  predicate Under(x: string, k: string) {
    x == k || HasPrefix(x, k + "/")
  }

  predicate EndsWithDot(p: string) {
    p == "." || (|p| >= 2 && p[|p| - 2..] == "/.")
  }

  /** os.RemoveAll: the node and everything below it; a missing path is not an error. */
  function RemoveAllFs(fs: FsMap, p: string): Result<FsMap, Error> {
    var k := Clean(p);
    if p == "" then Ok(fs)
    else if EndsWithDot(p) then Err(PathError(p, EINVAL))
    else if k !in fs then Ok(fs)
    else if !HasName(p) then Err(PathError(p, EINVAL))
    else Ok(Detach(fs, p, map x | x in fs && !Under(x, k) :: fs[x]))
  }

  // ---------------------------------------------------------------------------------------
  // What these calls preserve

  /** Nothing is lost: every node survives, and a directory only gains names. */
  ghost predicate Grows(fs: FsMap, fs': FsMap) {
    forall k | k in fs ::
      && k in fs'
      && (fs'[k] == fs[k] || (fs[k].DirNode? && fs'[k].DirNode? && forall n | n in fs[k].names :: n in fs'[k].names))
  }

  lemma GrowsTrans(a: FsMap, b: FsMap, c: FsMap)
    requires Grows(a, b) && Grows(b, c)
    ensures Grows(a, c)
  {
  }

  lemma {:induction false} GrowsFollow(fs: FsMap, fs': FsMap, k: string, hops: nat)
    requires Grows(fs, fs')
    requires Follow(fs, k, hops).Ok?
    ensures Follow(fs', k, hops).Ok? && Follow(fs', k, hops).value == Follow(fs, k, hops).value
    ensures fs[Follow(fs, k, hops).value].DirNode? ==> fs'[Follow(fs, k, hops).value].DirNode?
    ensures fs[Follow(fs, k, hops).value].FileNode? ==> fs'[Follow(fs, k, hops).value] == fs[Follow(fs, k, hops).value]
    decreases hops
  {
    if fs[k].LinkNode? {
      GrowsFollow(fs, fs', LinkTarget(k, fs[k].target), hops - 1);
    }
  }

  /** A directory stays a directory as the tree grows. */
  lemma GrowsKeepsDir(fs: FsMap, fs': FsMap, p: string)
    requires Grows(fs, fs') && IsDirAt(fs, p)
    ensures IsDirAt(fs', p)
  {
    GrowsFollow(fs, fs', Clean(p), MaxHops);
  }

  /** A new node is linked in at Clean(p) and under its parent; nothing else changes. */
  lemma CreateAtFacts(fs: FsMap, p: string, node: Node)
    requires CreateAt(fs, p, node).Ok?
    ensures var fs' := CreateAt(fs, p, node).value;
      && Clean(p) !in fs && HasName(p)
      && fs'[Clean(p)] == node
      && fs'.Keys == fs.Keys + {Clean(p)}
      && Grows(fs, fs')
      && ParentKey(p) in fs && fs'[ParentKey(p)].DirNode? && LastName(p) in fs'[ParentKey(p)].names
  {
  }

  lemma MkdirFacts(fs: FsMap, p: string)
    requires MkdirFs(fs, p).Ok?
    ensures Grows(fs, MkdirFs(fs, p).value)
    ensures IsDirAt(MkdirFs(fs, p).value, p)
    ensures Clean(p) !in fs
  {
    CreateAtFacts(fs, p, DirNode([]));
  }

  lemma MkdirLastFacts(fs: FsMap, p: string)
    ensures Grows(fs, MkdirLast(fs, p).fs)
    ensures AddsDirs(fs, MkdirLast(fs, p).fs)
    ensures MkdirLast(fs, p).err.None? ==> IsDirAt(MkdirLast(fs, p).fs, p)
  {
    if MkdirFs(fs, p).Ok? {
      MkdirFacts(fs, p);
      CreateAtFacts(fs, p, DirNode([]));
    }
  }

  /**
    os.MkdirAll only adds to the tree, and only directories; when it reports success `p` names
    a directory, whether it was there already or was just made.
  */
  lemma {:induction false} MkdirAllFacts(fs: FsMap, p: string)
    ensures Grows(fs, MkdirAllFs(fs, p).fs)
    ensures AddsDirs(fs, MkdirAllFs(fs, p).fs)
    ensures MkdirAllFs(fs, p).err.None? ==> IsDirAt(MkdirAllFs(fs, p).fs, p)
    decreases |p|
  {
    if Stat(fs, p).Err? {
      var i := |TrimTrailingSlashes(p)|;
      var j := LastSlash(p[..i]) + 1;
      var up := if j > 1 then MkdirAllFs(fs, p[..j - 1]) else Outcome(fs, None);
      if j > 1 {
        MkdirAllFacts(fs, p[..j - 1]);
      }
      if up.err.None? {
        MkdirLastFacts(up.fs, p);
        GrowsTrans(fs, up.fs, MkdirLast(up.fs, p).fs);
        AddsDirsTrans(fs, up.fs, MkdirLast(up.fs, p).fs);
      }
    }
  }

  /** Rewriting a regular file's bytes leaves every link resolution as it was. */
  lemma {:induction false} FileUpdateFollow(fs: FsMap, k: string, node: Node, x: string, hops: nat)
    requires k in fs && fs[k].FileNode? && node.FileNode?
    ensures Follow(fs[k := node], x, hops) == Follow(fs, x, hops)
    decreases hops
  {
    if x in fs && fs[x].LinkNode? && hops > 0 {
      FileUpdateFollow(fs, k, node, LinkTarget(x, fs[x].target), hops - 1);
    }
  }

  lemma {:induction false} RemoveAbsent(names: seq<Name>, n: string)
    requires n !in names
    ensures RemoveName(names, n) == names
  {
    if names != [] {
      RemoveAbsent(names[1..], n);
    }
  }

  /** Removing a name that was just inserted gives back the listing. */
  lemma {:induction false} RemoveInserted(names: seq<Name>, n: Name)
    requires n !in names
    ensures RemoveName(InsertName(names, n), n) == names
  {
    if names == [] {
    } else if Less(n, names[0]) {
      RemoveAbsent(names, n);
    } else {
      RemoveInserted(names[1..], n);
    }
  }

  /** A path's parent key is never its own key. */
  lemma ParentNotSelf(p: string)
    requires HasName(p)
    ensures ParentKey(p) != Clean(p)
  {
    NormIsNormal(p);
    var segs := Norm(p);
    assert segs == segs[..|segs| - 1] + [segs[|segs| - 1]];
    NormalPrefix(Rooted(p), segs[..|segs| - 1], [segs[|segs| - 1]]);
    NormRender(Rooted(p), segs[..|segs| - 1]);
    NormRender(Rooted(p), segs);
    assert |Norm(ParentKey(p))| != |Norm(Clean(p))|;
  }

  /**
    Removing what was just created gives back the tree it was created in, when the parent's
    listing did not already name it.
  */
  lemma CreateThenRemove(fs: FsMap, p: string, node: Node)
    requires CreateAt(fs, p, node).Ok?
    requires LastName(p) !in fs[ParentKey(p)].names
    requires !node.DirNode? || node.names == []
    ensures RemoveFs(CreateAt(fs, p, node).value, p) == Ok(fs)
  {
    var k := Clean(p);
    var parent := ParentKey(p);
    var names := fs[parent].names;
    var fs1 := fs[k := node][parent := DirNode(InsertName(names, LastName(p)))];
    assert CreateAt(fs, p, node).value == fs1;
    ParentNotSelf(p);
    RemoveInserted(names, LastName(p));
    var kept := fs1 - {k};
    assert kept == fs[parent := DirNode(InsertName(names, LastName(p)))];
    assert LastNameOr(p) == LastName(p);
    assert Detach(fs1, p, kept) == fs;
  }

  /** Every node survives with its kind: a directory only gains names, a link is untouched. */
  predicate SameKind(a: Node, b: Node) {
    match a
    case DirNode(names) => b.DirNode? && forall n | n in names :: n in b.names
    case FileNode(_, _) => b.FileNode?
    case _ => b == a
  }

  ghost predicate Keeps(fs: FsMap, fs': FsMap) {
    forall k | k in fs :: k in fs' && SameKind(fs[k], fs'[k])
  }

  lemma GrowsKeeps(fs: FsMap, fs': FsMap)
    requires Grows(fs, fs')
    ensures Keeps(fs, fs')
  {
  }

  lemma KeepsTrans(a: FsMap, b: FsMap, c: FsMap)
    requires Keeps(a, b) && Keeps(b, c)
    ensures Keeps(a, c)
  {
    forall k | k in a
      ensures k in c && SameKind(a[k], c[k])
    {
      assert SameKind(a[k], b[k]) && SameKind(b[k], c[k]);
    }
  }

  lemma {:induction false} KeepsFollow(fs: FsMap, fs': FsMap, k: string, hops: nat)
    requires Keeps(fs, fs')
    requires Follow(fs, k, hops).Ok?
    ensures Follow(fs', k, hops) == Follow(fs, k, hops)
    ensures SameKind(fs[Follow(fs, k, hops).value], fs'[Follow(fs, k, hops).value])
    decreases hops
  {
    assert SameKind(fs[k], fs'[k]);
    if fs[k].LinkNode? {
      KeepsFollow(fs, fs', LinkTarget(k, fs[k].target), hops - 1);
    }
  }

  /** What a path leads to keeps its kind: a directory stays one, a readable file stays readable. */
  lemma KeepsResolve(fs: FsMap, fs': FsMap, p: string)
    requires Keeps(fs, fs')
    ensures IsDirAt(fs, p) ==> IsDirAt(fs', p)
    ensures ReadFile(fs, p).Ok? ==> ReadFile(fs', p).Ok?
  {
    if p != "" && Follow(fs, Clean(p), MaxHops).Ok? {
      KeepsFollow(fs, fs', Clean(p), MaxHops);
    }
  }

  /**
    A chain of links that runs out at a missing key stops at that key, and once a node that
    is not a link sits there, with every link kept, the same chain resolves to it.
  */
  lemma {:induction false} FollowDangling(fs: FsMap, fs': FsMap, k: string, hops: nat)
    requires Follow(fs, k, hops) == Err(ENOENT)
    requires Keeps(fs, fs')
    requires Dangling(fs, k, hops) in fs' && !fs'[Dangling(fs, k, hops)].LinkNode?
    ensures Dangling(fs, k, hops) !in fs
    ensures Follow(fs', k, hops) == Ok(Dangling(fs, k, hops))
    decreases hops
  {
    if k in fs {
      assert fs[k].LinkNode? && hops > 0;
      assert fs'[k] == fs[k];
      FollowDangling(fs, fs', LinkTarget(k, fs[k].target), hops - 1);
    }
  }

  /** A chain of links stops where it started, or at the target of some link. */
  lemma {:induction false} DanglingStep(fs: FsMap, k: string, hops: nat) returns (x: string)
    ensures Dangling(fs, k, hops) == k || (x in fs && fs[x].LinkNode? && Dangling(fs, k, hops) == LinkTarget(x, fs[x].target))
    decreases hops
  {
    x := k;
    if k in fs && fs[k].LinkNode? && hops > 0 {
      var next := LinkTarget(k, fs[k].target);
      var y := DanglingStep(fs, next, hops - 1);
      if Dangling(fs, next, hops - 1) != next {
        x := y;
      }
    }
  }

  /** A chain of links from a cleaned key stops at a cleaned key. */
  lemma DanglingClean(fs: FsMap, k: string, hops: nat)
    requires Clean(k) == k
    ensures Clean(Dangling(fs, k, hops)) == Dangling(fs, k, hops)
  {
    var x := DanglingStep(fs, k, hops);
    if Dangling(fs, k, hops) != k {
      LinkTargetClean(x, fs[x].target);
    }
  }

  /** Where a link points is a cleaned key. */
  lemma LinkTargetClean(k: string, target: string)
    ensures Clean(LinkTarget(k, target)) == LinkTarget(k, target)
  {
    if Rooted(target) {
      CleanIdempotent(target);
    } else {
      CleanNonEmpty(SplitPath(k).0);
      CleanIdempotent(Dir(k) + "/" + target);
    }
  }

  /**
    When os.OpenFile creates the file, the new key holds an empty file with `perm`, nothing
    else changes kind, and the path then leads to it: the key is Clean(p) itself, or the key
    at which a chain of links from there runs out.
  */
  lemma OpenCreated(fs: FsMap, p: string, create: bool, trunc: bool, perm: nat)
    requires p != "" && Follow(fs, Clean(p), MaxHops).Err?
    requires OpenFs(fs, p, create, trunc, perm).err.None?
    ensures var o := OpenFs(fs, p, create, trunc, perm);
      && create
      && o.key !in fs
      && o.key in o.fs && o.fs[o.key] == FileNode([], perm)
      && o.fs.Keys == fs.Keys + {o.key}
      && Grows(fs, o.fs)
      && Follow(o.fs, Clean(p), MaxHops) == Ok(o.key)
  {
    var o := OpenFs(fs, p, create, trunc, perm);
    if Clean(p) !in fs {
      CreateAtFacts(fs, p, FileNode([], perm));
    } else {
      var t := Dangling(fs, Clean(p), MaxHops);
      CreateAtFacts(fs, t, FileNode([], perm));
      CleanIdempotent(p);
      DanglingClean(fs, Clean(p), MaxHops);
      GrowsKeeps(fs, o.fs);
      FollowDangling(fs, o.fs, Clean(p), MaxHops);
    }
  }

  /** Opening for writing keeps every node's kind: it creates a file or empties one. */
  lemma OpenKeeps(fs: FsMap, p: string, create: bool, trunc: bool, perm: nat)
    ensures Keeps(fs, OpenFs(fs, p, create, trunc, perm).fs)
  {
    if p != "" && OpenFs(fs, p, create, trunc, perm).err.None? && Follow(fs, Clean(p), MaxHops).Err? {
      if Clean(p) !in fs {
        CreateAtFacts(fs, p, FileNode([], perm));
      } else {
        CreateAtFacts(fs, Dangling(fs, Clean(p), MaxHops), FileNode([], perm));
      }
    }
  }

  lemma WriteKeeps(fs: FsMap, k: string, data: seq<byte>)
    requires WriteFs(fs, k, data).Ok?
    ensures Keeps(fs, WriteFs(fs, k, data).value)
  {
  }

  /** The bytes a path reads as before an open for writing: none once truncated, or when new. */
  function Before(fs: FsMap, p: string, trunc: bool): seq<byte> {
    if !trunc && ReadFile(fs, p).Ok? then ReadFile(fs, p).value else []
  }

  /**
    Writing through a handle that os.OpenFile just returned always succeeds, and the path
    then reads as the data written over what it held before (nothing, when truncated or
    created); no node changes kind.
  */
  lemma OpenWriteFacts(fs: FsMap, p: string, create: bool, trunc: bool, perm: nat, data: seq<byte>)
    requires OpenFs(fs, p, create, trunc, perm).err.None?
    ensures var o := OpenFs(fs, p, create, trunc, perm);
      && WriteFs(o.fs, o.key, data).Ok?
      && ReadFile(WriteFs(o.fs, o.key, data).value, p) == Ok(Overwrite(Before(fs, p, trunc), data))
      && Keeps(fs, WriteFs(o.fs, o.key, data).value)
  {
    OpenKeeps(fs, p, create, trunc, perm);
    var o := OpenFs(fs, p, create, trunc, perm);
    var fs' := WriteFs(o.fs, o.key, data).value;
    WriteKeeps(o.fs, o.key, data);
    KeepsTrans(fs, o.fs, fs');
    match Follow(fs, Clean(p), MaxHops)
    case Ok(k0) =>
      assert o.key == k0;
      if trunc {
        FileUpdateFollow(fs, k0, o.fs[k0], Clean(p), MaxHops);
      }
      FileUpdateFollow(o.fs, k0, fs'[k0], Clean(p), MaxHops);
    case Err(_) =>
      OpenCreated(fs, p, create, trunc, perm);
      FileUpdateFollow(o.fs, o.key, fs'[o.key], Clean(p), MaxHops);
  }

  // ---------------------------------------------------------------------------------------
  // Trees without symbolic links, one key at a time

  /** A tree without symbolic links: every path leads to its own key. */
  ghost predicate NoLinks(fs: FsMap) {
    forall k | k in fs :: !fs[k].LinkNode?
  }

  /** Key `q` holds the same regular file before and after, or a regular file at neither time. */
  ghost predicate FileKept(fs: FsMap, fs': FsMap, q: string) {
    ((q in fs && fs[q].FileNode?) || (q in fs' && fs'[q].FileNode?)) ==> q in fs && q in fs' && fs'[q] == fs[q]
  }

  /** Every node that is new is a directory. */
  ghost predicate AddsDirs(fs: FsMap, fs': FsMap) {
    forall k | k in fs' && k !in fs :: fs'[k].DirNode?
  }

  lemma FileKeptTrans(a: FsMap, b: FsMap, c: FsMap, q: string)
    requires FileKept(a, b, q) && FileKept(b, c, q)
    ensures FileKept(a, c, q)
  {
  }

  /** Without links, a path reads exactly when its own key is a regular file, as that file's bytes. */
  lemma NoLinksRead(fs: FsMap, p: string)
    requires NoLinks(fs)
    ensures ReadFile(fs, p).Ok? <==> p != "" && Clean(p) in fs && fs[Clean(p)].FileNode?
    ensures ReadFile(fs, p).Ok? ==> ReadFile(fs, p).value == fs[Clean(p)].data
  {
    if p != "" && Clean(p) in fs {
      assert Follow(fs, Clean(p), MaxHops) == Ok(Clean(p));
    }
  }

  /** A path whose key kept its file reads the same before and after. */
  lemma FileKeptRead(fs: FsMap, fs': FsMap, p: string)
    requires NoLinks(fs) && NoLinks(fs') && FileKept(fs, fs', Clean(p))
    ensures ReadFile(fs', p).Ok? == ReadFile(fs, p).Ok?
    ensures ReadFile(fs, p).Ok? ==> ReadFile(fs', p) == ReadFile(fs, p)
    ensures Before(fs', p, false) == Before(fs, p, false)
  {
    NoLinksRead(fs, p);
    NoLinksRead(fs', p);
  }

  /** A tree that only grows, by directories, keeps every file and gains no link. */
  lemma GrowsDirsKept(fs: FsMap, fs': FsMap, q: string)
    requires Grows(fs, fs') && AddsDirs(fs, fs')
    ensures FileKept(fs, fs', q)
    ensures NoLinks(fs) ==> NoLinks(fs')
  {
  }

  lemma AddsDirsTrans(a: FsMap, b: FsMap, c: FsMap)
    requires AddsDirs(a, b) && AddsDirs(b, c) && Grows(b, c)
    ensures AddsDirs(a, c)
  {
  }

  /** Hence os.MkdirAll keeps every regular file, and a tree without links stays so. */
  lemma MkdirAllKept(fs: FsMap, p: string, q: string)
    ensures FileKept(fs, MkdirAllFs(fs, p).fs, q)
    ensures NoLinks(fs) ==> NoLinks(MkdirAllFs(fs, p).fs)
  {
    MkdirAllFacts(fs, p);
    GrowsDirsKept(fs, MkdirAllFs(fs, p).fs, q);
  }

  /**
    Without links, opening `p` for writing and writing through the handle touches the file at
    Clean(p) and no other: every other key keeps its file, and no link appears.
  */
  lemma OpenWriteKept(fs: FsMap, p: string, create: bool, trunc: bool, perm: nat, data: seq<byte>, q: string)
    requires NoLinks(fs)
    requires OpenFs(fs, p, create, trunc, perm).err.None?
    ensures var o := OpenFs(fs, p, create, trunc, perm);
      && o.key == Clean(p)
      && WriteFs(o.fs, o.key, data).Ok?
      && NoLinks(WriteFs(o.fs, o.key, data).value)
      && (q != Clean(p) ==> FileKept(fs, WriteFs(o.fs, o.key, data).value, q))
  {
    var k := Clean(p);
    if k in fs {
      assert Follow(fs, k, MaxHops) == Ok(k);
    } else {
      assert Follow(fs, k, MaxHops) == Err(ENOENT);
      CreateAtFacts(fs, p, FileNode([], perm));
    }
  }

  // ---------------------------------------------------------------------------------------
  // The process's view of the filesystem

  /** The filesystem the program runs against; every method is one system call. */
  class FileSystem {
    var nodes: FsMap

    constructor (init: FsMap)
      ensures nodes == init
    {
      nodes := init;
    }

    method Mkdir(p: string) returns (err: Option<Error>)
      modifies this
      ensures Outcome(nodes, err) == Commit(old(nodes), MkdirFs(old(nodes), p))
    {
      var o := Commit(nodes, MkdirFs(nodes, p));
      nodes, err := o.fs, o.err;
    }

    method MkdirAll(p: string) returns (err: Option<Error>)
      modifies this
      ensures Outcome(nodes, err) == MkdirAllFs(old(nodes), p)
    {
      var o := MkdirAllFs(nodes, p);
      nodes, err := o.fs, o.err;
    }

    method Symlink(target: string, p: string) returns (err: Option<Error>)
      modifies this
      ensures Outcome(nodes, err) == Commit(old(nodes), SymlinkFs(old(nodes), target, p))
    {
      var o := Commit(nodes, SymlinkFs(nodes, target, p));
      nodes, err := o.fs, o.err;
    }

    method OpenFile(p: string, create: bool, trunc: bool, perm: nat) returns (k: string, err: Option<Error>)
      modifies this
      ensures Opened(nodes, k, err) == OpenFs(old(nodes), p, create, trunc, perm)
    {
      var o := OpenFs(nodes, p, create, trunc, perm);
      nodes, k, err := o.fs, o.key, o.err;
    }

    method CreateNew(p: string, perm: nat) returns (err: Option<Error>)
      modifies this
      ensures Outcome(nodes, err) == Commit(old(nodes), CreateNewFs(old(nodes), p, perm))
    {
      var o := Commit(nodes, CreateNewFs(nodes, p, perm));
      nodes, err := o.fs, o.err;
    }

    method Write(k: string, data: seq<byte>) returns (err: Option<Error>)
      modifies this
      ensures Outcome(nodes, err) == Commit(old(nodes), WriteFs(old(nodes), k, data))
    {
      var o := Commit(nodes, WriteFs(nodes, k, data));
      nodes, err := o.fs, o.err;
    }

    method Truncate(k: string) returns (err: Option<Error>)
      modifies this
      ensures Outcome(nodes, err) == Commit(old(nodes), TruncateFs(old(nodes), k))
    {
      var o := Commit(nodes, TruncateFs(nodes, k));
      nodes, err := o.fs, o.err;
    }

    method Remove(p: string) returns (err: Option<Error>)
      modifies this
      ensures Outcome(nodes, err) == Commit(old(nodes), RemoveFs(old(nodes), p))
    {
      var o := Commit(nodes, RemoveFs(nodes, p));
      nodes, err := o.fs, o.err;
    }

    method RemoveAll(p: string) returns (err: Option<Error>)
      modifies this
      ensures Outcome(nodes, err) == Commit(old(nodes), RemoveAllFs(old(nodes), p))
    {
      var o := Commit(nodes, RemoveAllFs(nodes, p));
      nodes, err := o.fs, o.err;
    }
  }
}
