/**
  tgz.go, the second generation of the tar.gz API. TarGzipLevelWith walks a source with
  the DefaultWalker, which names every path by the source's base name joined with the
  path below it, and the DefaultTgz writer, which writes that header and then copies in
  what the path opens to; UnTarGzip replays a stream of entries into a directory;
  AppendToTarGzipLevelWith extracts an archive into a temporary directory and writes its
  top-level items, then the new sources, into a temporary archive copied over the
  original.

  An archive is its list of entries. The gzip and tar codecs are not modelled: the stream
  a reader decodes, and the bytes a writer produces, are parameters.
*/
module TgzApi {
  import opened Wrappers
  import opened Paths
  import opened Fs
  import opened Walking
  import opened Archive
  import Files
  import Dirs
  import Copy

  // ---------------------------------------------------------------------------------------
  // gzip levels

  /** gzip.HuffmanOnly, gzip.BestCompression and gzip.DefaultCompression. */
  const HuffmanOnly: int := -2
  const BestCompression: int := 9
  const DefaultCompression: int := -1

  /** The check gzip.NewWriterLevel makes of its level: nil, or "invalid compression level". */
  function GzipLevel(level: int): (r: Option<Error>)
    ensures r.None? <==> HuffmanOnly <= level <= BestCompression
    ensures r.Some? ==> r.value == InvalidLevel(level)
  {
    if level < HuffmanOnly || level > BestCompression then Some(InvalidLevel(level)) else None
  }

  // ---------------------------------------------------------------------------------------
  // DefaultWalker

  /** The base name DefaultWalker puts in front of every name: "/" in place of "." or "". */
  function SourceBase(src: string): string {
    if Base(src) == "." || Base(src) == "" then "/" else Base(src)
  }

  /**
    The name DefaultWalker gives a walked path. When the source (through a link) is a
    directory: the source's base name joined with the path relative to the source. When it
    is not: the last element of the walked path, as path.Split cuts it.
  */
  function TgzName(src: string, srcInfo: FileInfo, path: string): Result<string, Error> {
    if srcInfo.IsDir() then
      match Rel(src, path)
      case None => Err(RelError(src, path))
      case Some(r) => Ok(Join(SourceBase(src), r))
    else Ok(SplitPath(path).1)
  }

  /**
    DefaultWalker(): the walk's error is handed back; a symbolic link has its target read;
    tar.FileInfoHeader builds the header from what Lstat says; the name is TgzName's.
  */
  function DefaultWalker(fs: FsMap, src: string, srcInfo: FileInfo, e: WalkEvent): (r: Result<TarHeader, Error>)
    ensures r.Ok? ==> e.stat.Ok?
  {
    match e.stat
    case Err(err) => Err(err)
    case Ok(info) =>
      var link :- (if Files.IsLink(fs, e.path) then Readlink(fs, e.path) else Ok(""));
      var h :- TarHeaderOf(info, link);
      var name :- TgzName(src, srcInfo, e.path);
      Ok(h.(name := name))
  }

  // ---------------------------------------------------------------------------------------
  // DefaultTgz and tgzWalk

  /**
    DefaultTgz(): the header is written, then, unless Lstat said directory, everything the
    opened path reads as is copied in (`content`, the read's result).
  */
  function DefaultTgz(h: TarHeader, info: FileInfo, content: Result<seq<byte>, Error>): Result<TarEntry, Error> {
    if info.IsDir() then TarWrite(h, [])
    else
      var data :- content;
      TarWrite(h, data)
  }

  /**
    tgzWalk's callback for one walked path. The walker's error is overwritten by the open's
    and never looked at: the path is opened (following links) and its error returned; a
    header the walker failed to build reaches DefaultTgz as nil (a panic in Go, NilHeader
    here; TgzWalkerOpens shows it does not happen on a walked path).
  */
  function TgzStep(fs: FsMap, src: string, srcInfo: FileInfo, e: WalkEvent): Result<seq<TarEntry>, Error> {
    var header := DefaultWalker(fs, src, srcInfo, e);
    var k :- OpenRead(fs, e.path);
    match header
    case Err(_) => Err(NilHeader)
    case Ok(h) =>
      var t :- DefaultTgz(h, e.stat.value, ReadAt(fs, e.path, k));
      Ok([t])
  }

  /** The callback as one closure, shared by the function and the method. */
  function TgzFn(fs: FsMap, src: string, srcInfo: FileInfo): WalkEvent -> Result<seq<TarEntry>, Error> {
    e => TgzStep(fs, src, srcInfo, e)
  }

  /** tgzWalk(writer, DefaultWalker(), DefaultTgz(), src): os.Stat of src first, then the walk. */
  function TgzWalkFs(fs: FsMap, src: string): Result<seq<TarEntry>, Error> {
    var srcInfo :- Stat(fs, src);
    Run(Walk(fs, src), TgzFn(fs, src, srcInfo))
  }

  method TgzWalk(fs: FsMap, src: string) returns (entries: seq<TarEntry>, err: Option<Error>)
    ensures TgzWalkFs(fs, src).Ok? ==> err.None? && entries == TgzWalkFs(fs, src).value
    ensures TgzWalkFs(fs, src).Err? ==> err == Some(TgzWalkFs(fs, src).error) && entries == []
  {
    var srcStat := Stat(fs, src);
    if srcStat.Err? {
      return [], Some(srcStat.error);
    }
    entries, err := WalkFn(Walk(fs, src), TgzFn(fs, src, srcStat.value));
  }

  // ---------------------------------------------------------------------------------------
  // TarGzipLevelWith

  /**
    TarGzipLevelWith(src, dest, level, DefaultWalker(), DefaultTgz()): dest is created
    (with its missing parent), the level is checked, then src is walked into the archive.
    TarGzip(src, dest) passes gzip.DefaultCompression.
  */
  function TarGzipLevelWithFs(fs: FsMap, src: string, dest: string, level: int): Archived<TarEntry> {
    var o := Files.CreateFileModeFs(fs, dest, Files.CreatePerm);
    if o.err.Some? then Archived(o.fs, [], o.err)
    else if GzipLevel(level).Some? then Archived(o.fs, [], GzipLevel(level))
    else match TgzWalkFs(o.fs, src)
      case Ok(ts) => Archived(o.fs, ts, None)
      case Err(e) => Archived(o.fs, [], Some(e))
  }

  method TarGzipLevelWith(fsys: FileSystem, src: string, dest: string, level: int) returns (entries: seq<TarEntry>, err: Option<Error>)
    modifies fsys
    ensures Archived(fsys.nodes, entries, err) == TarGzipLevelWithFs(old(fsys.nodes), src, dest, level)
  {
    var k;
    k, err := Files.CreateFile(fsys, dest);
    if err.Some? {
      return [], err;
    }
    err := GzipLevel(level);
    if err.Some? {
      return [], err;
    }
    entries, err := TgzWalk(fsys.nodes, src);
  }

  /** TarGzip(src, dest) */
  method TarGzip(fsys: FileSystem, src: string, dest: string) returns (entries: seq<TarEntry>, err: Option<Error>)
    modifies fsys
    ensures Archived(fsys.nodes, entries, err) == TarGzipLevelWithFs(old(fsys.nodes), src, dest, DefaultCompression)
  {
    entries, err := TarGzipLevelWith(fsys, src, dest, DefaultCompression);
  }

  // ---------------------------------------------------------------------------------------
  // What the walk writes

  /**
    On a walked path that opens, the walker builds a header: the path exists, is not a
    socket (those do not open), a link has a target, and the path lies below the source.
    So the nil header tgzWalk would hand on never occurs.
  */
  lemma TgzWalkerOpens(fs: FsMap, src: string, srcInfo: FileInfo, e: WalkEvent)
    requires Walked(fs, src, e) && OpenRead(fs, e.path).Ok?
    ensures DefaultWalker(fs, src, srcInfo, e).Ok?
    ensures TgzStep(fs, src, srcInfo, e) != Err(NilHeader)
  {
    OpenedNotSocket(fs, e.path);
    RelJoinAll(src, e.rel);
    assert TgzName(src, srcInfo, e.path).Ok?;
  }

  /** What opens is there, is not a socket, and when it is a link it has a target. */
  lemma OpenedNotSocket(fs: FsMap, p: string)
    requires OpenRead(fs, p).Ok?
    ensures Lstat(fs, p).Ok? && Lstat(fs, p).value.ftype != SocketFile
    ensures Files.IsLink(fs, p) ==> Readlink(fs, p).Ok?
  {
    assert Lookup(fs, p).Some?;
    assert fs[Clean(p)].SocketNode? ==> Follow(fs, Clean(p), MaxHops) == Ok(Clean(p));
  }

  /**
    On a walked path tgzWalk's callback fails only with the error of opening the path
    (what does not exist, a socket, a dangling link), of reading it (a link to a
    directory), or with "write too long" (content copied into an entry declared shorter).
  */
  lemma TgzStepErr(fs: FsMap, src: string, srcInfo: FileInfo, e: WalkEvent)
    requires Walked(fs, src, e) && TgzStep(fs, src, srcInfo, e).Err?
    ensures var err := TgzStep(fs, src, srcInfo, e).error;
      || OpenRead(fs, e.path) == Err(err)
      || (OpenRead(fs, e.path).Ok? && ReadAt(fs, e.path, OpenRead(fs, e.path).value) == Err(err))
      || err == WriteTooLong
  {
    if OpenRead(fs, e.path).Ok? {
      TgzWalkerOpens(fs, src, srcInfo, e);
    }
  }

  /**
    A regular file the walk meets becomes one TypeReg entry under the walker's name, with
    its permissions, its size and exactly its bytes.
  */
  lemma TgzRegularEntry(fs: FsMap, src: string, srcInfo: FileInfo, e: WalkEvent)
    requires Walked(fs, src, e) && e.stat.Ok? && e.stat.value.IsRegular()
    ensures TgzName(src, srcInfo, e.path).Ok?
    ensures TgzStep(fs, src, srcInfo, e) == Ok([TarEntry(
      TarHeader(TgzName(src, srcInfo, e.path).value, TypeReg, e.stat.value.perm, e.stat.value.size, ""),
      fs[Clean(e.path)].data)])
  {
    RegularReads(fs, e.path);
    TgzWalkerOpens(fs, src, srcInfo, e);
    WalkerHeader(fs, src, srcInfo, e);
    StepOfParts(fs, src, srcInfo, e);
  }

  /**
    The names under a directory source: the source's base name for the source itself, and
    base/names below it for everything the walk reaches from there.
  */
  lemma TgzDirNames(src: string, srcInfo: FileInfo, r: seq<Name>)
    requires srcInfo.IsDir() && IsName(Base(src))
    ensures TgzName(src, srcInfo, JoinAll(src, r)) == Ok(JoinElems([Base(src)] + r))
  {
    RelJoinAll(src, r);
    JoinUnderName(Base(src), r);
  }

  /** A source that is not a directory, even through a link, is walked as itself alone. */
  lemma TgzSingleSource(fs: FsMap, src: string)
    requires Stat(fs, src).Ok? && !Stat(fs, src).value.IsDir()
    ensures Walk(fs, src) == [WalkEvent(src, [], Lstat(fs, src))]
  {
    assert JoinAll(src, []) == src;
    assert Resolve(fs, src).Ok?;
    assert Lookup(fs, src).value.DirNode? ==> Follow(fs, Clean(src), MaxHops) == Ok(Clean(src));
  }

  // ---------------------------------------------------------------------------------------
  // Symbolic links in DefaultTgz

  /**
    DefaultTgz copies in whatever a symbolic link opens to, but tar.FileInfoHeader declares
    a link entry with no content: archiving a link to a non-empty file fails with "write
    too long", and so does the whole TarGzip.
  */
  lemma TgzLinkToFile(fs: FsMap, src: string, srcInfo: FileInfo, e: WalkEvent)
    requires Walked(fs, src, e) && e.stat.Ok? && e.stat.value.ftype == Symlink
    requires ReadFile(fs, e.path).Ok? && ReadFile(fs, e.path).value != []
    ensures TgzStep(fs, src, srcInfo, e) == Err(WriteTooLong)
  {
    TgzWalkerOpens(fs, src, srcInfo, e);
    var h := DefaultWalker(fs, src, srcInfo, e).value;
    var k := OpenRead(fs, e.path).value;
    WalkerHeader(fs, src, srcInfo, e);
    LinkContentTooLong(h, e.stat.value, ReadAt(fs, e.path, k));
    StepOfParts(fs, src, srcInfo, e);
  }

  /**
    The walker's header is a link header exactly for a link, and then carries the link's
    target; a regular file gets a regular header declaring its size.
  */
  lemma WalkerHeader(fs: FsMap, src: string, srcInfo: FileInfo, e: WalkEvent)
    requires Walked(fs, src, e) && DefaultWalker(fs, src, srcInfo, e).Ok?
    ensures var h := DefaultWalker(fs, src, srcInfo, e).value;
      && (h.typeflag == TypeSymlink <==> e.stat.value.ftype == Symlink)
      && (e.stat.value.ftype == Symlink ==> Readlink(fs, e.path) == Ok(h.linkname))
      && (e.stat.value.IsRegular() ==> h.typeflag == TypeReg && h.size == e.stat.value.size)
      && (e.stat.value.IsRegular() ==>
            h == TarHeader(TgzName(src, srcInfo, e.path).value, TypeReg, e.stat.value.perm, e.stat.value.size, ""))
  {
    var info := e.stat.value;
    WalkedIsLink(fs, src, e);
    var link := if Files.IsLink(fs, e.path) then Readlink(fs, e.path) else Ok("");
    WalkerOfParts(fs, src, srcInfo, e, link);
  }

  lemma WalkedIsLink(fs: FsMap, src: string, e: WalkEvent)
    requires Walked(fs, src, e) && e.stat.Ok?
    ensures Files.IsLink(fs, e.path) <==> e.stat.value.ftype == Symlink
  {
  }

  /** With the link target read, the walker's header is TarHeaderOf's, renamed. */
  lemma WalkerOfParts(fs: FsMap, src: string, srcInfo: FileInfo, e: WalkEvent, link: Result<string, Error>)
    requires DefaultWalker(fs, src, srcInfo, e).Ok?
    requires link == if Files.IsLink(fs, e.path) then Readlink(fs, e.path) else Ok("")
    ensures link.Ok? && TarHeaderOf(e.stat.value, link.value).Ok? && TgzName(src, srcInfo, e.path).Ok?
    ensures DefaultWalker(fs, src, srcInfo, e)
      == Ok(TarHeaderOf(e.stat.value, link.value).value.(name := TgzName(src, srcInfo, e.path).value))
  {
  }

  /** With a header and an open handle, the corrected callback's result is DefaultTgzIntended's. */
  lemma StepIntendedOfParts(fs: FsMap, src: string, srcInfo: FileInfo, e: WalkEvent)
    requires DefaultWalker(fs, src, srcInfo, e).Ok? && OpenRead(fs, e.path).Ok?
    ensures var h := DefaultWalker(fs, src, srcInfo, e).value;
      var t := DefaultTgzIntended(h, e.stat.value, ReadAt(fs, e.path, OpenRead(fs, e.path).value));
      TgzStepIntended(fs, src, srcInfo, e) == if t.Err? then Err(t.error) else Ok([t.value])
  {
  }

  /** With a header and an open handle, the callback's result is DefaultTgz's. */
  lemma StepOfParts(fs: FsMap, src: string, srcInfo: FileInfo, e: WalkEvent)
    requires DefaultWalker(fs, src, srcInfo, e).Ok? && OpenRead(fs, e.path).Ok?
    ensures var h := DefaultWalker(fs, src, srcInfo, e).value;
      var t := DefaultTgz(h, e.stat.value, ReadAt(fs, e.path, OpenRead(fs, e.path).value));
      TgzStep(fs, src, srcInfo, e) == if t.Err? then Err(t.error) else Ok([t.value])
  {
  }

  /** A link header declares no content, so any bytes copied in are too many. */
  lemma LinkContentTooLong(h: TarHeader, info: FileInfo, content: Result<seq<byte>, Error>)
    requires h.typeflag == TypeSymlink && info.ftype == Symlink && content.Ok? && content.value != []
    ensures DefaultTgz(h, info, content) == Err(WriteTooLong)
  {
  }

  /** DefaultTgz as evidently intended: content is copied in for a regular file only. */
  function DefaultTgzIntended(h: TarHeader, info: FileInfo, content: Result<seq<byte>, Error>): Result<TarEntry, Error> {
    if !info.IsRegular() then TarWrite(h, [])
    else
      var data :- content;
      TarWrite(h, data)
  }

  /** tgzWalk's callback with the corrected writer. */
  function TgzStepIntended(fs: FsMap, src: string, srcInfo: FileInfo, e: WalkEvent): Result<seq<TarEntry>, Error> {
    var header := DefaultWalker(fs, src, srcInfo, e);
    var k :- OpenRead(fs, e.path);
    match header
    case Err(_) => Err(NilHeader)
    case Ok(h) =>
      var t :- DefaultTgzIntended(h, e.stat.value, ReadAt(fs, e.path, k));
      Ok([t])
  }

  /**
    With the correction, every walked path that opens is archived: a regular file with its
    bytes, anything else (a link among them, with its target) as a header alone.
  */
  lemma TgzStepIntendedOk(fs: FsMap, src: string, srcInfo: FileInfo, e: WalkEvent)
    requires Walked(fs, src, e) && OpenRead(fs, e.path).Ok?
    ensures DefaultWalker(fs, src, srcInfo, e).Ok?
    ensures var h := DefaultWalker(fs, src, srcInfo, e).value;
      && TgzStepIntended(fs, src, srcInfo, e) ==
           Ok([TarEntry(h, if e.stat.value.IsRegular() then fs[Clean(e.path)].data else [])])
      && (e.stat.value.ftype == Symlink ==> h.typeflag == TypeSymlink && h.linkname == Readlink(fs, e.path).value)
  {
    TgzWalkerOpens(fs, src, srcInfo, e);
    WalkerHeader(fs, src, srcInfo, e);
    StepIntendedOfParts(fs, src, srcInfo, e);
    if e.stat.value.IsRegular() {
      RegularReads(fs, e.path);
    }
  }

  // ---------------------------------------------------------------------------------------
  // UnTarGzip

  /**
    unTgz's switch for one header, at path.Join(dest, name): a directory is made with
    MkdirAll; a regular file is created with CreateFileMode (its missing parent made, any
    old content truncated) and its bytes copied in; a symbolic link is made with
    os.Symlink; every other type flag is passed over.
  */
  function UnTgzEntryFs(fs: FsMap, dest: string, t: TarEntry): Outcome {
    var p := Join(dest, t.header.name);
    match t.header.typeflag
    case TypeDir => Dirs.MkdirAllEach(fs, [p])
    case TypeReg =>
      var o := Files.CreateFileModeFs(fs, p, t.header.mode);
      if o.err.Some? then Outcome(o.fs, o.err)
      else Commit(o.fs, WriteFs(o.fs, o.key, t.content))
    case TypeSymlink => Commit(fs, SymlinkFs(fs, t.header.linkname, p))
    case TypeOther => Outcome(fs, None)
  }

  /** unTgz's loop: every header in turn up to the first failure, then the reader's end (None for io.EOF). */
  function UnTgzAllFs(fs: FsMap, dest: string, ts: seq<TarEntry>, end: Option<Error>): Outcome
    decreases |ts|
  {
    if ts == [] then Outcome(fs, end)
    else
      var o := UnTgzEntryFs(fs, dest, ts[0]);
      if o.err.Some? then o else UnTgzAllFs(o.fs, dest, ts[1..], end)
  }

  /**
    UnTarGzip(src, dest), given the stream the gzip and tar readers decode from src's bytes
    (a gzip header error is a stream with no entries ending in that error): src must open,
    then every header is replayed. dest itself is not made first.
  */
  function UnTarGzipFs(fs: FsMap, src: string, dest: string, stream: TarStream): Outcome {
    match OpenRead(fs, src)
    case Err(e) => Outcome(fs, Some(e))
    case Ok(_) => UnTgzAllFs(fs, dest, stream.entries, stream.end)
  }

  method UnTgzEntry(fsys: FileSystem, dest: string, t: TarEntry) returns (err: Option<Error>)
    modifies fsys
    ensures Outcome(fsys.nodes, err) == UnTgzEntryFs(old(fsys.nodes), dest, t)
  {
    var p := Join(dest, t.header.name);
    match t.header.typeflag {
      case TypeDir =>
        err := Dirs.MkdirAll(fsys, [p]);
      case TypeReg =>
        var k;
        k, err := Files.CreateFileMode(fsys, p, t.header.mode);
        if err.Some? {
          return;
        }
        err := fsys.Write(k, t.content);
      case TypeSymlink =>
        err := fsys.Symlink(t.header.linkname, p);
      case TypeOther =>
        err := None;
    }
  }

  /** UnTarGzip, with unTgz's loop. */
  method UnTarGzip(fsys: FileSystem, src: string, dest: string, stream: TarStream) returns (err: Option<Error>)
    modifies fsys
    ensures Outcome(fsys.nodes, err) == UnTarGzipFs(old(fsys.nodes), src, dest, stream)
  {
    var handle := OpenRead(fsys.nodes, src);
    if handle.Err? {
      return Some(handle.error);
    }
    var ts := stream.entries;
    var i := 0;
    while i < |ts|
      invariant 0 <= i <= |ts|
      invariant UnTgzAllFs(fsys.nodes, dest, ts[i..], stream.end) == UnTarGzipFs(old(fsys.nodes), src, dest, stream)
    {
      assert ts[i..][1..] == ts[i + 1..];
      err := UnTgzEntry(fsys, dest, ts[i]);
      if err.Some? {
        return;
      }
      i := i + 1;
    }
    return stream.end;
  }

  /** A regular entry: unlike compress.go's replay, its path reads as exactly the entry's bytes. */
  lemma UnTgzRegFacts(fs: FsMap, dest: string, t: TarEntry)
    requires t.header.typeflag == TypeReg
    ensures Keeps(fs, UnTgzEntryFs(fs, dest, t).fs)
    ensures UnTgzEntryFs(fs, dest, t).err.None? ==>
      ReadFile(UnTgzEntryFs(fs, dest, t).fs, Join(dest, t.header.name)) == Ok(t.content)
  {
    var p := Join(dest, t.header.name);
    var dir := Paths.Dir(p);
    var pre := Files.CreateParent(fs, dir);
    if dir != "." && !Files.IsExist(fs, dir) {
      Dirs.MkdirAllEachFacts(fs, [dir]);
      GrowsKeeps(fs, pre.fs);
    }
    if pre.err.None? {
      var o := OpenFs(pre.fs, p, true, true, t.header.mode);
      assert Files.CreateFileModeFs(fs, p, t.header.mode) == o;
      OpenKeeps(pre.fs, p, true, true, t.header.mode);
      KeepsTrans(fs, pre.fs, o.fs);
      if o.err.None? {
        OpenWriteFacts(pre.fs, p, true, true, t.header.mode, t.content);
        assert Before(pre.fs, p, true) == [];
        KeepsTrans(fs, pre.fs, WriteFs(o.fs, o.key, t.content).value);
      }
    }
  }

  /**
    Replaying one header never removes anything and no node changes kind. On success a
    directory entry leaves a directory at its path, a regular entry a file holding exactly
    its bytes, a link entry a link to its target; other entries change nothing.
  */
  lemma UnTgzEntryFacts(fs: FsMap, dest: string, t: TarEntry)
    ensures Keeps(fs, UnTgzEntryFs(fs, dest, t).fs)
    ensures var r := UnTgzEntryFs(fs, dest, t); var p := Join(dest, t.header.name);
      && (t.header.typeflag == TypeDir && r.err.None? ==> IsDirAt(r.fs, p))
      && (t.header.typeflag == TypeReg && r.err.None? ==> ReadFile(r.fs, p) == Ok(t.content))
      && (t.header.typeflag == TypeSymlink && r.err.None? ==> Lookup(r.fs, p) == Some(LinkNode(t.header.linkname)))
      && (t.header.typeflag == TypeOther ==> r == Outcome(fs, None))
  {
    var p := Join(dest, t.header.name);
    match t.header.typeflag
    case TypeDir =>
      Dirs.MkdirAllEachFacts(fs, [p]);
      GrowsKeeps(fs, Dirs.MkdirAllEach(fs, [p]).fs);
    case TypeReg =>
      UnTgzRegFacts(fs, dest, t);
    case TypeSymlink =>
      if SymlinkFs(fs, t.header.linkname, p).Ok? {
        CreateAtFacts(fs, p, LinkNode(t.header.linkname));
        GrowsKeeps(fs, SymlinkFs(fs, t.header.linkname, p).value);
      }
    case TypeOther =>
  }

  /**
    Replaying a stream never removes anything; it succeeds only when the reader ended with
    io.EOF, and then every directory entry names a directory and every regular entry a
    readable file under dest.
  */
  lemma {:induction false} UnTgzAllFacts(fs: FsMap, dest: string, ts: seq<TarEntry>, end: Option<Error>)
    ensures Keeps(fs, UnTgzAllFs(fs, dest, ts, end).fs)
    ensures UnTgzAllFs(fs, dest, ts, end).err.None? ==> end.None?
    ensures var r := UnTgzAllFs(fs, dest, ts, end);
      r.err.None? ==> forall t | t in ts ::
        && (t.header.typeflag == TypeDir ==> IsDirAt(r.fs, Join(dest, t.header.name)))
        && (t.header.typeflag == TypeReg ==> ReadFile(r.fs, Join(dest, t.header.name)).Ok?)
    decreases |ts|
  {
    if ts != [] {
      var o := UnTgzEntryFs(fs, dest, ts[0]);
      UnTgzEntryFacts(fs, dest, ts[0]);
      if o.err.None? {
        var r := UnTgzAllFs(o.fs, dest, ts[1..], end);
        UnTgzAllFacts(o.fs, dest, ts[1..], end);
        KeepsTrans(fs, o.fs, r.fs);
        if r.err.None? {
          forall t | t in ts
            ensures t.header.typeflag == TypeDir ==> IsDirAt(r.fs, Join(dest, t.header.name))
            ensures t.header.typeflag == TypeReg ==> ReadFile(r.fs, Join(dest, t.header.name)).Ok?
          {
            if t != ts[0] {
              assert t in ts[1..];
            } else {
              KeepsResolve(o.fs, r.fs, Join(dest, t.header.name));
            }
          }
        }
      }
    }
  }

  /**
    In a tree without symbolic links, replaying one header other than a link adds no link
    and touches no file but the one at a regular entry's own path.
  */
  lemma UnTgzEntryKept(fs: FsMap, dest: string, t: TarEntry, q: string)
    requires NoLinks(fs)
    requires t.header.typeflag != TypeSymlink
    requires UnTgzEntryFs(fs, dest, t).err.None?
    ensures NoLinks(UnTgzEntryFs(fs, dest, t).fs)
    ensures (t.header.typeflag == TypeReg ==> Clean(Join(dest, t.header.name)) != q) ==>
      FileKept(fs, UnTgzEntryFs(fs, dest, t).fs, q)
  {
    var p := Join(dest, t.header.name);
    match t.header.typeflag
    case TypeDir =>
      Dirs.MkdirAllOneKept(fs, p, q);
    case TypeReg =>
      var dir := Paths.Dir(p);
      var pre := Files.CreateParent(fs, dir);
      if dir != "." && !Files.IsExist(fs, dir) {
        Dirs.MkdirAllOneKept(fs, dir, q);
      }
      var o := OpenFs(pre.fs, p, true, true, t.header.mode);
      assert Files.CreateFileModeFs(fs, p, t.header.mode) == o;
      OpenWriteKept(pre.fs, p, true, true, t.header.mode, t.content, q);
      if Clean(p) != q {
        FileKeptTrans(fs, pre.fs, WriteFs(o.fs, o.key, t.content).value, q);
      }
    case TypeOther =>
  }

  /** No entry of `ts` is a symbolic link. */
  predicate NoSymlinkEntries(ts: seq<TarEntry>) {
    forall j | 0 <= j < |ts| :: ts[j].header.typeflag != TypeSymlink
  }

  /** No regular entry of `ts` lands at key `q` below `dest`. */
  predicate RegularElsewhere(dest: string, ts: seq<TarEntry>, q: string) {
    forall j | 0 <= j < |ts| && ts[j].header.typeflag == TypeReg :: Clean(Join(dest, ts[j].header.name)) != q
  }

  lemma EntriesTail(dest: string, ts: seq<TarEntry>, q: string)
    requires ts != []
    ensures NoSymlinkEntries(ts) ==> ts[0].header.typeflag != TypeSymlink && NoSymlinkEntries(ts[1..])
    ensures RegularElsewhere(dest, ts, q) ==>
      (ts[0].header.typeflag == TypeReg ==> Clean(Join(dest, ts[0].header.name)) != q) && RegularElsewhere(dest, ts[1..], q)
  {
    assert forall j | 0 <= j < |ts| - 1 :: ts[1..][j] == ts[j + 1];
  }

  lemma {:induction false} UnTgzAllKept(fs: FsMap, dest: string, ts: seq<TarEntry>, end: Option<Error>, q: string)
    requires NoLinks(fs)
    requires NoSymlinkEntries(ts)
    requires UnTgzAllFs(fs, dest, ts, end).err.None?
    ensures NoLinks(UnTgzAllFs(fs, dest, ts, end).fs)
    ensures RegularElsewhere(dest, ts, q) ==> FileKept(fs, UnTgzAllFs(fs, dest, ts, end).fs, q)
    decreases |ts|
  {
    if ts != [] {
      var o := UnTgzEntryFs(fs, dest, ts[0]);
      EntriesTail(dest, ts, q);
      UnTgzAllCons(fs, dest, ts, end, o);
      UnTgzEntryKept(fs, dest, ts[0], q);
      UnTgzAllKept(o.fs, dest, ts[1..], end, q);
      if RegularElsewhere(dest, ts, q) {
        FileKeptTrans(fs, o.fs, UnTgzAllFs(o.fs, dest, ts[1..], end).fs, q);
      }
    }
  }

  /**
    Replaying a whole stream without link entries into a tree without symbolic links: a
    regular entry that no later regular entry replaces (none lands at the same cleaned
    path) reads back at path.Join(dest, name) as exactly its bytes.
  */
  lemma {:induction false} UnTgzAllReadsBack(fs: FsMap, dest: string, ts: seq<TarEntry>, end: Option<Error>, i: nat)
    requires NoLinks(fs)
    requires NoSymlinkEntries(ts)
    requires UnTgzAllFs(fs, dest, ts, end).err.None?
    requires i < |ts| && ts[i].header.typeflag == TypeReg
    requires RegularElsewhere(dest, ts[i + 1..], Clean(Join(dest, ts[i].header.name)))
    ensures ReadFile(UnTgzAllFs(fs, dest, ts, end).fs, Join(dest, ts[i].header.name)) == Ok(ts[i].content)
    decreases |ts|, 1
  {
    var o := UnTgzEntryFs(fs, dest, ts[0]);
    EntriesTail(dest, ts, "");
    UnTgzAllCons(fs, dest, ts, end, o);
    if i == 0 {
      UnTgzAllHead(fs, dest, ts, end, o);
    } else {
      UnTgzAllReadsLater(fs, dest, ts, end, i, o);
    }
  }

  /** A later entry: the first one leaves its key alone, and the rest of the stream writes it. */
  lemma {:induction false} UnTgzAllReadsLater(fs: FsMap, dest: string, ts: seq<TarEntry>, end: Option<Error>, i: nat, o: Outcome)
    requires NoLinks(fs)
    requires 0 < i < |ts| && ts[i].header.typeflag == TypeReg
    requires ts[0].header.typeflag != TypeSymlink && NoSymlinkEntries(ts[1..])
    requires o == UnTgzEntryFs(fs, dest, ts[0]) && o.err.None?
    requires UnTgzAllFs(o.fs, dest, ts[1..], end).err.None?
    requires RegularElsewhere(dest, ts[i + 1..], Clean(Join(dest, ts[i].header.name)))
    ensures ReadFile(UnTgzAllFs(o.fs, dest, ts[1..], end).fs, Join(dest, ts[i].header.name)) == Ok(ts[i].content)
    decreases |ts|, 0
  {
    UnTgzEntryKept(fs, dest, ts[0], Clean(Join(dest, ts[i].header.name)));
    assert ts[1..][i - 1] == ts[i] && ts[1..][i..] == ts[i + 1..];
    UnTgzAllReadsBack(o.fs, dest, ts[1..], end, i - 1);
  }

  lemma UnTgzAllCons(fs: FsMap, dest: string, ts: seq<TarEntry>, end: Option<Error>, o: Outcome)
    requires ts != [] && o == UnTgzEntryFs(fs, dest, ts[0])
    ensures UnTgzAllFs(fs, dest, ts, end) == if o.err.Some? then o else UnTgzAllFs(o.fs, dest, ts[1..], end)
  {
  }

  /** The first entry: written, then left alone by every later one. */
  lemma UnTgzAllHead(fs: FsMap, dest: string, ts: seq<TarEntry>, end: Option<Error>, o: Outcome)
    requires NoLinks(fs)
    requires ts != [] && ts[0].header.typeflag == TypeReg
    requires NoSymlinkEntries(ts[1..])
    requires o == UnTgzEntryFs(fs, dest, ts[0]) && o.err.None?
    requires UnTgzAllFs(o.fs, dest, ts[1..], end).err.None?
    requires RegularElsewhere(dest, ts[1..], Clean(Join(dest, ts[0].header.name)))
    ensures ReadFile(UnTgzAllFs(o.fs, dest, ts[1..], end).fs, Join(dest, ts[0].header.name)) == Ok(ts[0].content)
  {
    var p := Join(dest, ts[0].header.name);
    UnTgzEntryFacts(fs, dest, ts[0]);
    UnTgzEntryKept(fs, dest, ts[0], Clean(p));
    UnTgzAllKept(o.fs, dest, ts[1..], end, Clean(p));
    FileKeptRead(o.fs, UnTgzAllFs(o.fs, dest, ts[1..], end).fs, p);
  }

  /**
    The round trip for a regular file below a directory source: the one entry TarGzip
    writes for it is named base/names below the source, and replayed into any tree it
    leaves path.Join(dest, base/names) reading as the bytes the file held.
  */
  lemma TgzThenUnTgz(fs: FsMap, src: string, e: WalkEvent, target: FsMap, dest: string)
    requires Stat(fs, src).Ok? && Stat(fs, src).value.IsDir() && IsName(Base(src))
    requires Walked(fs, src, e) && e.stat.Ok? && e.stat.value.IsRegular()
    ensures var step := TgzStep(fs, src, Stat(fs, src).value, e);
      && step.Ok? && |step.value| == 1
      && step.value[0].header.name == JoinElems([Base(src)] + e.rel)
      && (UnTgzEntryFs(target, dest, step.value[0]).err.None? ==>
            ReadFile(UnTgzEntryFs(target, dest, step.value[0]).fs, Join(dest, JoinElems([Base(src)] + e.rel)))
              == ReadFile(fs, e.path))
  {
    var srcInfo := Stat(fs, src).value;
    TgzRegularEntry(fs, src, srcInfo, e);
    TgzDirNames(src, srcInfo, e.rel);
    RegularReads(fs, e.path);
    UnTgzEntryFacts(target, dest, TgzStep(fs, src, srcInfo, e).value[0]);
  }

  /** An error the callback may fail with at a walked path, as TgzStepErr lists them. */
  predicate StepError(fs: FsMap, e: WalkEvent, err: Error) {
    || OpenRead(fs, e.path) == Err(err)
    || (OpenRead(fs, e.path).Ok? && ReadAt(fs, e.path, OpenRead(fs, e.path).value) == Err(err))
    || err == WriteTooLong
  }

  /** The entry a regular file gets: the walker's name, TypeReg, its permissions and size, its bytes. */
  predicate RegularEntry(fs: FsMap, src: string, srcInfo: FileInfo, e: WalkEvent, t: TarEntry) {
    && e.stat.Ok? && e.stat.value.IsRegular() && Clean(e.path) in fs && fs[Clean(e.path)].FileNode?
    && TgzName(src, srcInfo, e.path).Ok?
    && t == TarEntry(TarHeader(TgzName(src, srcInfo, e.path).value, TypeReg, e.stat.value.perm, e.stat.value.size, ""),
                     fs[Clean(e.path)].data)
  }

  /** The walk through the callback fails with an error TgzStepErr allows for one walked path. */
  lemma TgzRunErr(fs: FsMap, src: string, srcInfo: FileInfo, es: seq<WalkEvent>)
    requires forall e | e in es :: Walked(fs, src, e)
    requires Run(es, TgzFn(fs, src, srcInfo)).Err?
    ensures exists e | e in es :: StepError(fs, e, Run(es, TgzFn(fs, src, srcInfo)).error)
  {
    var i := RunErr(es, TgzFn(fs, src, srcInfo));
    TgzStepErr(fs, src, srcInfo, es[i]);
    assert es[i] in es;
  }

  /** When the walk succeeds, each regular file it met is in the archive with its own bytes. */
  lemma TgzRunComplete(fs: FsMap, src: string, srcInfo: FileInfo, es: seq<WalkEvent>, e: WalkEvent)
    requires Walked(fs, src, e) && e in es && e.stat.Ok? && e.stat.value.IsRegular()
    requires Run(es, TgzFn(fs, src, srcInfo)).Ok?
    ensures exists t | t in Run(es, TgzFn(fs, src, srcInfo)).value :: RegularEntry(fs, src, srcInfo, e, t)
  {
    var f := TgzFn(fs, src, srcInfo);
    RunHas(es, f, e);
    TgzRegularEntry(fs, src, srcInfo, e);
    var r := TgzStep(fs, src, srcInfo, e);
    assert f(e) == r;
    assert r.value[0] in f(e).value;
    RegularReads(fs, e.path);
    assert RegularEntry(fs, src, srcInfo, e, r.value[0]);
  }

  /** And every entry of it is the one entry some walked path that opened produced. */
  lemma TgzRunSound(fs: FsMap, src: string, srcInfo: FileInfo, es: seq<WalkEvent>, t: TarEntry)
    requires Run(es, TgzFn(fs, src, srcInfo)).Ok? && t in Run(es, TgzFn(fs, src, srcInfo)).value
    ensures exists e | e in es :: OpenRead(fs, e.path).Ok? && TgzStep(fs, src, srcInfo, e) == Ok([t])
  {
    var f := TgzFn(fs, src, srcInfo);
    RunFrom(es, f, t);
    var i :| 0 <= i < |es| && f(es[i]).Ok? && t in f(es[i]).value;
    assert f(es[i]) == TgzStep(fs, src, srcInfo, es[i]);
    TgzStepSound(fs, src, srcInfo, es[i], t);
    assert es[i] in es;
  }

  lemma TgzStepSound(fs: FsMap, src: string, srcInfo: FileInfo, e: WalkEvent, t: TarEntry)
    requires TgzStep(fs, src, srcInfo, e).Ok? && t in TgzStep(fs, src, srcInfo, e).value
    ensures OpenRead(fs, e.path).Ok? && TgzStep(fs, src, srcInfo, e) == Ok([t])
  {
    TgzStepOne(fs, src, srcInfo, e);
  }

  /** A callback that succeeds opened its path and wrote exactly one entry. */
  lemma TgzStepOne(fs: FsMap, src: string, srcInfo: FileInfo, e: WalkEvent)
    requires TgzStep(fs, src, srcInfo, e).Ok?
    ensures OpenRead(fs, e.path).Ok? && |TgzStep(fs, src, srcInfo, e).value| == 1
  {
  }

  /**
    tgzWalk fails with os.Stat's error of the source, or with the error TgzStepErr allows
    for one walked path; when it succeeds, every regular file the walk meets is in the
    archive with its own bytes, and every entry comes from a walked path that opened.
  */
  lemma TgzWalkFacts(fs: FsMap, src: string)
    ensures Stat(fs, src).Err? ==> TgzWalkFs(fs, src) == Err(Stat(fs, src).error)
    ensures var a := TgzWalkFs(fs, src);
      a.Err? && Stat(fs, src).Ok? ==> exists e | e in Walk(fs, src) :: StepError(fs, e, a.error)
    ensures var a := TgzWalkFs(fs, src);
      a.Ok? ==> forall e | e in Walk(fs, src) && e.stat.Ok? && e.stat.value.IsRegular() ::
        exists t | t in a.value :: RegularEntry(fs, src, Stat(fs, src).value, e, t)
    ensures var a := TgzWalkFs(fs, src);
      a.Ok? ==> forall t | t in a.value ::
        exists e | e in Walk(fs, src) :: OpenRead(fs, e.path).Ok? && TgzStep(fs, src, Stat(fs, src).value, e) == Ok([t])
  {
    var es := Walk(fs, src);
    WalkNodeLstat(fs, src, []);
    assert forall e | e in es :: Walked(fs, src, e);
    if Stat(fs, src).Ok? {
      var srcInfo := Stat(fs, src).value;
      var a := Run(es, TgzFn(fs, src, srcInfo));
      assert TgzWalkFs(fs, src) == a;
      if a.Err? {
        TgzRunErr(fs, src, srcInfo, es);
      } else {
        forall e | e in es && e.stat.Ok? && e.stat.value.IsRegular()
          ensures exists t | t in a.value :: RegularEntry(fs, src, srcInfo, e, t)
        {
          TgzRunComplete(fs, src, srcInfo, es, e);
        }
        forall t | t in a.value
          ensures exists e | e in es :: OpenRead(fs, e.path).Ok? && TgzStep(fs, src, srcInfo, e) == Ok([t])
        {
          TgzRunSound(fs, src, srcInfo, es, t);
        }
      }
    }
  }

  /**
    Like Zip, TarGzip creates dest before it looks at src: a missing source leaves an empty
    dest behind and reports os.Stat's "no such file".
  */
  lemma TarGzipMissingSource(fs: FsMap, src: string, dest: string, level: int)
    requires Files.CreateFileModeFs(fs, dest, Files.CreatePerm).err.None? && GzipLevel(level).None?
    requires Lookup(Files.CreateFileModeFs(fs, dest, Files.CreatePerm).fs, src).None?
    ensures var o := Files.CreateFileModeFs(fs, dest, Files.CreatePerm);
      TarGzipLevelWithFs(fs, src, dest, level) == Archived(o.fs, [], Some(PathError(src, ENOENT)))
    ensures ReadFile(TarGzipLevelWithFs(fs, src, dest, level).fs, dest) == Ok([])
  {
    var o := Files.CreateFileModeFs(fs, dest, Files.CreatePerm);
    Files.CreateFileModeFacts(fs, dest, Files.CreatePerm);
    assert Resolve(o.fs, src) == Err(PathError(src, ENOENT));
  }

  // ---------------------------------------------------------------------------------------
  // AppendToTarGzipLevelWith

  /**
    MkdirTemp(os.TempDir(), "untgz"), taken to behave as os.MkdirTemp: a new directory
    "/tmp/untgz<random>".
  */
  function MkdirTempFs(fs: FsMap, random: string): Files.Temp {
    match Files.TempName(Files.TempDir, "untgz", random)
    case Err(e) => Files.Temp(fs, "", Some(e))
    case Ok(name) =>
      match MkdirFs(fs, name)
      case Ok(f) => Files.Temp(f, name, None)
      case Err(e) => Files.Temp(fs, "", Some(e))
  }

  /** The rmDir closure, deferred: os.RemoveAll of the directory, its error dropped. */
  function RmDirFs(fs: FsMap, dir: string): FsMap {
    match RemoveAllFs(fs, dir)
    case Ok(f) => f
    case Err(_) => fs
  }

  /** The paths of a listing: each name joined onto the directory. */
  function FullNames(dir: string, es: seq<DirEntry>): (r: seq<string>)
    ensures |r| == |es|
    ensures forall i | 0 <= i < |es| :: r[i] == Join(dir, es[i].name)
  {
    if es == [] then [] else [Join(dir, es[0].name)] + FullNames(dir, es[1..])
  }

  /** ReadDirFullNames(dir), taken to be the full paths of os.ReadDir's listing (none when it fails). */
  function ReadDirFullNames(fs: FsMap, dir: string): seq<string> {
    match ReadDir(fs, dir)
    case Ok(es) => FullNames(dir, es)
    case Err(_) => []
  }

  /** The loop over the sources: tgzWalk of each in order, up to the first failure. */
  function TgzWalkEach(fs: FsMap, sources: seq<string>): Result<seq<TarEntry>, Error>
    decreases |sources|
  {
    if sources == [] then Ok([])
    else
      var a :- TgzWalkFs(fs, sources[0]);
      var b :- TgzWalkEach(fs, sources[1..]);
      Ok(a + b)
  }

  /**
    The steps before anything is written: the temporary directory, the old archive
    extracted into it, the list of what to archive (the extracted top-level items, then
    the new sources are walked after them), and the temporary file. `dir` and `file` are "" until made.
  */
  datatype Prepared = Prepared(fs: FsMap, dir: string, file: string, items: seq<string>, err: Option<Error>)

  function PrepareFs(fs: FsMap, tgzPath: string, dirRandom: string, stream: TarStream, random: string): Prepared {
    var d := MkdirTempFs(fs, dirRandom);
    if d.err.Some? then Prepared(d.fs, "", "", [], d.err)
    else
      var u := UnTarGzipFs(d.fs, tgzPath, d.name, stream);
      if u.err.Some? then Prepared(u.fs, d.name, "", [], u.err)
      else
        var items := ReadDirFullNames(u.fs, d.name);
        var t := Files.CreateTempFs(u.fs, Files.TempDir, "temp.tgz", random);
        if t.err.Some? then Prepared(t.fs, d.name, "", items, t.err)
        else Prepared(t.fs, d.name, t.name, items, None)
  }

  /** The deferred calls, last made first: rm removes the temporary file, then rmDir the directory. */
  function CleanupFs(fs: FsMap, dir: string, file: string): FsMap {
    var f := if file != "" then Files.RmFs(fs, file, None).fs else fs;
    if dir != "" then RmDirFs(f, dir) else f
  }

  /**
    What follows the preparation: the level is checked, every source is walked into the
    temporary archive, the three closes are joined, the archive's bytes `encoded` are in
    the temporary file, and CopyFile copies them over tgzPath.
  */
  function WriteArchiveFs(fs: FsMap, file: string, level: int, sources: seq<string>,
                          closeErrs: seq<Option<Error>>, encoded: seq<byte>, tgzPath: string): Archived<TarEntry> {
    if GzipLevel(level).Some? then Archived(fs, [], GzipLevel(level))
    else match TgzWalkEach(fs, sources)
      case Err(e) => Archived(fs, [], Some(e))
      case Ok(ts) =>
        var closeErr := JoinErrors(closeErrs);
        if closeErr.Some? then Archived(fs, [], closeErr)
        else match WriteFs(fs, Clean(file), encoded)
          case Err(e) => Archived(fs, [], Some(e))
          case Ok(written) =>
            var c := Copy.CopyFileFs(written, written, file, tgzPath);
            Archived(c.fs, ts, c.err)
  }

  /**
    AppendToTarGzipLevelWith(level, DefaultWalker(), DefaultTgz(), tgzPath, sources...),
    given the random names the two temporary paths draw, the stream the old archive
    decodes to, the close errors and the new archive's bytes. AppendToTarGzip passes
    gzip.DefaultCompression. Whatever happens after the temporary directory is made, the
    deferred calls clean up, and their errors are dropped.
  */
  function AppendToTarGzipFs(fs: FsMap, level: int, tgzPath: string, sources: seq<string>, dirRandom: string,
                             stream: TarStream, random: string, closeErrs: seq<Option<Error>>, encoded: seq<byte>): Archived<TarEntry> {
    var p := PrepareFs(fs, tgzPath, dirRandom, stream, random);
    if p.err.Some? then Archived(CleanupFs(p.fs, p.dir, p.file), [], p.err)
    else
      var w := WriteArchiveFs(p.fs, p.file, level, p.items + sources, closeErrs, encoded, tgzPath);
      Archived(CleanupFs(w.fs, p.dir, p.file), w.entries, w.err)
  }

  method MkdirTemp(fsys: FileSystem, random: string) returns (dir: string, err: Option<Error>)
    modifies fsys
    ensures Files.Temp(fsys.nodes, dir, err) == MkdirTempFs(old(fsys.nodes), random)
  {
    var name := Files.TempName(Files.TempDir, "untgz", random);
    if name.Err? {
      return "", Some(name.error);
    }
    err := fsys.Mkdir(name.value);
    dir := if err.None? then name.value else "";
  }

  /** The loop over the sources, written out. */
  method TgzWalkSources(fs: FsMap, sources: seq<string>) returns (out: seq<TarEntry>, err: Option<Error>)
    ensures TgzWalkEach(fs, sources).Ok? ==> err.None? && out == TgzWalkEach(fs, sources).value
    ensures TgzWalkEach(fs, sources).Err? ==> err == Some(TgzWalkEach(fs, sources).error)
  {
    out := [];
    var j := 0;
    assert sources[0..] == sources;
    ThenEnds(out, TgzWalkEach(fs, sources));
    while j < |sources|
      invariant 0 <= j <= |sources|
      invariant TgzWalkEach(fs, sources) == Then(out, TgzWalkEach(fs, sources[j..]))
    {
      var written;
      written, err := TgzWalk(fs, sources[j]);
      assert sources[j..][0] == sources[j] && sources[j..][1..] == sources[j + 1..];
      var rest := TgzWalkEach(fs, sources[j + 1..]);
      assert TgzWalkEach(fs, sources[j..]) == (match TgzWalkFs(fs, sources[j]) case Err(e) => Err(e) case Ok(a) => Then(a, rest));
      if err.Some? {
        return [], err;
      }
      ThenPush(out, written, rest);
      out := out + written;
      j := j + 1;
    }
    ThenEnds(out, TgzWalkEach(fs, sources[j..]));
    return out, None;
  }

  method Prepare(fsys: FileSystem, tgzPath: string, dirRandom: string, stream: TarStream, random: string)
    returns (dir: string, file: string, items: seq<string>, err: Option<Error>)
    modifies fsys
    ensures Prepared(fsys.nodes, dir, file, items, err) == PrepareFs(old(fsys.nodes), tgzPath, dirRandom, stream, random)
  {
    dir, err := MkdirTemp(fsys, dirRandom);
    if err.Some? {
      return "", "", [], err;
    }
    err := UnTarGzip(fsys, tgzPath, dir, stream);
    if err.Some? {
      return dir, "", [], err;
    }
    items := ReadDirFullNames(fsys.nodes, dir);
    file, err := Files.CreateTempFile(fsys, Files.TempDir, "temp.tgz", random);
    if err.Some? {
      file := "";
    }
  }

  method WriteArchive(fsys: FileSystem, file: string, level: int, sources: seq<string>,
                      closeErrs: seq<Option<Error>>, encoded: seq<byte>, tgzPath: string)
    returns (entries: seq<TarEntry>, err: Option<Error>)
    modifies fsys
    ensures Archived(fsys.nodes, entries, err) == WriteArchiveFs(old(fsys.nodes), file, level, sources, closeErrs, encoded, tgzPath)
  {
    err := GzipLevel(level);
    if err.Some? {
      return [], err;
    }
    var ts;
    ts, err := TgzWalkSources(fsys.nodes, sources);
    if err.Some? {
      return [], err;
    }
    err := JoinErrors(closeErrs);
    if err.Some? {
      return [], err;
    }
    err := fsys.Write(Clean(file), encoded);
    if err.Some? {
      return [], err;
    }
    err := Copy.CopyFile(fsys, file, tgzPath);
    entries := ts;
  }

  method Cleanup(fsys: FileSystem, dir: string, file: string)
    modifies fsys
    ensures fsys.nodes == CleanupFs(old(fsys.nodes), dir, file)
  {
    if file != "" {
      var ignored := Files.Rm(fsys, file, None);
    }
    if dir != "" {
      var ignored := fsys.RemoveAll(dir);
    }
  }

  /** AppendToTarGzipLevelWith; AppendToTarGzip(tgzPath, sources...) calls it with gzip.DefaultCompression. */
  method AppendToTarGzipLevelWith(fsys: FileSystem, level: int, tgzPath: string, sources: seq<string>, dirRandom: string,
                                  stream: TarStream, random: string, closeErrs: seq<Option<Error>>, encoded: seq<byte>)
    returns (entries: seq<TarEntry>, err: Option<Error>)
    modifies fsys
    ensures Archived(fsys.nodes, entries, err) == AppendToTarGzipFs(old(fsys.nodes), level, tgzPath, sources, dirRandom, stream, random, closeErrs, encoded)
  {
    var dir, file, items;
    dir, file, items, err := Prepare(fsys, tgzPath, dirRandom, stream, random);
    if err.Some? {
      Cleanup(fsys, dir, file);
      return [], err;
    }
    entries, err := WriteArchive(fsys, file, level, items + sources, closeErrs, encoded, tgzPath);
    Cleanup(fsys, dir, file);
  }

  /** Walking two lists of sources one after the other is walking their concatenation. */
  lemma {:induction false} TgzWalkEachAppend(fs: FsMap, a: seq<string>, b: seq<string>)
    ensures TgzWalkEach(fs, a + b) == AndThen(TgzWalkEach(fs, a), TgzWalkEach(fs, b))
    decreases |a|
  {
    if a == [] {
      assert a + b == b;
      if TgzWalkEach(fs, b).Ok? {
        assert [] + TgzWalkEach(fs, b).value == TgzWalkEach(fs, b).value;
      }
    } else {
      assert (a + b)[0] == a[0] && (a + b)[1..] == a[1..] + b;
      TgzWalkEachAppend(fs, a[1..], b);
      EachCons(fs, a, b);
    }
  }

  /** One step of TgzWalkEachAppend: the first source, then the rest followed by `b`. */
  lemma EachCons(fs: FsMap, a: seq<string>, b: seq<string>)
    requires a != [] && (a + b)[0] == a[0] && (a + b)[1..] == a[1..] + b
    requires TgzWalkEach(fs, a[1..] + b) == AndThen(TgzWalkEach(fs, a[1..]), TgzWalkEach(fs, b))
    ensures TgzWalkEach(fs, a + b) == AndThen(TgzWalkEach(fs, a), TgzWalkEach(fs, b))
  {
    var h := TgzWalkFs(fs, a[0]);
    assert TgzWalkEach(fs, a + b) == AndThen(h, TgzWalkEach(fs, a[1..] + b));
    assert TgzWalkEach(fs, a) == AndThen(h, TgzWalkEach(fs, a[1..]));
    ThenAssoc(h, TgzWalkEach(fs, a[1..]), TgzWalkEach(fs, b));
  }

  /** Gathering three results in turn: grouping the first two or the last two is the same. */
  lemma ThenAssoc<T>(h: Result<seq<T>, Error>, mid: Result<seq<T>, Error>, tail: Result<seq<T>, Error>)
    ensures AndThen(h, AndThen(mid, tail)) == AndThen(AndThen(h, mid), tail)
  {
    if h.Ok? && mid.Ok? && tail.Ok? {
      assert h.value + (mid.value + tail.value) == (h.value + mid.value) + tail.value;
    }
  }

  /**
    The order of the new archive and when the original is touched. On success every step
    succeeded, and the archive holds the entries of the extracted top-level items first,
    then those of the new sources, in argument order. When the level, a walk or a close
    fails, tgzPath has not been copied over: nothing happens after the preparation but the
    deferred clean-up.
  */
  lemma AppendTgzOrder(fs: FsMap, level: int, tgzPath: string, sources: seq<string>, dirRandom: string,
                       stream: TarStream, random: string, closeErrs: seq<Option<Error>>, encoded: seq<byte>)
    ensures var p := PrepareFs(fs, tgzPath, dirRandom, stream, random);
      var r := AppendToTarGzipFs(fs, level, tgzPath, sources, dirRandom, stream, random, closeErrs, encoded);
      r.err.None? ==>
        && p.err.None? && GzipLevel(level).None? && JoinErrors(closeErrs).None?
        && TgzWalkEach(p.fs, p.items).Ok? && TgzWalkEach(p.fs, sources).Ok?
        && r.entries == TgzWalkEach(p.fs, p.items).value + TgzWalkEach(p.fs, sources).value
    ensures var p := PrepareFs(fs, tgzPath, dirRandom, stream, random);
      var r := AppendToTarGzipFs(fs, level, tgzPath, sources, dirRandom, stream, random, closeErrs, encoded);
      p.err.None? && (GzipLevel(level).Some? || TgzWalkEach(p.fs, p.items + sources).Err? || JoinErrors(closeErrs).Some?) ==>
        r.err.Some? && r.fs == CleanupFs(p.fs, p.dir, p.file)
  {
    var p := PrepareFs(fs, tgzPath, dirRandom, stream, random);
    TgzWalkEachAppend(p.fs, p.items, sources);
  }
}
