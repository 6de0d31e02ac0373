/**
  zip.go, the second generation of the zip API. ZipWith walks a source and hands every
  path that is not a directory to the ZipHeader ziper, under the name RelZipWalker gives
  it; AppendToZipWith writes an existing archive's entries and then new sources into a
  temporary archive and copies that over the original; Unzip writes out every entry that
  is not a directory.

  The walker and the ziper are the library's own, RelZipWalker(rel) and ZipHeader(). An
  archive is its list of entries; where the bytes of the container matter (the temporary
  file copied over the original) they are a parameter.
*/
module ZipApi {
  import opened Wrappers
  import opened Paths
  import opened Fs
  import opened Walking
  import opened Archive
  import Files
  import Dirs
  import Copy

  // ---------------------------------------------------------------------------------------
  // RelZipWalker and ZipHeader

  /**
    The name RelZipWalker(rel) gives a walked path: the path itself, or, when `rel`, the
    path relative to the source, with "." (the source itself) replaced by its base name.
  */
  function WalkName(rel: bool, src: string, path: string, info: FileInfo): Result<string, Error> {
    if !rel then Ok(path)
    else match Rel(src, path)
      case None => Err(RelError(src, path))
      case Some(r) => Ok(if r == "." then info.name else r)
  }

  /**
    The entry written for a walked path that is not a directory: the walker's name for it,
    its type and permissions, Deflate (Store for a name ending in "/"), and the bytes read
    through it (through a link, the bytes of what it points to).
  */
  predicate WalkedEntry(fs: FsMap, rel: bool, src: string, e: WalkEvent, z: ZipEntry) {
    && e.stat.Ok? && !e.stat.value.IsDir()
    && WalkName(rel, src, e.path, e.stat.value) == Ok(z.header.name)
    && z.header.ftype == e.stat.value.ftype && z.header.perm == e.stat.value.perm
    && z.header.compression == (if EndsWithSlash(z.header.name) then Store else Deflate)
    && ReadFile(fs, e.path) == Ok(z.content)
  }

  /**
    RelZipWalker(rel) with the ZipHeader ziper, for one walked path: an error is handed
    back, a directory is skipped, and anything else is opened, read and written as one
    entry.
  */
  function RelZipStep(fs: FsMap, rel: bool, src: string, e: WalkEvent): (r: Result<seq<ZipEntry>, Error>)
    ensures e.stat.Err? ==> r == Err(e.stat.error)
    ensures e.stat.Ok? && e.stat.value.IsDir() ==> r == Ok([])
    ensures r.Ok? ==> |r.value| <= 1
    ensures r.Ok? && e.stat.Ok? && !e.stat.value.IsDir() ==> |r.value| == 1 && WalkedEntry(fs, rel, src, e, r.value[0])
    ensures r.Err? && e.stat.Ok? ==>
      r.error == RelError(src, e.path) || ReadFile(fs, e.path) == Err(r.error) || r.error == WriteToDirectory
  {
    match e.stat
    case Err(err) => Err(err)
    case Ok(info) =>
      if info.IsDir() then Ok([])
      else
        var name :- WalkName(rel, src, e.path, info);
        var k :- OpenRead(fs, e.path);
        var data :- ReadAt(fs, e.path, k);
        var z :- ZipWrite(ZipHeaderOf(info).(name := name, compression := Deflate), data);
        Ok([z])
  }

  /** The walker as one closure, shared by the function and the method. */
  function WalkerFn(fs: FsMap, rel: bool, src: string): WalkEvent -> Result<seq<ZipEntry>, Error> {
    e => RelZipStep(fs, rel, src, e)
  }

  /** zipArchive(writer, src, walker, ziper): the entries the walk of src writes, or its first error. */
  function ArchiveSource(fs: FsMap, rel: bool, src: string): Result<seq<ZipEntry>, Error> {
    Run(Walk(fs, src), WalkerFn(fs, rel, src))
  }

  // ---------------------------------------------------------------------------------------
  // Names

  /** Below the source, the relative name is the walked names joined; the source itself gets its base name. */
  lemma RelNames(src: string, r: seq<Name>, info: FileInfo)
    ensures WalkName(true, src, JoinAll(src, r), info) == Ok(if r == [] then info.name else JoinElems(r))
  {
    RelJoinAll(src, r);
  }

  /** A walked path below the source ends in the name it was reached by. */
  lemma WalkedPathLast(src: string, r: seq<Name>)
    requires r != []
    ensures !EndsWithSlash(JoinAll(src, r))
  {
    var p := JoinAll(src, r);
    JoinAllNorm(src, r);
    assert p == Render(Rooted(src), Norm(src) + r);
    JoinElemsLast(r);
    if Norm(src) == [] {
      assert Norm(src) + r == r;
    } else {
      JoinElemsAppend(Norm(src), r);
    }
  }

  /** A base name ends in "/" only when it is "/" itself. */
  lemma BaseSlash(p: string)
    ensures EndsWithSlash(Base(p)) ==> Base(p) == "/"
  {
    if p != "" {
      var q := TrimTrailingSlashes(p);
      var last := q[LastSlash(q) + 1..];
      if last != "" {
        assert last[|last| - 1] != '/';
      }
    }
  }

  /**
    The name a walked path gets never ends in "/" (which would make it a directory entry),
    provided the source's own name does not.
  */
  lemma WalkNameNoSlash(rel: bool, src: string, e: WalkEvent)
    requires e.path == JoinAll(src, e.rel) && e.stat.Ok?
    requires e.stat.value.name == Base(e.path)
    requires e.rel == [] ==> (if rel then Base(src) != "/" else !EndsWithSlash(src))
    ensures WalkName(rel, src, e.path, e.stat.value).Ok?
    ensures !EndsWithSlash(WalkName(rel, src, e.path, e.stat.value).value)
  {
    RelNames(src, e.rel, e.stat.value);
    if e.rel == [] {
      BaseSlash(src);
    } else {
      JoinElemsLast(e.rel);
      WalkedPathLast(src, e.rel);
    }
  }

  /** The source's own name, as the walker gives it, does not end in "/". */
  predicate PlainSource(rel: bool, src: string) {
    if rel then Base(src) != "/" else !EndsWithSlash(src)
  }

  /**
    On a walked path the walker fails only with the Lstat error, with the error of opening
    or reading what is not a directory (a socket, a dangling link, a link to a directory),
    or, at the source itself when its own name ends in "/", with "write to directory".
  */
  lemma RelZipStepErr(fs: FsMap, rel: bool, src: string, e: WalkEvent)
    requires Walked(fs, src, e)
    requires RelZipStep(fs, rel, src, e).Err?
    ensures var err := RelZipStep(fs, rel, src, e).error;
      || e.stat == Err(err)
      || (e.stat.Ok? && ReadFile(fs, e.path) == Err(err))
      || (e.rel == [] && !PlainSource(rel, src) && err == WriteToDirectory)
  {
    if e.stat.Ok? {
      RelNames(src, e.rel, e.stat.value);
      if ReadFile(fs, e.path).Ok? {
        StepWriteErr(fs, rel, src, e);
      } else {
        StepReads(fs, rel, src, e);
      }
    }
  }

  /** A walked path that reads fails only where its name ends in "/", which only the source's own can. */
  lemma StepWriteErr(fs: FsMap, rel: bool, src: string, e: WalkEvent)
    requires Walked(fs, src, e) && e.stat.Ok? && ReadFile(fs, e.path).Ok?
    requires RelZipStep(fs, rel, src, e).Err?
    ensures e.rel == [] && !PlainSource(rel, src) && RelZipStep(fs, rel, src, e).error == WriteToDirectory
  {
    var info := e.stat.value;
    RelNames(src, e.rel, info);
    StepReads(fs, rel, src, e);
    var h := ZipHeaderOf(info).(name := WalkName(rel, src, e.path, info).value, compression := Deflate);
    var w := ZipWrite(h, ReadFile(fs, e.path).value);
    assert w.Err? && w.error == WriteToDirectory && EndsWithSlash(h.name);
    if e.rel != [] || PlainSource(rel, src) {
      WalkedName(fs, src, e);
      WalkNameNoSlash(rel, src, e);
    }
  }

  /** The walk reports a path under its base name. */
  lemma WalkedName(fs: FsMap, src: string, e: WalkEvent)
    requires Walked(fs, src, e) && e.stat.Ok?
    ensures e.stat.value.name == Base(e.path)
  {
  }

  /** Once named, a walked path that is not a directory is read, then written. */
  lemma StepReads(fs: FsMap, rel: bool, src: string, e: WalkEvent)
    requires e.stat.Ok? && !e.stat.value.IsDir() && WalkName(rel, src, e.path, e.stat.value).Ok?
    ensures var h := ZipHeaderOf(e.stat.value).(name := WalkName(rel, src, e.path, e.stat.value).value, compression := Deflate);
      RelZipStep(fs, rel, src, e) == (match ReadFile(fs, e.path)
        case Err(x) => Err(x)
        case Ok(data) => (match ZipWrite(h, data) case Ok(z) => Ok([z]) case Err(x) => Err(x)))
  {
  }

  /** A readable walked path, the source's own name aside, always gets through the walker. */
  lemma RelZipStepOk(fs: FsMap, rel: bool, src: string, e: WalkEvent)
    requires Walked(fs, src, e) && Readable(fs, e)
    requires e.rel == [] && !e.stat.value.IsDir() ==> PlainSource(rel, src)
    ensures RelZipStep(fs, rel, src, e).Ok?
  {
    if !e.stat.value.IsDir() {
      WalkedName(fs, src, e);
      WalkNameNoSlash(rel, src, e);
      var k := OpenRead(fs, e.path);
      assert k.Ok? && ReadAt(fs, e.path, k.value).Ok?;
      RelStepOfParts(fs, rel, src, e);
    }
  }

  /**
    Zip(src, dest) writes a regular file it meets as one entry: named by its path below
    src (a lone file by its base name), with its permissions and all of its bytes, Deflated.
  */
  lemma RelRegularEntry(fs: FsMap, src: string, e: WalkEvent)
    requires Walked(fs, src, e) && e.stat.Ok? && e.stat.value.IsRegular()
    requires e.rel == [] ==> Base(src) != "/"
    ensures RelZipStep(fs, true, src, e) ==
      Ok([ZipEntry(ZipHeader(if e.rel == [] then Base(src) else JoinElems(e.rel), Regular, e.stat.value.perm, Deflate), fs[Clean(e.path)].data)])
  {
    RegularReads(fs, e.path);
    assert e.stat.value.name == Base(e.path);
    WalkNameNoSlash(true, src, e);
    RelNames(src, e.rel, e.stat.value);
    RelStepOfParts(fs, true, src, e);
  }

  /** A named, opened and read path that is not a directory is written as one entry. */
  lemma RelStepOfParts(fs: FsMap, rel: bool, src: string, e: WalkEvent)
    requires e.stat.Ok? && !e.stat.value.IsDir() && WalkName(rel, src, e.path, e.stat.value).Ok?
    requires OpenRead(fs, e.path).Ok? && ReadAt(fs, e.path, OpenRead(fs, e.path).value).Ok?
    requires !EndsWithSlash(WalkName(rel, src, e.path, e.stat.value).value)
    ensures var info := e.stat.value;
      RelZipStep(fs, rel, src, e) == Ok([ZipEntry(
        ZipHeader(WalkName(rel, src, e.path, info).value, info.ftype, info.perm, Deflate),
        ReadAt(fs, e.path, OpenRead(fs, e.path).value).value)])
  {
  }

  // ---------------------------------------------------------------------------------------
  // zipArchive

  /** The walk through the walker fails with the error of one of the walked paths, as RelZipStepErr says. */
  lemma ArchiveRunErr(fs: FsMap, rel: bool, src: string, es: seq<WalkEvent>)
    requires forall e | e in es :: Walked(fs, src, e)
    requires Run(es, WalkerFn(fs, rel, src)).Err?
    ensures var err := Run(es, WalkerFn(fs, rel, src)).error;
      exists e | e in es ::
        || e.stat == Err(err)
        || (e.stat.Ok? && ReadFile(fs, e.path) == Err(err))
        || (e.rel == [] && !PlainSource(rel, src) && err == WriteToDirectory)
  {
    var f := WalkerFn(fs, rel, src);
    var i := RunErr(es, f);
    assert f(es[i]) == RelZipStep(fs, rel, src, es[i]);
    RelZipStepErr(fs, rel, src, es[i]);
  }

  /** When every walked path is readable, and the source's own name is plain, the walk succeeds. */
  lemma ArchiveRunOk(fs: FsMap, rel: bool, src: string, es: seq<WalkEvent>)
    requires forall e | e in es :: Walked(fs, src, e) && Readable(fs, e)
    requires PlainSource(rel, src)
    ensures Run(es, WalkerFn(fs, rel, src)).Ok?
  {
    var f := WalkerFn(fs, rel, src);
    forall i | 0 <= i < |es|
      ensures f(es[i]).Ok?
    {
      RelZipStepOk(fs, rel, src, es[i]);
    }
    RunOk(es, f);
  }

  /** Every entry the walk writes is the entry of a walked path that is not a directory. */
  lemma ArchiveRunSound(fs: FsMap, rel: bool, src: string, es: seq<WalkEvent>, z: ZipEntry)
    requires Run(es, WalkerFn(fs, rel, src)).Ok?
    requires z in Run(es, WalkerFn(fs, rel, src)).value
    ensures exists e | e in es :: WalkedEntry(fs, rel, src, e, z)
  {
    var f := WalkerFn(fs, rel, src);
    RunFrom(es, f, z);
    var i :| 0 <= i < |es| && f(es[i]).Ok? && z in f(es[i]).value;
    assert f(es[i]) == RelZipStep(fs, rel, src, es[i]);
    RelStepSound(fs, rel, src, es[i], z);
    assert es[i] in es;
  }

  lemma RelStepSound(fs: FsMap, rel: bool, src: string, e: WalkEvent, z: ZipEntry)
    requires RelZipStep(fs, rel, src, e).Ok? && z in RelZipStep(fs, rel, src, e).value
    ensures WalkedEntry(fs, rel, src, e, z)
  {
    assert z == RelZipStep(fs, rel, src, e).value[0];
  }

  /** And every walked path that is not a directory has its entry. */
  lemma ArchiveRunComplete(fs: FsMap, rel: bool, src: string, es: seq<WalkEvent>, e: WalkEvent)
    requires Run(es, WalkerFn(fs, rel, src)).Ok?
    requires e in es && e.stat.Ok? && !e.stat.value.IsDir()
    ensures exists z | z in Run(es, WalkerFn(fs, rel, src)).value :: WalkedEntry(fs, rel, src, e, z)
  {
    var f := WalkerFn(fs, rel, src);
    RunOk(es, f);
    var i :| 0 <= i < |es| && es[i] == e;
    assert f(es[i]).Ok?;
    var r := RelZipStep(fs, rel, src, e);
    assert f(e) == r;
    CollectHas(es, f, i, r.value[0]);
  }

  /**
    zipArchive fails only with the Lstat error or the read error of a path it walks, or
    with "write to directory" at a source whose own name ends in "/"; when every walked
    path is readable and the source's name is plain it succeeds. Its entries are then
    exactly those of the walked paths that are not directories: directories get no entry
    of their own, and links and sockets are archived by what reading them yields.
  */
  lemma ArchiveSourceFacts(fs: FsMap, rel: bool, src: string)
    ensures var a := ArchiveSource(fs, rel, src);
      a.Err? ==> exists e | e in Walk(fs, src) ::
        || e.stat == Err(a.error)
        || (e.stat.Ok? && ReadFile(fs, e.path) == Err(a.error))
        || (e.rel == [] && !PlainSource(rel, src) && a.error == WriteToDirectory)
    ensures (forall e | e in Walk(fs, src) :: Readable(fs, e)) && PlainSource(rel, src) ==> ArchiveSource(fs, rel, src).Ok?
    ensures var a := ArchiveSource(fs, rel, src);
      a.Ok? ==> forall z | z in a.value :: exists e | e in Walk(fs, src) :: WalkedEntry(fs, rel, src, e, z)
    ensures var a := ArchiveSource(fs, rel, src);
      a.Ok? ==> forall e | e in Walk(fs, src) && e.stat.Ok? && !e.stat.value.IsDir() ::
        exists z | z in a.value :: WalkedEntry(fs, rel, src, e, z)
  {
    var es := Walk(fs, src);
    WalkNodeLstat(fs, src, []);
    assert forall e | e in es :: Walked(fs, src, e);
    var a := ArchiveSource(fs, rel, src);
    if a.Err? {
      ArchiveRunErr(fs, rel, src, es);
      if (forall e | e in es :: Readable(fs, e)) && PlainSource(rel, src) {
        ArchiveRunOk(fs, rel, src, es);
      }
    } else {
      forall z | z in a.value
        ensures exists e | e in es :: WalkedEntry(fs, rel, src, e, z)
      {
        ArchiveRunSound(fs, rel, src, es, z);
      }
      forall e | e in es && e.stat.Ok? && !e.stat.value.IsDir()
        ensures exists z | z in a.value :: WalkedEntry(fs, rel, src, e, z)
      {
        ArchiveRunComplete(fs, rel, src, es, e);
      }
    }
  }

  // ---------------------------------------------------------------------------------------
  // ZipWith

  /**
    ZipWith(src, dest, RelZipWalker(rel), ZipHeader()): dest is made with CreateFile, then
    the walk of src fills the archive. Unlike compress.go's Zip, src is not checked first.
  */
  function ZipWithFs(fs: FsMap, src: string, dest: string, rel: bool): Archived<ZipEntry> {
    var o := Files.CreateFileModeFs(fs, dest, Files.CreatePerm);
    if o.err.Some? then Archived(o.fs, [], o.err)
    else match ArchiveSource(o.fs, rel, src)
      case Ok(zs) => Archived(o.fs, zs, None)
      case Err(e) => Archived(o.fs, [], Some(e))
  }

  /** ZipWith; Zip(src, dest) is ZipWith with rel = true. */
  method ZipWith(fsys: FileSystem, src: string, dest: string, rel: bool) returns (entries: seq<ZipEntry>, err: Option<Error>)
    modifies fsys
    ensures Archived(fsys.nodes, entries, err) == ZipWithFs(old(fsys.nodes), src, dest, rel)
  {
    var k;
    k, err := Files.CreateFile(fsys, dest);
    if err.Some? {
      return [], err;
    }
    entries, err := WalkFn(Walk(fsys.nodes, src), WalkerFn(fsys.nodes, rel, src));
  }

  /**
    A missing source is only found by the walk: dest has already been created, empty, and
    stays behind, and the error is the source's Lstat error.
  */
  lemma ZipMissingSource(fs: FsMap, src: string, dest: string, rel: bool)
    requires Files.CreateFileModeFs(fs, dest, Files.CreatePerm).err.None?
    requires Lookup(Files.CreateFileModeFs(fs, dest, Files.CreatePerm).fs, src).None?
    ensures var o := Files.CreateFileModeFs(fs, dest, Files.CreatePerm);
      ZipWithFs(fs, src, dest, rel) == Archived(o.fs, [], Some(PathError(src, ENOENT)))
    ensures ReadFile(ZipWithFs(fs, src, dest, rel).fs, dest) == Ok([])
  {
    var o := Files.CreateFileModeFs(fs, dest, Files.CreatePerm);
    Files.CreateFileModeFacts(fs, dest, Files.CreatePerm);
    var es := Walk(o.fs, src);
    assert es == [WalkEvent(src, [], Err(PathError(src, ENOENT)))];
    assert WalkerFn(o.fs, rel, src)(es[0]) == Err(PathError(src, ENOENT));
  }

  // ---------------------------------------------------------------------------------------
  // AppendToZipWith

  /**
    An existing entry as AppendToZipWith copies it: zip.FileInfoHeader of the entry's
    FileInfo (the type and permissions a reader reports, compression Store) under the
    entry's own name, with its bytes.
  */
  function Readd(z: ZipEntry): Result<ZipEntry, Error> {
    ZipWrite(ZipHeader(z.header.name, EntryType(z.header), z.header.perm, Store), z.content)
  }

  /** The loop over the existing archive's entries, in order, up to the first failure. */
  function ReaddAll(zs: seq<ZipEntry>): Result<seq<ZipEntry>, Error>
    decreases |zs|
  {
    if zs == [] then Ok([])
    else
      var a :- Readd(zs[0]);
      var b :- ReaddAll(zs[1..]);
      Ok([a] + b)
  }

  /** The loop over the new sources: zipArchive of each in order (RelZipWalker(false): full paths). */
  function ArchiveEach(fs: FsMap, sources: seq<string>): Result<seq<ZipEntry>, Error>
    decreases |sources|
  {
    if sources == [] then Ok([])
    else
      var a :- ArchiveSource(fs, false, sources[0]);
      var b :- ArchiveEach(fs, sources[1..]);
      Ok(a + b)
  }

  /**
    What the temporary archive receives, given what zip.OpenReader decodes from zipPath's
    bytes (or the error it reports): the existing entries, then the new sources.
  */
  function Rewrite(fs: FsMap, zipPath: string, sources: seq<string>, decoded: Result<seq<ZipEntry>, Error>): Result<seq<ZipEntry>, Error> {
    var handle :- OpenRead(fs, zipPath);
    var existing :- decoded;
    var kept :- ReaddAll(existing);
    var added :- ArchiveEach(fs, sources);
    Ok(kept + added)
  }

  /**
    AppendToZipWith(RelZipWalker(false), ZipHeader(), zipPath, sources...): a temporary
    file "/tmp/temp.zip<random>" receives the rewritten archive; once the reader, the
    writer and the file are closed (`closeErrs`, joined), the archive's bytes `encoded`
    are in the temporary file, which CopyFile copies over zipPath and rm removes. An
    error before the copy leaves the temporary file behind.
  */
  function AppendToZipFs(fs: FsMap, zipPath: string, sources: seq<string>, random: string,
                         decoded: Result<seq<ZipEntry>, Error>, closeErrs: seq<Option<Error>>, encoded: seq<byte>): Archived<ZipEntry>
  {
    var t := Files.CreateTempFs(fs, Files.TempDir, "temp.zip", random);
    if t.err.Some? then Archived(t.fs, [], t.err)
    else match Rewrite(t.fs, zipPath, sources, decoded)
      case Err(e) => Archived(t.fs, [], Some(e))
      case Ok(entries) =>
        var closeErr := JoinErrors(closeErrs);
        if closeErr.Some? then Archived(t.fs, [], closeErr)
        else match WriteFs(t.fs, Clean(t.name), encoded)
          case Err(e) => Archived(t.fs, [], Some(e))
          case Ok(written) =>
            var c := Copy.CopyFileFs(written, written, t.name, zipPath);
            if c.err.Some? then Archived(c.fs, entries, c.err)
            else
              var r := Files.RmFs(c.fs, t.name, None);
              Archived(r.fs, entries, r.err)
  }

  /** The loop over the existing entries, written out: the entries copied so far, or the first error. */
  method ReaddEntries(zs: seq<ZipEntry>) returns (out: seq<ZipEntry>, err: Option<Error>)
    ensures ReaddAll(zs).Ok? ==> err.None? && out == ReaddAll(zs).value
    ensures ReaddAll(zs).Err? ==> err == Some(ReaddAll(zs).error)
  {
    out := [];
    var i := 0;
    assert zs[0..] == zs;
    ThenEnds(out, ReaddAll(zs));
    while i < |zs|
      invariant 0 <= i <= |zs|
      invariant ReaddAll(zs) == Then(out, ReaddAll(zs[i..]))
    {
      var z := Readd(zs[i]);
      assert zs[i..][0] == zs[i] && zs[i..][1..] == zs[i + 1..];
      var rest := ReaddAll(zs[i + 1..]);
      assert ReaddAll(zs[i..]) == (match z case Err(e) => Err(e) case Ok(a) => Then([a], rest));
      if z.Err? {
        return [], Some(z.error);
      }
      ThenPush(out, [z.value], rest);
      out := out + [z.value];
      i := i + 1;
    }
    ThenEnds(out, ReaddAll(zs[i..]));
    return out, None;
  }

  /** The loop over the new sources, written out. */
  method ArchiveSources(fs: FsMap, sources: seq<string>) returns (out: seq<ZipEntry>, err: Option<Error>)
    ensures ArchiveEach(fs, sources).Ok? ==> err.None? && out == ArchiveEach(fs, sources).value
    ensures ArchiveEach(fs, sources).Err? ==> err == Some(ArchiveEach(fs, sources).error)
  {
    out := [];
    var j := 0;
    assert sources[0..] == sources;
    ThenEnds(out, ArchiveEach(fs, sources));
    while j < |sources|
      invariant 0 <= j <= |sources|
      invariant ArchiveEach(fs, sources) == Then(out, ArchiveEach(fs, sources[j..]))
    {
      var written;
      written, err := WalkFn(Walk(fs, sources[j]), WalkerFn(fs, false, sources[j]));
      assert sources[j..][0] == sources[j] && sources[j..][1..] == sources[j + 1..];
      var rest := ArchiveEach(fs, sources[j + 1..]);
      assert ArchiveEach(fs, sources[j..]) == (match ArchiveSource(fs, false, sources[j]) case Err(e) => Err(e) case Ok(a) => Then(a, rest));
      if err.Some? {
        return [], err;
      }
      ThenPush(out, written, rest);
      out := out + written;
      j := j + 1;
    }
    ThenEnds(out, ArchiveEach(fs, sources[j..]));
    return out, None;
  }

  /** AppendToZipWith; AppendToZip(zipPath, sources...) calls it with RelZipWalker(false). */
  method AppendToZipWith(fsys: FileSystem, zipPath: string, sources: seq<string>, random: string,
                         decoded: Result<seq<ZipEntry>, Error>, closeErrs: seq<Option<Error>>, encoded: seq<byte>)
    returns (entries: seq<ZipEntry>, err: Option<Error>)
    modifies fsys
    ensures Archived(fsys.nodes, entries, err) == AppendToZipFs(old(fsys.nodes), zipPath, sources, random, decoded, closeErrs, encoded)
  {
    var name;
    name, err := Files.CreateTempFile(fsys, Files.TempDir, "temp.zip", random);
    if err.Some? {
      return [], err;
    }
    var handle := OpenRead(fsys.nodes, zipPath);
    if handle.Err? {
      return [], Some(handle.error);
    }
    if decoded.Err? {
      return [], Some(decoded.error);
    }
    var kept, added;
    kept, err := ReaddEntries(decoded.value);
    if err.Some? {
      return [], err;
    }
    added, err := ArchiveSources(fsys.nodes, sources);
    if err.Some? {
      return [], err;
    }
    entries := kept + added;
    err := JoinErrors(closeErrs);
    if err.Some? {
      return [], err;
    }
    err := fsys.Write(Clean(name), encoded);
    if err.Some? {
      return [], err;
    }
    err := Copy.CopyFile(fsys, name, zipPath);
    if err.Some? {
      return;
    }
    err := Files.Rm(fsys, name, None);
  }

  // ---------------------------------------------------------------------------------------
  // Unzip

  /**
    unzip's loop body for one entry: a directory entry is skipped; any other is written to
    path.Join(dest, name) once MkdirAll has made its directory, opened with O_TRUNC and
    the entry's mode, and a write error comes back through errors.Join.
  */
  function UnzipEntryFs(fs: FsMap, dest: string, z: ZipEntry): Outcome {
    if EntryType(z.header) == Directory then Outcome(fs, None)
    else
      var p := Join(dest, z.header.name);
      var m := Dirs.MkdirAllEach(fs, [Dir(p)]);
      if m.err.Some? then m else WriteEntryFs(m.fs, p, z)
  }

  /** Opening `p` with O_WRONLY|O_TRUNC|O_CREATE and the entry's mode, and copying its bytes in. */
  function WriteEntryFs(fs: FsMap, p: string, z: ZipEntry): Outcome {
    var o := OpenFs(fs, p, true, true, z.header.perm);
    if o.err.Some? then Outcome(fs, o.err)
    else match WriteFs(o.fs, o.key, z.content)
      case Ok(f) => Outcome(f, None)
      case Err(e) => Outcome(o.fs, JoinErrors([Some(e), None, None]))
  }

  /** unzip's loop: every entry in order, up to the first failure. */
  function UnzipAllFs(fs: FsMap, dest: string, zs: seq<ZipEntry>): Outcome
    decreases |zs|
  {
    if zs == [] then Outcome(fs, None)
    else
      var o := UnzipEntryFs(fs, dest, zs[0]);
      if o.err.Some? then o else UnzipAllFs(o.fs, dest, zs[1..])
  }

  /**
    Unzip(src, dest), given what zip.OpenReader decodes from src's bytes (or the error it
    reports): src must open, then unzip runs over the entries.
  */
  function UnzipFs(fs: FsMap, src: string, dest: string, decoded: Result<seq<ZipEntry>, Error>): Outcome {
    match OpenRead(fs, src)
    case Err(e) => Outcome(fs, Some(e))
    case Ok(_) =>
      match decoded
      case Err(e) => Outcome(fs, Some(e))
      case Ok(zs) => UnzipAllFs(fs, dest, zs)
  }

  /** The body of unzip's loop. */
  method UnzipEntry(fsys: FileSystem, dest: string, z: ZipEntry) returns (err: Option<Error>)
    modifies fsys
    ensures Outcome(fsys.nodes, err) == UnzipEntryFs(old(fsys.nodes), dest, z)
  {
    if EntryType(z.header) == Directory {
      return None;
    }
    var p := Join(dest, z.header.name);
    err := Dirs.MkdirAll(fsys, [Dir(p)]);
    if err.Some? {
      return;
    }
    err := WriteEntry(fsys, p, z);
  }

  method WriteEntry(fsys: FileSystem, p: string, z: ZipEntry) returns (err: Option<Error>)
    modifies fsys
    ensures Outcome(fsys.nodes, err) == WriteEntryFs(old(fsys.nodes), p, z)
  {
    var k;
    k, err := fsys.OpenFile(p, true, true, z.header.perm);
    if err.Some? {
      return;
    }
    var w := fsys.Write(k, z.content);
    err := if w.Some? then JoinErrors([w, None, None]) else None;
  }

  /** Unzip, with unzip's loop. */
  method Unzip(fsys: FileSystem, src: string, dest: string, decoded: Result<seq<ZipEntry>, Error>) returns (err: Option<Error>)
    modifies fsys
    ensures Outcome(fsys.nodes, err) == UnzipFs(old(fsys.nodes), src, dest, decoded)
  {
    var handle := OpenRead(fsys.nodes, src);
    if handle.Err? {
      return Some(handle.error);
    }
    if decoded.Err? {
      return Some(decoded.error);
    }
    var zs := decoded.value;
    var i := 0;
    while i < |zs|
      invariant 0 <= i <= |zs|
      invariant UnzipAllFs(fsys.nodes, dest, zs[i..]) == UnzipFs(old(fsys.nodes), src, dest, decoded)
    {
      assert zs[i..][1..] == zs[i + 1..];
      err := UnzipEntry(fsys, dest, zs[i]);
      if err.Some? {
        return;
      }
      i := i + 1;
    }
    return None;
  }

  // ---------------------------------------------------------------------------------------
  // What AppendToZipWith keeps

  /** An existing entry and its copy: the same name, bytes, reported type and permissions, stored uncompressed. */
  predicate Kept(z: ZipEntry, y: ZipEntry) {
    && y.header.name == z.header.name && y.content == z.content
    && EntryType(y.header) == EntryType(z.header) && y.header.perm == z.header.perm
    && y.header.compression == Store
  }

  /** A directory entry (its name ends in "/") that nonetheless holds bytes. */
  predicate DirWithBytes(z: ZipEntry) {
    EndsWithSlash(z.header.name) && z.content != []
  }

  /**
    Copying the existing entries keeps every one of them, in order; it fails, with "write
    to directory", exactly when some directory entry holds bytes.
  */
  lemma {:induction false} ReaddAllFacts(zs: seq<ZipEntry>)
    ensures ReaddAll(zs).Err? <==> exists i | 0 <= i < |zs| :: DirWithBytes(zs[i])
    ensures ReaddAll(zs).Err? ==> ReaddAll(zs).error == WriteToDirectory
    ensures ReaddAll(zs).Ok? ==> |ReaddAll(zs).value| == |zs| && forall i | 0 <= i < |zs| :: Kept(zs[i], ReaddAll(zs).value[i])
    decreases |zs|
  {
    if zs != [] {
      ReaddAllFacts(zs[1..]);
      assert forall i | 1 <= i < |zs| :: zs[1..][i - 1] == zs[i];
      var a := Readd(zs[0]);
      if a.Ok? && ReaddAll(zs[1..]).Ok? {
        var r := ReaddAll(zs).value;
        assert r == [a.value] + ReaddAll(zs[1..]).value;
        forall i | 0 <= i < |zs|
          ensures Kept(zs[i], r[i])
        {
          if i > 0 {
            assert r[i] == ReaddAll(zs[1..]).value[i - 1];
          }
        }
      }
    }
  }

  /**
    A successful AppendToZipWith writes the existing entries first, each kept as it was,
    and then exactly what zipArchive writes for the new sources, in order.
  */
  lemma AppendEntries(fs: FsMap, zipPath: string, sources: seq<string>, random: string,
                      decoded: Result<seq<ZipEntry>, Error>, closeErrs: seq<Option<Error>>, encoded: seq<byte>)
    requires AppendToZipFs(fs, zipPath, sources, random, decoded, closeErrs, encoded).err.None?
    ensures var entries := AppendToZipFs(fs, zipPath, sources, random, decoded, closeErrs, encoded).entries;
      var t := Files.CreateTempFs(fs, Files.TempDir, "temp.zip", random);
      && decoded.Ok? && ArchiveEach(t.fs, sources).Ok?
      && |entries| == |decoded.value| + |ArchiveEach(t.fs, sources).value|
      && (forall i | 0 <= i < |decoded.value| :: Kept(decoded.value[i], entries[i]))
      && entries[|decoded.value|..] == ArchiveEach(t.fs, sources).value
  {
    var t := Files.CreateTempFs(fs, Files.TempDir, "temp.zip", random);
    AppendSucceeded(fs, zipPath, sources, random, decoded, closeErrs, encoded);
    ReaddAllFacts(decoded.value);
    var kept := ReaddAll(decoded.value).value;
    var added := ArchiveEach(t.fs, sources).value;
    assert (kept + added)[|kept|..] == added;
  }

  /** A successful append went through every step, and its entries are Rewrite's. */
  lemma AppendSucceeded(fs: FsMap, zipPath: string, sources: seq<string>, random: string,
                        decoded: Result<seq<ZipEntry>, Error>, closeErrs: seq<Option<Error>>, encoded: seq<byte>)
    requires AppendToZipFs(fs, zipPath, sources, random, decoded, closeErrs, encoded).err.None?
    ensures var t := Files.CreateTempFs(fs, Files.TempDir, "temp.zip", random);
      && t.err.None?
      && decoded.Ok? && ReaddAll(decoded.value).Ok? && ArchiveEach(t.fs, sources).Ok?
      && Rewrite(t.fs, zipPath, sources, decoded) == Ok(ReaddAll(decoded.value).value + ArchiveEach(t.fs, sources).value)
      && AppendToZipFs(fs, zipPath, sources, random, decoded, closeErrs, encoded).entries
         == Rewrite(t.fs, zipPath, sources, decoded).value
      && JoinErrors(closeErrs).None?
      && WriteFs(t.fs, Clean(t.name), encoded).Ok?
      && var written := WriteFs(t.fs, Clean(t.name), encoded).value;
         var c := Copy.CopyFileFs(written, written, t.name, zipPath);
         && c.err.None?
         && AppendToZipFs(fs, zipPath, sources, random, decoded, closeErrs, encoded).fs == Files.RmFs(c.fs, t.name, None).fs
  {
  }

  /** Every entry the new sources give is the entry of a path walked from one of them. */
  lemma {:induction false} ArchiveEachSound(fs: FsMap, sources: seq<string>, z: ZipEntry)
    requires ArchiveEach(fs, sources).Ok? && z in ArchiveEach(fs, sources).value
    ensures exists s, e | s in sources && e in Walk(fs, s) :: WalkedEntry(fs, false, s, e, z)
    decreases |sources|
  {
    var a := ArchiveSource(fs, false, sources[0]).value;
    if z in a {
      ArchiveSourceFacts(fs, false, sources[0]);
      assert sources[0] in sources;
    } else {
      ArchiveEachSound(fs, sources[1..], z);
      var s, e :| s in sources[1..] && e in Walk(fs, s) && WalkedEntry(fs, false, s, e, z);
      assert s in sources;
    }
  }

  // ---------------------------------------------------------------------------------------
  // What AppendToZipWith does to the tree

  /** zipPath's node after the copy: the archive's bytes written over what it held. */
  function Replaced(fs: FsMap, zipPath: string, encoded: seq<byte>): Node
    requires Clean(zipPath) in fs && fs[Clean(zipPath)].FileNode?
  {
    var prev := fs[Clean(zipPath)];
    FileNode(Overwrite(prev.data, encoded), prev.perm)
  }

  /**
    Writing the archive into a freshly created temporary file and copying that over a
    regular file zipPath leaves the temporary file, and zipPath holding the archive's bytes
    over its old ones.
  */
  lemma WriteThenCopy(fs: FsMap, n: string, perm: nat, zipPath: string, encoded: seq<byte>)
    requires CreateAt(fs, n, FileNode([], perm)).Ok?
    requires zipPath != "" && Clean(zipPath) in fs && fs[Clean(zipPath)].FileNode?
    ensures var fs0 := CreateAt(fs, n, FileNode([], perm)).value;
      && WriteFs(fs0, Clean(n), encoded) == Ok(fs0[Clean(n) := FileNode(encoded, perm)])
      && Copy.CopyFileFs(fs0[Clean(n) := FileNode(encoded, perm)], fs0[Clean(n) := FileNode(encoded, perm)], n, zipPath)
         == Outcome(fs0[Clean(n) := FileNode(encoded, perm)][Clean(zipPath) := Replaced(fs, zipPath, encoded)], None)
  {
    CreateAtFacts(fs, n, FileNode([], perm));
    var fs0 := CreateAt(fs, n, FileNode([], perm)).value;
    var kt, kz := Clean(n), Clean(zipPath);
    assert Overwrite([], encoded) == encoded;
    var fs1 := fs0[kt := FileNode(encoded, perm)];
    assert n != "" by {
      SplitSmall();
      assert Norm("") == [];
    }
    assert Follow(fs1, kt, MaxHops) == Ok(kt);
    assert OpenRead(fs1, n) == Ok(kt);
    assert ParentKey(n) != kz;
    assert fs1[kz] == fs[kz];
    assert Follow(fs1, kz, MaxHops) == Ok(kz);
    assert Copy.CreateFileFs(fs1, zipPath) == Opened(fs1, kz, None);
    assert ReadAt(fs1, n, kt) == Ok(encoded);
  }

  /**
    Removing the temporary file then gives back the tree the call started from, with only
    zipPath's node replaced, provided the temporary name was not already listed.
  */
  lemma RemoveTemp(fs: FsMap, n: string, perm: nat, zipPath: string, encoded: seq<byte>)
    requires CreateAt(fs, n, FileNode([], perm)).Ok?
    requires LastName(n) !in fs[ParentKey(n)].names
    requires zipPath != "" && Clean(zipPath) in fs && fs[Clean(zipPath)].FileNode?
    ensures var fs0 := CreateAt(fs, n, FileNode([], perm)).value;
      var fs2 := fs0[Clean(n) := FileNode(encoded, perm)][Clean(zipPath) := Replaced(fs, zipPath, encoded)];
      Files.RmFs(fs2, n, None) == Outcome(fs[Clean(zipPath) := Replaced(fs, zipPath, encoded)], None)
  {
    CreateAtFacts(fs, n, FileNode([], perm));
    var fs0 := CreateAt(fs, n, FileNode([], perm)).value;
    var kt, kz, parent := Clean(n), Clean(zipPath), ParentKey(n);
    var node := FileNode(encoded, perm);
    var fs2 := fs0[kt := node][kz := Replaced(fs, zipPath, encoded)];
    var fsZ := fs[kz := Replaced(fs, zipPath, encoded)];
    ParentNotSelf(n);
    assert parent != kz;
    var listing := DirNode(InsertName(fs[parent].names, LastName(n)));
    assert fs0 == fs[kt := FileNode([], perm)][parent := listing];
    assert CreateAt(fsZ, n, node) == Ok(fsZ[kt := node][parent := listing]);
    assert fs2 == fsZ[kt := node][parent := listing];
    CreateThenRemove(fsZ, n, node);
  }

  /** The temporary name was not already listed in its directory (CreateTemp would then retry). */
  predicate FreshTemp(fs: FsMap, random: string) {
    var t := Files.CreateTempFs(fs, Files.TempDir, "temp.zip", random);
    t.err.None? && HasName(t.name) && ParentKey(t.name) in fs && fs[ParentKey(t.name)].DirNode? ==>
      LastName(t.name) !in fs[ParentKey(t.name)].names
  }

  /**
    A successful AppendToZipWith onto a regular file changes nothing in the tree but that
    file: the temporary file is gone again, and zipPath holds the new archive's bytes
    written over its old ones.
  */
  lemma AppendReplaces(fs: FsMap, zipPath: string, sources: seq<string>, random: string,
                       decoded: Result<seq<ZipEntry>, Error>, closeErrs: seq<Option<Error>>, encoded: seq<byte>)
    requires zipPath != "" && Clean(zipPath) in fs && fs[Clean(zipPath)].FileNode?
    requires FreshTemp(fs, random)
    requires AppendToZipFs(fs, zipPath, sources, random, decoded, closeErrs, encoded).err.None?
    ensures AppendToZipFs(fs, zipPath, sources, random, decoded, closeErrs, encoded).fs
      == fs[Clean(zipPath) := Replaced(fs, zipPath, encoded)]
  {
    var t := Files.CreateTempFs(fs, Files.TempDir, "temp.zip", random);
    var n := t.name;
    assert CreateNewFs(fs, n, Files.TempPerm) == Ok(t.fs);
    assert CreateAt(fs, n, FileNode([], Files.TempPerm)) == Ok(t.fs);
    CreateAtFacts(fs, n, FileNode([], Files.TempPerm));
    WriteThenCopy(fs, n, Files.TempPerm, zipPath, encoded);
    RemoveTemp(fs, n, Files.TempPerm, zipPath, encoded);
  }

  /**
    An AppendToZipWith that fails after the temporary file was created and before the copy
    (zipPath does not open, the archive is not decoded, an entry is not rewritten, a new
    source fails, a close fails, or the write does) reports an error and no entries, and
    leaves the tree as CreateTemp made it: the temporary file stays behind, and a regular
    zipPath still holds exactly what it held.
  */
  lemma AppendFailsEarly(fs: FsMap, zipPath: string, sources: seq<string>, random: string,
                         decoded: Result<seq<ZipEntry>, Error>, closeErrs: seq<Option<Error>>, encoded: seq<byte>)
    requires var t := Files.CreateTempFs(fs, Files.TempDir, "temp.zip", random);
      && t.err.None?
      && (|| Rewrite(t.fs, zipPath, sources, decoded).Err?
          || JoinErrors(closeErrs).Some?
          || WriteFs(t.fs, Clean(t.name), encoded).Err?)
    ensures var r := AppendToZipFs(fs, zipPath, sources, random, decoded, closeErrs, encoded);
      var t := Files.CreateTempFs(fs, Files.TempDir, "temp.zip", random);
      && r.err.Some? && r.entries == []
      && r.fs == t.fs
      && Clean(t.name) !in fs && Clean(t.name) in t.fs && t.fs[Clean(t.name)] == FileNode([], Files.TempPerm)
      && (Clean(zipPath) in fs && fs[Clean(zipPath)].FileNode? ==>
            Clean(zipPath) in r.fs && r.fs[Clean(zipPath)] == fs[Clean(zipPath)])
  {
    var t := Files.CreateTempFs(fs, Files.TempDir, "temp.zip", random);
    var n := t.name;
    assert CreateAt(fs, n, FileNode([], Files.TempPerm)) == Ok(t.fs);
    CreateAtFacts(fs, n, FileNode([], Files.TempPerm));
    if Clean(zipPath) in fs && fs[Clean(zipPath)].FileNode? {
      CreateKeepsFile(fs, n, FileNode([], Files.TempPerm), Clean(zipPath));
    }
  }

  /** Creating a node changes no regular file already in the tree. */
  lemma CreateKeepsFile(fs: FsMap, p: string, node: Node, k: string)
    requires CreateAt(fs, p, node).Ok? && k in fs && fs[k].FileNode?
    ensures k in CreateAt(fs, p, node).value && CreateAt(fs, p, node).value[k] == fs[k]
  {
  }

  /**
    So when the new archive is shorter than the old one, zipPath does not end up holding
    the new archive: the old archive's tail (its central directory, which zip readers look
    for at the end) is still there after it.
  */
  lemma AppendLeavesTail(fs: FsMap, zipPath: string, sources: seq<string>, random: string,
                         decoded: Result<seq<ZipEntry>, Error>, closeErrs: seq<Option<Error>>, encoded: seq<byte>)
    requires zipPath != "" && Clean(zipPath) in fs && fs[Clean(zipPath)].FileNode?
    requires FreshTemp(fs, random)
    requires AppendToZipFs(fs, zipPath, sources, random, decoded, closeErrs, encoded).err.None?
    requires |encoded| < |fs[Clean(zipPath)].data|
    ensures var after := AppendToZipFs(fs, zipPath, sources, random, decoded, closeErrs, encoded).fs;
      ReadFile(after, zipPath) == Ok(Overwrite(fs[Clean(zipPath)].data, encoded)) && ReadFile(after, zipPath) != Ok(encoded)
  {
    AppendReplaces(fs, zipPath, sources, random, decoded, closeErrs, encoded);
    var after := fs[Clean(zipPath) := Replaced(fs, zipPath, encoded)];
    assert Follow(after, Clean(zipPath), MaxHops) == Ok(Clean(zipPath));
  }

  // ---------------------------------------------------------------------------------------
  // What Unzip writes

  /**
    Writing one entry fails only when the open does (a write through a fresh handle cannot),
    keeps every node's kind, and leaves the path reading as exactly the entry's bytes,
    since the open truncates.
  */
  lemma WriteEntryFacts(fs: FsMap, p: string, z: ZipEntry)
    ensures WriteEntryFs(fs, p, z).err.None? <==> OpenFs(fs, p, true, true, z.header.perm).err.None?
    ensures WriteEntryFs(fs, p, z).err.None? ==> ReadFile(WriteEntryFs(fs, p, z).fs, p) == Ok(z.content)
    ensures Keeps(fs, WriteEntryFs(fs, p, z).fs)
  {
    OpenKeeps(fs, p, true, true, z.header.perm);
    if OpenFs(fs, p, true, true, z.header.perm).err.None? {
      OpenWriteFacts(fs, p, true, true, z.header.perm, z.content);
      assert Before(fs, p, true) == [];
    }
  }

  /**
    One entry: a directory entry changes nothing; any other, when it succeeds, leaves
    path.Join(dest, name) reading as the entry's bytes; no node changes kind either way.
  */
  lemma UnzipEntryFacts(fs: FsMap, dest: string, z: ZipEntry)
    ensures EntryType(z.header) == Directory ==> UnzipEntryFs(fs, dest, z) == Outcome(fs, None)
    ensures EntryType(z.header) != Directory && UnzipEntryFs(fs, dest, z).err.None? ==>
      ReadFile(UnzipEntryFs(fs, dest, z).fs, Join(dest, z.header.name)) == Ok(z.content)
    ensures Keeps(fs, UnzipEntryFs(fs, dest, z).fs)
  {
    if EntryType(z.header) != Directory {
      var p := Join(dest, z.header.name);
      var m := Dirs.MkdirAllEach(fs, [Dir(p)]);
      Dirs.MkdirAllEachFacts(fs, [Dir(p)]);
      GrowsKeeps(fs, m.fs);
      if m.err.None? {
        WriteEntryFacts(m.fs, p, z);
        KeepsTrans(fs, m.fs, WriteEntryFs(m.fs, p, z).fs);
      }
    }
  }

  /**
    The whole loop: no node changes kind, and when it succeeds every file entry's path is
    readable (holding the bytes of the last entry of that name).
  */
  lemma {:induction false} UnzipAllFacts(fs: FsMap, dest: string, zs: seq<ZipEntry>)
    ensures Keeps(fs, UnzipAllFs(fs, dest, zs).fs)
    ensures UnzipAllFs(fs, dest, zs).err.None? ==>
      forall z | z in zs && EntryType(z.header) != Directory :: ReadFile(UnzipAllFs(fs, dest, zs).fs, Join(dest, z.header.name)).Ok?
    decreases |zs|
  {
    if zs != [] {
      var o := UnzipEntryFs(fs, dest, zs[0]);
      UnzipEntryFacts(fs, dest, zs[0]);
      if o.err.None? {
        var f := UnzipAllFs(o.fs, dest, zs[1..]).fs;
        UnzipAllFacts(o.fs, dest, zs[1..]);
        KeepsTrans(fs, o.fs, f);
        if UnzipAllFs(o.fs, dest, zs[1..]).err.None? {
          forall z | z in zs && EntryType(z.header) != Directory
            ensures ReadFile(f, Join(dest, z.header.name)).Ok?
          {
            if z != zs[0] {
              assert z in zs[1..];
            } else {
              KeepsResolve(o.fs, f, Join(dest, z.header.name));
            }
          }
        }
      }
    }
  }

  /**
    In a tree without symbolic links, writing one entry adds no link and touches no file
    but the one at a non-directory entry's own path.
  */
  lemma UnzipEntryKept(fs: FsMap, dest: string, z: ZipEntry, q: string)
    requires NoLinks(fs)
    requires UnzipEntryFs(fs, dest, z).err.None?
    ensures NoLinks(UnzipEntryFs(fs, dest, z).fs)
    ensures (EntryType(z.header) != Directory ==> Clean(Join(dest, z.header.name)) != q) ==>
      FileKept(fs, UnzipEntryFs(fs, dest, z).fs, q)
  {
    if EntryType(z.header) != Directory {
      var p := Join(dest, z.header.name);
      var m := Dirs.MkdirAllEach(fs, [Dir(p)]);
      Dirs.MkdirAllOneKept(fs, Dir(p), q);
      UnzipEntrySplit(fs, dest, z, p, m);
      WriteEntryKept(m.fs, p, z, q);
      if Clean(p) != q {
        FileKeptTrans(fs, m.fs, WriteEntryFs(m.fs, p, z).fs, q);
      }
    }
  }

  lemma UnzipEntrySplit(fs: FsMap, dest: string, z: ZipEntry, p: string, m: Outcome)
    requires EntryType(z.header) != Directory && p == Join(dest, z.header.name)
    requires m == Dirs.MkdirAllEach(fs, [Dir(p)])
    ensures UnzipEntryFs(fs, dest, z) == if m.err.Some? then m else WriteEntryFs(m.fs, p, z)
  {
  }

  lemma WriteEntryKept(fs: FsMap, p: string, z: ZipEntry, q: string)
    requires NoLinks(fs)
    requires WriteEntryFs(fs, p, z).err.None?
    ensures NoLinks(WriteEntryFs(fs, p, z).fs)
    ensures q != Clean(p) ==> FileKept(fs, WriteEntryFs(fs, p, z).fs, q)
  {
    OpenWriteKept(fs, p, true, true, z.header.perm, z.content, q);
  }

  /** No entry of `zs` that Unzip writes as a file lands at key `q`. */
  predicate WritesElsewhere(dest: string, zs: seq<ZipEntry>, q: string) {
    forall j | 0 <= j < |zs| && EntryType(zs[j].header) != Directory :: Clean(Join(dest, zs[j].header.name)) != q
  }

  lemma WritesElsewhereTail(dest: string, zs: seq<ZipEntry>, q: string)
    requires zs != [] && WritesElsewhere(dest, zs, q)
    ensures EntryType(zs[0].header) != Directory ==> Clean(Join(dest, zs[0].header.name)) != q
    ensures WritesElsewhere(dest, zs[1..], q)
  {
    assert forall j | 0 <= j < |zs| - 1 :: zs[1..][j] == zs[j + 1];
  }

  lemma {:induction false} UnzipAllKept(fs: FsMap, dest: string, zs: seq<ZipEntry>, q: string)
    requires NoLinks(fs)
    requires UnzipAllFs(fs, dest, zs).err.None?
    ensures NoLinks(UnzipAllFs(fs, dest, zs).fs)
    ensures WritesElsewhere(dest, zs, q) ==> FileKept(fs, UnzipAllFs(fs, dest, zs).fs, q)
    decreases |zs|
  {
    if zs != [] {
      var o := UnzipEntryFs(fs, dest, zs[0]);
      UnzipAllCons(fs, dest, zs, o);
      UnzipEntryKept(fs, dest, zs[0], q);
      UnzipAllKept(o.fs, dest, zs[1..], q);
      if WritesElsewhere(dest, zs, q) {
        WritesElsewhereTail(dest, zs, q);
        FileKeptTrans(fs, o.fs, UnzipAllFs(o.fs, dest, zs[1..]).fs, q);
      }
    }
  }

  /**
    Unzip into a tree without symbolic links: an entry that no later file entry replaces
    (none lands at the same cleaned path) reads back at path.Join(dest, name) as exactly
    its bytes.
  */
  lemma {:induction false} UnzipAllReadsBack(fs: FsMap, dest: string, zs: seq<ZipEntry>, i: nat)
    requires NoLinks(fs)
    requires UnzipAllFs(fs, dest, zs).err.None?
    requires i < |zs| && EntryType(zs[i].header) != Directory
    requires WritesElsewhere(dest, zs[i + 1..], Clean(Join(dest, zs[i].header.name)))
    ensures ReadFile(UnzipAllFs(fs, dest, zs).fs, Join(dest, zs[i].header.name)) == Ok(zs[i].content)
    decreases |zs|
  {
    var o := UnzipEntryFs(fs, dest, zs[0]);
    UnzipAllCons(fs, dest, zs, o);
    if i == 0 {
      UnzipAllHead(fs, dest, zs, o);
    } else {
      UnzipEntryKept(fs, dest, zs[0], Clean(Join(dest, zs[i].header.name)));
      assert zs[1..][i - 1] == zs[i] && zs[1..][i..] == zs[i + 1..];
      UnzipAllReadsBack(o.fs, dest, zs[1..], i - 1);
    }
  }

  lemma UnzipAllCons(fs: FsMap, dest: string, zs: seq<ZipEntry>, o: Outcome)
    requires zs != [] && o == UnzipEntryFs(fs, dest, zs[0])
    ensures UnzipAllFs(fs, dest, zs) == if o.err.Some? then o else UnzipAllFs(o.fs, dest, zs[1..])
  {
  }

  /** The first entry: written, then left alone by every later one. */
  lemma UnzipAllHead(fs: FsMap, dest: string, zs: seq<ZipEntry>, o: Outcome)
    requires NoLinks(fs)
    requires zs != [] && EntryType(zs[0].header) != Directory
    requires o == UnzipEntryFs(fs, dest, zs[0]) && o.err.None?
    requires UnzipAllFs(o.fs, dest, zs[1..]).err.None?
    requires WritesElsewhere(dest, zs[1..], Clean(Join(dest, zs[0].header.name)))
    ensures ReadFile(UnzipAllFs(o.fs, dest, zs[1..]).fs, Join(dest, zs[0].header.name)) == Ok(zs[0].content)
  {
    var p := Join(dest, zs[0].header.name);
    UnzipEntryFacts(fs, dest, zs[0]);
    UnzipEntryKept(fs, dest, zs[0], Clean(p));
    UnzipAllKept(o.fs, dest, zs[1..], Clean(p));
    FileKeptRead(o.fs, UnzipAllFs(o.fs, dest, zs[1..]).fs, p);
  }

  /**
    The round trip for a regular file below the zipped directory: the one entry Zip makes
    for it, written back by Unzip into any tree, leaves path.Join(dest, its relative path)
    reading as the bytes the file held.
  */
  lemma ZipThenUnzip(fs: FsMap, src: string, e: WalkEvent, target: FsMap, dest: string)
    requires Walked(fs, src, e) && e.stat.Ok? && e.stat.value.IsRegular() && e.rel != []
    ensures RelZipStep(fs, true, src, e).Ok? && |RelZipStep(fs, true, src, e).value| == 1
    ensures var z := RelZipStep(fs, true, src, e).value[0];
      z.header.name == JoinElems(e.rel) &&
      (UnzipEntryFs(target, dest, z).err.None? ==>
        ReadFile(UnzipEntryFs(target, dest, z).fs, Join(dest, JoinElems(e.rel))) == ReadFile(fs, e.path))
  {
    RelRegularEntry(fs, src, e);
    RegularReads(fs, e.path);
    UnzipEntryFacts(target, dest, RelZipStep(fs, true, src, e).value[0]);
  }
}
