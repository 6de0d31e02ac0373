/**
  compress.go, the first generation of the archive API. tarCompress and zipCompress walk a
  source and name each entry by cutting processPath(src) off the front of
  processPath(path); unTarCompress and zipUnCompress replay an archive's entries into a
  destination directory.

  The archive being written is the entry sequence the walk produces; the destination
  file is created (and its parents made) but its bytes are not modelled. Extraction takes
  the decoded entries as a parameter.
*/
module Compress {
  import opened Wrappers
  import opened Paths
  import opened Fs
  import opened Walking
  import opened Archive
  import Files
  import Dirs

  // ---------------------------------------------------------------------------------------
  // processPath

  /** strings.ReplaceAll(s, "\\", "/") */
  function ReplaceBackslashes(s: string): (r: string)
    ensures |r| == |s|
    ensures forall i | 0 <= i < |s| :: r[i] == (if s[i] == '\\' then '/' else s[i])
  {
    if s == [] then []
    else [if s[0] == '\\' then '/' else s[0]] + ReplaceBackslashes(s[1..])
  }

  /**
    processPath: when the path holds a ':', keep only the piece after the first one (a
    drive letter and anything from a second ':' on are dropped); then make every '\' a '/'.
  */
  function ProcessPath(p: string): string {
    var parts := Split(p, ':');
    ReplaceBackslashes(if |parts| > 1 then parts[1] else p)
  }

  /** Text processPath has nothing to do to. */
  predicate Plain(s: string) {
    NoSep(s, ':') && NoSep(s, '\\')
  }

  lemma {:induction false} SplitSingle(s: string, sep: char)
    requires |Split(s, sep)| == 1
    ensures NoSep(s, sep)
  {
    if s != [] && s[0] != sep {
      SplitSingle(s[1..], sep);
      assert forall i | 1 <= i < |s| :: s[i] == s[1..][i - 1];
    }
  }

  /** processPath's result holds no '\' and no ':'. */
  lemma ProcessPathPlain(p: string)
    ensures Plain(ProcessPath(p))
  {
    SplitPiecesNoSep(p, ':');
    if |Split(p, ':')| == 1 {
      SplitSingle(p, ':');
    }
  }

  /** A path holding neither is returned as it is. */
  lemma ProcessPathOfPlain(p: string)
    requires Plain(p)
    ensures ProcessPath(p) == p
  {
    SplitNoSep(p, ':');
    assert ReplaceBackslashes(p) == p;
  }

  /** So processPath is idempotent. */
  lemma ProcessPathIdempotent(p: string)
    ensures ProcessPath(ProcessPath(p)) == ProcessPath(p)
  {
    ProcessPathPlain(p);
    ProcessPathOfPlain(ProcessPath(p));
  }

  /** With a ':' in the path, only the text between the first ':' and the next one is kept. */
  lemma ProcessPathDrive(a: string, b: string, tail: string)
    requires NoSep(a, ':') && NoSep(b, ':')
    requires tail == [] || tail[0] == ':'
    ensures ProcessPath(a + ":" + b + tail) == ReplaceBackslashes(b)
  {
    var rest := b + tail;
    assert a + ":" + b + tail == a + [':'] + rest;
    SplitAppend(a, rest, ':');
    SplitNoSep(a, ':');
    SplitFirst(b, tail);
    var parts := Split(a + ":" + b + tail, ':');
    assert parts == [a] + Split(rest, ':');
    assert parts[1] == b;
  }

  lemma SplitFirst(b: string, tail: string)
    requires NoSep(b, ':')
    requires tail == [] || tail[0] == ':'
    ensures Split(b + tail, ':')[0] == b
  {
    SplitNoSep(b, ':');
    if tail == [] {
      assert b + tail == b;
    } else {
      assert b + tail == b + [':'] + tail[1..];
      SplitAppend(b, tail[1..], ':');
    }
  }

  // ---------------------------------------------------------------------------------------
  // Entry names

  /** The name tarCompress and zipCompress give the entry of a walked path. */
  function EntryName(src: string, path: string): string {
    TrimPrefix(ProcessPath(path), ProcessPath(src))
  }

  lemma {:induction false} JoinElemsPlain(es: seq<string>)
    requires forall i | 0 <= i < |es| :: Plain(es[i])
    ensures Plain(JoinElems(es))
  {
    if |es| > 1 {
      JoinElemsPlain(es[..|es| - 1]);
    }
  }

  lemma RenderAppend(rooted: bool, n: seq<string>, r: seq<string>)
    requires n != [] && r != []
    ensures Render(rooted, n + r) == Render(rooted, n) + "/" + JoinElems(r)
  {
    JoinElemsAppend(n, r);
  }

  /** Below a cleaned source other than "." and "/", a walked path is the source, "/", and the names. */
  lemma JoinAllText(src: string, r: seq<Name>)
    requires Clean(src) == src && src != "." && src != "/"
    requires r != []
    ensures JoinAll(src, r) == src + "/" + JoinElems(r)
  {
    var n := Norm(src);
    var path := JoinAll(src, r);
    JoinAllNorm(src, r);
    assert path == Render(Rooted(src), n + r);
    assert src == Render(Rooted(src), n);
    assert n != [];
    RenderAppend(Rooted(src), n, r);
  }

  /**
    The entry of the source itself is named "" (so a lone file's only entry has an empty
    name); below a cleaned, plain source directory, the entry of the node reached by the
    names r is "/" followed by those names.
  */
  lemma WalkedEntryName(src: string, r: seq<Name>)
    requires r != [] ==> Clean(src) == src && src != "." && src != "/"
    requires r != [] ==> Plain(src) && forall i | 0 <= i < |r| :: Plain(r[i])
    ensures EntryName(src, JoinAll(src, r)) == if r == [] then "" else "/" + JoinElems(r)
  {
    if r == [] {
      var q := ProcessPath(src);
      assert q[..|q|] == q;
    } else {
      JoinAllText(src, r);
      JoinElemsPlain(r);
      PlainBelow(src, JoinElems(r));
    }
  }

  lemma PlainConcat(a: string, b: string)
    requires Plain(a) && Plain(b)
    ensures Plain(a + b)
  {
    assert forall i | |a| <= i < |a + b| :: (a + b)[i] == b[i - |a|];
  }

  /** Below a plain source, the entry name is the rest of the path, "/" included. */
  lemma PlainBelow(src: string, rel: string)
    requires Plain(src) && Plain(rel)
    ensures EntryName(src, src + "/" + rel) == "/" + rel
  {
    var tail := "/" + rel;
    var path := src + tail;
    assert src + "/" + rel == path;
    PlainConcat("/", rel);
    PlainConcat(src, tail);
    ProcessPathOfPlain(src);
    ProcessPathOfPlain(path);
    TrimPrefixConcat(src, tail);
  }

  lemma TrimPrefixConcat(a: string, b: string)
    ensures TrimPrefix(a + b, a) == b
  {
    assert (a + b)[..|a|] == a;
    assert (a + b)[|a|..] == b;
  }

  /** The name zipCompress gives a directory's entry; it always ends in "/". */
  function ZipDirName(rel: string): (name: string)
    ensures EndsWithSlash(name)
  {
    if rel == "." then "/" else Clean(rel) + "/"
  }

  /** The source directory's own entry is "./"; one below it is "/a/b/". */
  lemma ZipDirNames(r: seq<Name>)
    ensures ZipDirName("") == "./"
    ensures r != [] ==> ZipDirName("/" + JoinElems(r)) == "/" + JoinElems(r) + "/"
  {
    SplitSmall();
    assert Fold(false, [], [""]) == [];
    if r != [] {
      NamesNormal(r);
      NormRender(true, r);
    }
  }

  /**
    Where an entry named "/a/b" (or "/a/b/") lands under the destination: exactly where
    the walk found a/b below the source.
  */
  lemma ExtractPath(dst: string, r: seq<Name>, slash: bool)
    requires dst != "" && r != []
    ensures Join(dst, "/" + JoinElems(r) + (if slash then "/" else "")) == JoinAll(dst, r)
  {
    var j := JoinElems(r);
    var suffix := if slash then "/" else "";
    var x := dst + "/" + ("/" + j + suffix);
    var rooted := Rooted(dst);
    NamesNormal(r);
    SplitJoinElems(r);
    SplitSmall();
    var tail: seq<string> := if slash then [""] else [];
    assert Split(j + suffix, '/') == r + tail by {
      if slash {
        assert j + suffix == j + ['/'] + "";
        SplitAppend(j, "", '/');
      } else {
        assert j + suffix == j;
      }
    }
    assert Split("/" + j + suffix, '/') == [""] + (r + tail) by {
      assert "/" + j + suffix == "" + ['/'] + (j + suffix);
      SplitAppend("", j + suffix, '/');
    }
    assert x == dst + ['/'] + ("/" + j + suffix);
    SplitAppend(dst, "/" + j + suffix, '/');
    assert Split(x, '/') == Split(dst, '/') + ([""] + (r + tail));
    FoldAppend(rooted, [], Split(dst, '/'), [""] + (r + tail));
    assert Fold(rooted, Norm(dst), [""] + (r + tail)) == Fold(rooted, Norm(dst), r + tail);
    FoldAppend(rooted, Norm(dst), r, tail);
    JoinAllNorm(dst, r);
    NormIsNormal(JoinAll(dst, r));
    FoldIdem(rooted, Norm(dst), r);
    assert Norm(x) == Norm(dst) + r;
    assert Rooted(x) == rooted;
  }

  // ---------------------------------------------------------------------------------------
  // tarCompress

  /** An archived regular file: a TypeReg entry under its trimmed name, holding the file's bytes. */
  predicate TarFileEntry(fs: FsMap, src: string, path: string, t: TarEntry) {
    && t.header.typeflag == TypeReg
    && t.header.name == EntryName(src, path)
    && ReadFile(fs, path) == Ok(t.content)
  }

  /**
    tarCompress's callback for one walked path: an error is handed back, anything but a
    regular file is skipped, and a regular file becomes one TypeReg entry holding its bytes,
    with the file's permission bits and size in its header.
  */
  function TarStep(fs: FsMap, src: string, e: WalkEvent): (r: Result<seq<TarEntry>, Error>)
    ensures e.stat.Err? ==> r == Err(e.stat.error)
    ensures e.stat.Ok? && !e.stat.value.IsRegular() ==> r == Ok([])
    ensures r.Ok? ==> |r.value| <= 1
    ensures r.Ok? && e.stat.Ok? && e.stat.value.IsRegular() ==> |r.value| == 1
    ensures r.Ok? && r.value != [] ==> TarFileEntry(fs, src, e.path, r.value[0])
    ensures r.Ok? && r.value != [] ==>
      && e.stat.Ok?
      && r.value[0].header.mode == e.stat.value.perm
      && r.value[0].header.size == e.stat.value.size
  {
    match e.stat
    case Err(err) => Err(err)
    case Ok(info) =>
      if !info.IsRegular() || info.IsDir() then Ok([])
      else
        var h := TarHeaderOf(info, "").value.(size := info.size, name := EntryName(src, e.path));
        var k :- OpenRead(fs, e.path);
        var data :- ReadAt(fs, e.path, k);
        var t :- TarWrite(h, data);
        Ok([t])
  }

  /** The callback as one closure, shared by the function and the method. */
  function TarFn(fs: FsMap, src: string): WalkEvent -> Result<seq<TarEntry>, Error> {
    e => TarStep(fs, src, e)
  }

  /**
    tarCompress(src, dest): src must exist, dest's directory is made and dest created
    (truncated), then the walk of src fills the archive.
  */
  function TarCompressFs(fs: FsMap, src: string, dest: string): Archived<TarEntry> {
    match Stat(fs, src)
    case Err(e) => Archived(fs, [], Some(e))
    case Ok(_) =>
      var made := MkdirAllFs(fs, Dir(dest));
      if made.err.Some? then Archived(made.fs, [], made.err)
      else
        var o := OpenFs(made.fs, dest, true, true, Files.CreatePerm);
        if o.err.Some? then Archived(o.fs, [], o.err)
        else TarArchive(o.fs, src)
  }

  /** The walk of src through the callback, with dest already open in `fs`. */
  function TarArchive(fs: FsMap, src: string): Archived<TarEntry> {
    match Run(Walk(fs, src), TarFn(fs, src))
    case Ok(ts) => Archived(fs, ts, None)
    case Err(e) => Archived(fs, [], Some(e))
  }

  /** tarCompress, and TarGzip(src, dest) that calls it. */
  method TarCompress(fsys: FileSystem, src: string, dest: string) returns (entries: seq<TarEntry>, err: Option<Error>)
    modifies fsys
    ensures Archived(fsys.nodes, entries, err) == TarCompressFs(old(fsys.nodes), src, dest)
  {
    var st := Stat(fsys.nodes, src);
    if st.Err? {
      return [], Some(st.error);
    }
    err := fsys.MkdirAll(Dir(dest));
    if err.Some? {
      return [], err;
    }
    var k;
    k, err := fsys.OpenFile(dest, true, true, Files.CreatePerm);
    if err.Some? {
      return [], err;
    }
    entries, err := WalkFn(Walk(fsys.nodes, src), TarFn(fsys.nodes, src));
  }

  /** On a walked path the callback fails only when Lstat did: what the walk lists, it can read. */
  lemma TarStepOk(fs: FsMap, src: string, e: WalkEvent)
    requires e.stat == Lstat(fs, e.path)
    ensures TarStep(fs, src, e).Ok? <==> e.stat.Ok?
  {
    if e.stat.Ok? && e.stat.value.IsRegular() {
      var info := e.stat.value;
      RegularReads(fs, e.path);
      var h := TarHeaderOf(info, "").value.(size := info.size, name := EntryName(src, e.path));
      var data := fs[Clean(e.path)].data;
      assert TarWrite(h, data) == Ok(TarEntry(h, data));
      assert TarStep(fs, src, e) == Ok([TarEntry(h, data)]);
    }
  }

  /** The walk through tarCompress's callback fails only with the Lstat error of a walked path. */
  lemma TarRunErr(fs: FsMap, src: string, es: seq<WalkEvent>)
    requires forall e | e in es :: e.stat == Lstat(fs, e.path)
    requires Run(es, TarFn(fs, src)).Err?
    ensures exists e | e in es :: e.stat == Err(Run(es, TarFn(fs, src)).error)
  {
    var i := RunErr(es, TarFn(fs, src));
    TarStepOk(fs, src, es[i]);
    assert es[i].stat == Err(Run(es, TarFn(fs, src)).error);
  }

  /** When every walked path could be Lstat'ed, the walk through the callback succeeds. */
  lemma TarRunOk(fs: FsMap, src: string, es: seq<WalkEvent>)
    requires forall e | e in es :: e.stat == Lstat(fs, e.path) && e.stat.Ok?
    ensures Run(es, TarFn(fs, src)).Ok?
  {
    var f := TarFn(fs, src);
    forall i | 0 <= i < |es|
      ensures f(es[i]).Ok?
    {
      TarStepOk(fs, src, es[i]);
    }
    RunOk(es, f);
  }

  /** Every entry of the walk's archive is a regular file the walk met. */
  lemma TarRunSound(fs: FsMap, src: string, es: seq<WalkEvent>, t: TarEntry)
    requires Run(es, TarFn(fs, src)).Ok?
    requires t in Run(es, TarFn(fs, src)).value
    ensures exists e | e in es :: TarFileEntry(fs, src, e.path, t)
  {
    var f := TarFn(fs, src);
    RunFrom(es, f, t);
    var i :| 0 <= i < |es| && f(es[i]).Ok? && t in f(es[i]).value;
    assert f(es[i]) == TarStep(fs, src, es[i]);
    TarStepSound(fs, src, es[i], t);
    assert es[i] in es;
  }

  lemma TarStepSound(fs: FsMap, src: string, e: WalkEvent, t: TarEntry)
    requires TarStep(fs, src, e).Ok? && t in TarStep(fs, src, e).value
    ensures TarFileEntry(fs, src, e.path, t)
  {
  }

  /** Every regular file the walk meets has its entry. */
  lemma TarRunComplete(fs: FsMap, src: string, es: seq<WalkEvent>, e: WalkEvent)
    requires Run(es, TarFn(fs, src)).Ok?
    requires e in es && e.stat == Lstat(fs, e.path) && e.stat.Ok? && e.stat.value.IsRegular()
    ensures exists t | t in Run(es, TarFn(fs, src)).value :: TarFileEntry(fs, src, e.path, t)
  {
    var f := TarFn(fs, src);
    RunOk(es, f);
    var i :| 0 <= i < |es| && es[i] == e;
    assert f(es[i]).Ok?;
    var r := TarStep(fs, src, e);
    assert f(e) == r;
    var t := r.value[0];
    CollectHas(es, f, i, t);
  }

  /**
    The walk through tarCompress's callback fails only with the Lstat error of a walked
    path, and succeeds when there is none; when it succeeds its entries are exactly the
    regular files the walk meets: each entry is one of them with its trimmed name and
    bytes, and each of them has an entry. Directories, links and sockets are left out.
  */
  lemma TarArchiveFacts(fs: FsMap, src: string)
    ensures var a := TarArchive(fs, src);
      && a.fs == fs
      && (a.err.Some? ==> exists e | e in Walk(fs, src) :: e.stat == Err(a.err.value))
      && ((forall e | e in Walk(fs, src) :: e.stat.Ok?) ==> a.err.None?)
      && (a.err.None? ==> forall t | t in a.entries :: exists e | e in Walk(fs, src) :: TarFileEntry(fs, src, e.path, t))
      && (a.err.None? ==> forall e | e in Walk(fs, src) && Lstat(fs, e.path).Ok? && Lstat(fs, e.path).value.IsRegular() ::
            exists t | t in a.entries :: TarFileEntry(fs, src, e.path, t))
  {
    var es := Walk(fs, src);
    WalkNodeLstat(fs, src, []);
    var run := Run(es, TarFn(fs, src));
    var a := TarArchive(fs, src);
    if run.Err? {
      TarRunErr(fs, src, es);
      if forall e | e in es :: e.stat.Ok? {
        TarRunOk(fs, src, es);
      }
    } else {
      forall t | t in a.entries
        ensures exists e | e in es :: TarFileEntry(fs, src, e.path, t)
      {
        TarRunSound(fs, src, es, t);
      }
      forall e | e in es && Lstat(fs, e.path).Ok? && Lstat(fs, e.path).value.IsRegular()
        ensures exists t | t in a.entries :: TarFileEntry(fs, src, e.path, t)
      {
        TarRunComplete(fs, src, es, e);
      }
    }
  }

  // ---------------------------------------------------------------------------------------
  // unTarCompress

  /**
    One header of the tar stream replayed under `dst`: a regular file gets its directory
    made and is opened for writing without truncation, then its bytes are copied in; a
    directory is made with MkdirAll; every other type flag is passed over.
  */
  function UnTarEntryFs(fs: FsMap, dst: string, t: TarEntry): Outcome {
    var p := Join(dst, t.header.name);
    match t.header.typeflag
    case TypeReg => UnTarRegFs(fs, p, t.header.mode, t.content)
    case TypeDir => MkdirAllFs(fs, p)
    case _ => Outcome(fs, None)
  }

  /** A regular entry: its parent directories, then the file opened without truncation and written. */
  function UnTarRegFs(fs: FsMap, p: string, mode: nat, content: seq<byte>): Outcome {
    var made := MkdirAllFs(fs, Dir(p));
    if made.err.Some? then made
    else
      var o := OpenFs(made.fs, p, true, false, mode);
      if o.err.Some? then Outcome(o.fs, o.err)
      else Commit(o.fs, WriteFs(o.fs, o.key, content))
  }

  /**
    The loop over tar.Reader.Next: every entry in turn up to the first failure; after the
    last entry, the reader's own end (None for io.EOF) is what the call returns.
  */
  function UnTarAllFs(fs: FsMap, dst: string, ts: seq<TarEntry>, end: Option<Error>): Outcome
    decreases |ts|
  {
    if ts == [] then Outcome(fs, end)
    else
      var o := UnTarEntryFs(fs, dst, ts[0]);
      if o.err.Some? then o else UnTarAllFs(o.fs, dst, ts[1..], end)
  }

  /**
    unTarCompress(src, dst), given the stream the gzip and tar readers decode from src's
    bytes (a gzip header error is a stream with no entries ending in that error): src must
    open, dst is made with MkdirAll, then every entry is replayed.
  */
  function UnTarCompressFs(fs: FsMap, src: string, dst: string, stream: TarStream): Outcome {
    match OpenRead(fs, src)
    case Err(e) => Outcome(fs, Some(e))
    case Ok(_) =>
      var made := MkdirAllFs(fs, dst);
      if made.err.Some? then made
      else UnTarAllFs(made.fs, dst, stream.entries, stream.end)
  }

  /** The body of unTarCompress's loop, for one header. */
  method UnTarEntry(fsys: FileSystem, dst: string, t: TarEntry) returns (err: Option<Error>)
    modifies fsys
    ensures Outcome(fsys.nodes, err) == UnTarEntryFs(old(fsys.nodes), dst, t)
  {
    var p := Join(dst, t.header.name);
    match t.header.typeflag {
      case TypeReg =>
        err := fsys.MkdirAll(Dir(p));
        if err.Some? {
          return;
        }
        var k;
        k, err := fsys.OpenFile(p, true, false, t.header.mode);
        if err.Some? {
          return;
        }
        err := fsys.Write(k, t.content);
      case TypeDir =>
        err := fsys.MkdirAll(p);
      case _ =>
        err := None;
    }
  }

  /** unTarCompress, and UnTarGzip(src, dst) that calls it. */
  method UnTarCompress(fsys: FileSystem, src: string, dst: string, stream: TarStream) returns (err: Option<Error>)
    modifies fsys
    ensures Outcome(fsys.nodes, err) == UnTarCompressFs(old(fsys.nodes), src, dst, stream)
  {
    var handle := OpenRead(fsys.nodes, src);
    if handle.Err? {
      return Some(handle.error);
    }
    err := fsys.MkdirAll(dst);
    if err.Some? {
      return;
    }
    var ts := stream.entries;
    var i := 0;
    while i < |ts|
      invariant 0 <= i <= |ts|
      invariant UnTarAllFs(fsys.nodes, dst, ts[i..], stream.end) == UnTarCompressFs(old(fsys.nodes), src, dst, stream)
    {
      assert ts[i..][1..] == ts[i + 1..];
      err := UnTarEntry(fsys, dst, ts[i]);
      if err.Some? {
        return;
      }
      i := i + 1;
    }
    return stream.end;
  }

  /** A regular entry: its path reads as its bytes written over what was there, not truncated. */
  lemma UnTarRegFacts(fs: FsMap, dst: string, t: TarEntry)
    requires t.header.typeflag == TypeReg
    ensures Keeps(fs, UnTarEntryFs(fs, dst, t).fs)
    ensures var p := Join(dst, t.header.name);
      var made := MkdirAllFs(fs, Dir(p));
      UnTarEntryFs(fs, dst, t).err.None? ==>
        ReadFile(UnTarEntryFs(fs, dst, t).fs, p) == Ok(Overwrite(Before(made.fs, p, false), t.content))
  {
    UnTarRegPathFacts(fs, Join(dst, t.header.name), t.header.mode, t.content);
  }

  lemma UnTarRegPathFacts(fs: FsMap, p: string, mode: nat, content: seq<byte>)
    ensures Keeps(fs, UnTarRegFs(fs, p, mode, content).fs)
    ensures UnTarRegFs(fs, p, mode, content).err.None? ==>
      ReadFile(UnTarRegFs(fs, p, mode, content).fs, p) == Ok(Overwrite(Before(MkdirAllFs(fs, Dir(p)).fs, p, false), content))
  {
    var made := MkdirAllFs(fs, Dir(p));
    MkdirAllFacts(fs, Dir(p));
    GrowsKeeps(fs, made.fs);
    if made.err.Some? {
      assert UnTarRegFs(fs, p, mode, content) == made;
    } else {
      var o := OpenFs(made.fs, p, true, false, mode);
      OpenWriteAfter(fs, made.fs, p, mode, content);
      if o.err.Some? {
        assert UnTarRegFs(fs, p, mode, content) == Outcome(o.fs, o.err);
      } else {
        assert UnTarRegFs(fs, p, mode, content) == Outcome(WriteFs(o.fs, o.key, content).value, None);
      }
    }
  }

  /** Opening without truncation and writing, after a step that kept every node. */
  lemma OpenWriteAfter(fs: FsMap, made: FsMap, p: string, perm: nat, data: seq<byte>)
    requires Keeps(fs, made)
    ensures var o := OpenFs(made, p, true, false, perm);
      && Keeps(fs, o.fs)
      && (o.err.None? ==>
        && WriteFs(o.fs, o.key, data).Ok?
        && Keeps(fs, WriteFs(o.fs, o.key, data).value)
        && ReadFile(WriteFs(o.fs, o.key, data).value, p) == Ok(Overwrite(Before(made, p, false), data)))
  {
    var o := OpenFs(made, p, true, false, perm);
    OpenKeeps(made, p, true, false, perm);
    KeepsTrans(fs, made, o.fs);
    if o.err.None? {
      OpenWriteFacts(made, p, true, false, perm, data);
      KeepsTrans(fs, made, WriteFs(o.fs, o.key, data).value);
    }
  }

  /**
    Replaying one entry never removes anything and no node changes kind. A directory entry
    leaves a directory at its path; a regular entry leaves its path reading as the entry's
    bytes written over what was there (the file is not truncated: a longer old file keeps
    its tail); other entries change nothing.
  */
  lemma UnTarEntryFacts(fs: FsMap, dst: string, t: TarEntry)
    ensures Keeps(fs, UnTarEntryFs(fs, dst, t).fs)
    ensures var p := Join(dst, t.header.name);
      t.header.typeflag == TypeDir && UnTarEntryFs(fs, dst, t).err.None? ==> IsDirAt(UnTarEntryFs(fs, dst, t).fs, p)
    ensures var p := Join(dst, t.header.name);
      var made := MkdirAllFs(fs, Dir(p));
      t.header.typeflag == TypeReg && UnTarEntryFs(fs, dst, t).err.None? ==>
        ReadFile(UnTarEntryFs(fs, dst, t).fs, p) == Ok(Overwrite(Before(made.fs, p, false), t.content))
    ensures t.header.typeflag != TypeReg && t.header.typeflag != TypeDir ==> UnTarEntryFs(fs, dst, t) == Outcome(fs, None)
  {
    if t.header.typeflag == TypeReg {
      UnTarRegFacts(fs, dst, t);
    } else if t.header.typeflag == TypeDir {
      var p := Join(dst, t.header.name);
      MkdirAllFacts(fs, p);
      GrowsKeeps(fs, MkdirAllFs(fs, p).fs);
    }
  }

  /**
    Replaying a stream never removes anything; it succeeds only when the reader ended
    with io.EOF, and then every directory entry names a directory and every regular entry
    a readable file under `dst`.
  */
  lemma {:induction false} UnTarAllFacts(fs: FsMap, dst: string, ts: seq<TarEntry>, end: Option<Error>)
    ensures Keeps(fs, UnTarAllFs(fs, dst, ts, end).fs)
    ensures UnTarAllFs(fs, dst, ts, end).err.None? ==> end.None?
    ensures var r := UnTarAllFs(fs, dst, ts, end);
      r.err.None? ==> forall t | t in ts :: Placed(r.fs, dst, t)
    decreases |ts|
  {
    if ts != [] {
      var o := UnTarEntryFs(fs, dst, ts[0]);
      UnTarEntryPlaced(fs, dst, ts[0]);
      if o.err.Some? {
        assert UnTarAllFs(fs, dst, ts, end) == o;
      } else {
        UnTarAllFacts(o.fs, dst, ts[1..], end);
        var r := UnTarAllFs(o.fs, dst, ts[1..], end);
        assert UnTarAllFs(fs, dst, ts, end) == r;
        KeepsTrans(fs, o.fs, r.fs);
        if r.err.None? {
          PlacedKept(o.fs, r.fs, dst, ts[0]);
          PlacedCons(r.fs, dst, ts);
        }
      }
    }
  }

  /** A directory entry names a directory under `dst`, a regular entry a readable file. */
  predicate Placed(fs: FsMap, dst: string, t: TarEntry) {
    && (t.header.typeflag == TypeDir ==> IsDirAt(fs, Join(dst, t.header.name)))
    && (t.header.typeflag == TypeReg ==> ReadFile(fs, Join(dst, t.header.name)).Ok?)
  }

  lemma UnTarEntryPlaced(fs: FsMap, dst: string, t: TarEntry)
    ensures Keeps(fs, UnTarEntryFs(fs, dst, t).fs)
    ensures UnTarEntryFs(fs, dst, t).err.None? ==> Placed(UnTarEntryFs(fs, dst, t).fs, dst, t)
  {
    UnTarEntryFacts(fs, dst, t);
  }

  lemma PlacedCons(fs: FsMap, dst: string, ts: seq<TarEntry>)
    requires ts != [] && Placed(fs, dst, ts[0]) && forall t | t in ts[1..] :: Placed(fs, dst, t)
    ensures forall t | t in ts :: Placed(fs, dst, t)
  {
    assert forall t | t in ts :: t == ts[0] || t in ts[1..];
  }

  lemma PlacedKept(fs: FsMap, fs': FsMap, dst: string, t: TarEntry)
    requires Keeps(fs, fs') && Placed(fs, dst, t)
    ensures Placed(fs', dst, t)
  {
    KeepsResolve(fs, fs', Join(dst, t.header.name));
  }

  /**
    In a tree without symbolic links, replaying one entry adds no link and touches no file
    but the one at a regular entry's own path.
  */
  lemma UnTarEntryKept(fs: FsMap, dst: string, t: TarEntry, q: string)
    requires NoLinks(fs)
    requires UnTarEntryFs(fs, dst, t).err.None?
    ensures NoLinks(UnTarEntryFs(fs, dst, t).fs)
    ensures (t.header.typeflag == TypeReg ==> Clean(Join(dst, t.header.name)) != q) ==>
      FileKept(fs, UnTarEntryFs(fs, dst, t).fs, q)
  {
    var p := Join(dst, t.header.name);
    match t.header.typeflag
    case TypeReg =>
      UnTarRegKept(fs, p, t.header.mode, t.content, q);
    case TypeDir =>
      MkdirAllKept(fs, p, q);
    case _ =>
  }

  /** A regular entry written without links in the tree touches only its own key. */
  lemma UnTarRegKept(fs: FsMap, p: string, mode: nat, content: seq<byte>, q: string)
    requires NoLinks(fs)
    requires UnTarRegFs(fs, p, mode, content).err.None?
    ensures NoLinks(UnTarRegFs(fs, p, mode, content).fs)
    ensures Clean(p) != q ==> FileKept(fs, UnTarRegFs(fs, p, mode, content).fs, q)
  {
    var made := MkdirAllFs(fs, Dir(p));
    var o := OpenFs(made.fs, p, true, false, mode);
    assert UnTarRegFs(fs, p, mode, content) == Outcome(WriteFs(o.fs, o.key, content).value, None);
    MkdirAllKept(fs, Dir(p), q);
    OpenWriteKept(made.fs, p, true, false, mode, content, q);
    if Clean(p) != q {
      FileKeptTrans(fs, made.fs, WriteFs(o.fs, o.key, content).value, q);
    }
  }

  lemma {:induction false} UnTarAllKept(fs: FsMap, dst: string, ts: seq<TarEntry>, end: Option<Error>, q: string)
    requires NoLinks(fs)
    requires UnTarAllFs(fs, dst, ts, end).err.None?
    ensures NoLinks(UnTarAllFs(fs, dst, ts, end).fs)
    ensures (forall j | 0 <= j < |ts| && ts[j].header.typeflag == TypeReg :: Clean(Join(dst, ts[j].header.name)) != q) ==>
      FileKept(fs, UnTarAllFs(fs, dst, ts, end).fs, q)
    decreases |ts|
  {
    if ts != [] {
      var o := UnTarEntryFs(fs, dst, ts[0]);
      UnTarEntryKept(fs, dst, ts[0], q);
      UnTarAllKept(o.fs, dst, ts[1..], end, q);
      if forall j | 0 <= j < |ts| && ts[j].header.typeflag == TypeReg :: Clean(Join(dst, ts[j].header.name)) != q {
        assert forall j | 0 <= j < |ts| - 1 :: ts[1..][j] == ts[j + 1];
        FileKeptTrans(fs, o.fs, UnTarAllFs(o.fs, dst, ts[1..], end).fs, q);
      }
    }
  }

  /**
    Replaying a whole stream into a tree without symbolic links: a regular entry whose path
    no other regular entry shares reads back as its bytes written over what the path held
    before the replay (exactly its bytes when nothing longer was there).
  */
  lemma {:induction false} UnTarAllReadsBack(fs: FsMap, dst: string, ts: seq<TarEntry>, end: Option<Error>, i: nat)
    requires NoLinks(fs)
    requires UnTarAllFs(fs, dst, ts, end).err.None?
    requires i < |ts| && ts[i].header.typeflag == TypeReg
    requires forall j | 0 <= j < |ts| && j != i && ts[j].header.typeflag == TypeReg ::
      Clean(Join(dst, ts[j].header.name)) != Clean(Join(dst, ts[i].header.name))
    ensures var p := Join(dst, ts[i].header.name);
      ReadFile(UnTarAllFs(fs, dst, ts, end).fs, p) == Ok(Overwrite(Before(fs, p, false), ts[i].content))
    decreases |ts|
  {
    var o := UnTarEntryFs(fs, dst, ts[0]);
    var p := Join(dst, ts[i].header.name);
    var rest := ts[1..];
    assert UnTarAllFs(fs, dst, ts, end) == UnTarAllFs(o.fs, dst, rest, end);
    assert forall j | 0 <= j < |ts| - 1 :: rest[j] == ts[j + 1];
    if i == 0 {
      UnTarEntryReadsOver(fs, dst, ts[0]);
      UnTarAllKept(o.fs, dst, rest, end, Clean(p));
      FileKeptRead(o.fs, UnTarAllFs(o.fs, dst, rest, end).fs, p);
    } else {
      UnTarEntryKept(fs, dst, ts[0], Clean(p));
      FileKeptRead(fs, o.fs, p);
      UnTarAllReadsBack(o.fs, dst, rest, end, i - 1);
    }
  }

  /** A regular entry, in a tree without links: its bytes over what its path held before. */
  lemma UnTarEntryReadsOver(fs: FsMap, dst: string, t: TarEntry)
    requires NoLinks(fs)
    requires t.header.typeflag == TypeReg
    requires UnTarEntryFs(fs, dst, t).err.None?
    ensures NoLinks(UnTarEntryFs(fs, dst, t).fs)
    ensures var p := Join(dst, t.header.name);
      ReadFile(UnTarEntryFs(fs, dst, t).fs, p) == Ok(Overwrite(Before(fs, p, false), t.content))
  {
    var p := Join(dst, t.header.name);
    UnTarEntryKept(fs, dst, t, Clean(p));
    UnTarEntryFacts(fs, dst, t);
    MkdirAllKept(fs, Dir(p), Clean(p));
    FileKeptRead(fs, MkdirAllFs(fs, Dir(p)).fs, p);
  }

  /**
    unTarCompress: a src that does not open changes nothing; on success dst is a directory
    and holds every directory and regular entry of the stream, and nothing that was there
    before has gone or changed kind.
  */
  lemma UnTarCompressFacts(fs: FsMap, src: string, dst: string, stream: TarStream)
    ensures OpenRead(fs, src).Err? ==> UnTarCompressFs(fs, src, dst, stream) == Outcome(fs, Some(OpenRead(fs, src).error))
    ensures Keeps(fs, UnTarCompressFs(fs, src, dst, stream).fs)
    ensures var r := UnTarCompressFs(fs, src, dst, stream);
      r.err.None? ==>
        && stream.end.None?
        && IsDirAt(r.fs, dst)
        && (forall t | t in stream.entries :: Placed(r.fs, dst, t))
  {
    if OpenRead(fs, src).Ok? {
      var made := MkdirAllFs(fs, dst);
      MkdirAllFacts(fs, dst);
      GrowsKeeps(fs, made.fs);
      if made.err.None? {
        UnTarAllFacts(made.fs, dst, stream.entries, stream.end);
        var r := UnTarAllFs(made.fs, dst, stream.entries, stream.end);
        KeepsTrans(fs, made.fs, r.fs);
        KeepsResolve(made.fs, r.fs, dst);
      }
    }
  }

  /**
    One file's round trip through TarGzip and UnTarGzip: the entry for the file the walk of
    a plain source directory found at names `r` (its bytes are the entry's content, by
    TarFileEntry) is extracted under `dst` at the same names, and reads there as those
    bytes written over what was there, so exactly as those bytes when nothing readable was.
  */
  lemma TarRoundTripFile(fs: FsMap, src: string, r: seq<Name>, t: TarEntry, fs2: FsMap, dst: string)
    requires Clean(src) == src && src != "." && src != "/" && Plain(src)
    requires r != [] && forall i | 0 <= i < |r| :: Plain(r[i])
    requires TarFileEntry(fs, src, JoinAll(src, r), t)
    requires dst != ""
    requires UnTarEntryFs(fs2, dst, t).err.None?
    ensures Join(dst, t.header.name) == JoinAll(dst, r)
    ensures var p := Join(dst, t.header.name);
      ReadFile(MkdirAllFs(fs2, Dir(p)).fs, p).Err? ==> ReadFile(UnTarEntryFs(fs2, dst, t).fs, p) == Ok(t.content)
  {
    EntryLands(src, r, dst);
    UnTarFresh(t, fs2, dst);
  }

  /** A regular entry whose path held nothing readable reads back as exactly its bytes. */
  lemma UnTarFresh(t: TarEntry, fs: FsMap, dst: string)
    requires t.header.typeflag == TypeReg
    requires UnTarEntryFs(fs, dst, t).err.None?
    ensures var p := Join(dst, t.header.name);
      ReadFile(MkdirAllFs(fs, Dir(p)).fs, p).Err? ==> ReadFile(UnTarEntryFs(fs, dst, t).fs, p) == Ok(t.content)
  {
    UnTarRegFacts(fs, dst, t);
  }

  /** The name a walked file is archived under lands, joined onto `dst`, at the same names below it. */
  lemma EntryLands(src: string, r: seq<Name>, dst: string)
    requires Clean(src) == src && src != "." && src != "/" && Plain(src)
    requires r != [] && forall i | 0 <= i < |r| :: Plain(r[i])
    requires dst != ""
    ensures Join(dst, EntryName(src, JoinAll(src, r))) == JoinAll(dst, r)
  {
    WalkedEntryName(src, r);
    ExtractPath(dst, r, false);
    assert "/" + JoinElems(r) + "" == "/" + JoinElems(r);
  }

  // ---------------------------------------------------------------------------------------
  // zipCompress

  /** An archived regular file: a header from the file's info under its trimmed name, holding its bytes. */
  predicate ZipFileEntry(fs: FsMap, src: string, path: string, z: ZipEntry) {
    && z.header.name == EntryName(src, path)
    && z.header.ftype == Regular
    && ReadFile(fs, path) == Ok(z.content)
  }

  /** An archived directory: an empty entry whose name ends in "/" after the trimmed, cleaned name. */
  predicate ZipDirEntry(src: string, path: string, z: ZipEntry) {
    && z.header.name == ZipDirName(EntryName(src, path))
    && EntryType(z.header) == Directory
    && z.content == []
  }

  /**
    zipCompress's callback for one walked path: an error is handed back; a regular file
    becomes an entry with its bytes, a directory an empty entry named with a trailing "/",
    and anything else is skipped.
  */
  function ZipStep(fs: FsMap, src: string, e: WalkEvent): (r: Result<seq<ZipEntry>, Error>)
    ensures e.stat.Err? ==> r == Err(e.stat.error)
    ensures e.stat.Ok? && !e.stat.value.IsRegular() && !e.stat.value.IsDir() ==> r == Ok([])
    ensures r.Ok? ==> |r.value| <= 1
    ensures r.Ok? && e.stat.Ok? && e.stat.value.IsRegular() ==> |r.value| == 1 && ZipFileEntry(fs, src, e.path, r.value[0])
    ensures e.stat.Ok? && e.stat.value.IsDir() ==> r.Ok? && |r.value| == 1 && ZipDirEntry(src, e.path, r.value[0])
    ensures r.Err? ==> e.stat.Err? || e.stat.value.IsRegular()
  {
    match e.stat
    case Err(err) => Err(err)
    case Ok(info) =>
      var rel := EntryName(src, e.path);
      if info.IsRegular() then
        var k :- OpenRead(fs, e.path);
        var data :- ReadAt(fs, e.path, k);
        var z :- ZipWrite(ZipHeaderOf(info).(name := rel), data);
        Ok([z])
      else if info.IsDir() then
        Ok([ZipWrite(ZipCreate(ZipDirName(rel)), []).value])
      else Ok([])
  }

  /** The callback as one closure, shared by the function and the method. */
  function ZipFn(fs: FsMap, src: string): WalkEvent -> Result<seq<ZipEntry>, Error> {
    e => ZipStep(fs, src, e)
  }

  /** zipCompress(src, dest): src must exist, dest is made with CreateFile, then the walk fills the archive. */
  function ZipCompressFs(fs: FsMap, src: string, dest: string): Archived<ZipEntry> {
    match Stat(fs, src)
    case Err(e) => Archived(fs, [], Some(e))
    case Ok(_) =>
      var o := Files.CreateFileModeFs(fs, dest, Files.CreatePerm);
      if o.err.Some? then Archived(o.fs, [], o.err)
      else ZipArchive(o.fs, src)
  }

  /** The walk of src through the callback, with dest already open in `fs`. */
  function ZipArchive(fs: FsMap, src: string): Archived<ZipEntry> {
    match Run(Walk(fs, src), ZipFn(fs, src))
    case Ok(zs) => Archived(fs, zs, None)
    case Err(e) => Archived(fs, [], Some(e))
  }

  /** zipCompress, and Zip(src, dest) that calls it. */
  method ZipCompress(fsys: FileSystem, src: string, dest: string) returns (entries: seq<ZipEntry>, err: Option<Error>)
    modifies fsys
    ensures Archived(fsys.nodes, entries, err) == ZipCompressFs(old(fsys.nodes), src, dest)
  {
    var st := Stat(fsys.nodes, src);
    if st.Err? {
      return [], Some(st.error);
    }
    var k;
    k, err := Files.CreateFile(fsys, dest);
    if err.Some? {
      return [], err;
    }
    entries, err := WalkFn(Walk(fsys.nodes, src), ZipFn(fsys.nodes, src));
  }

  /**
    On a walked path the callback fails only when Lstat did, or when a regular file's
    trimmed name ends in "/" (a name ending in '\\' does, after processPath) and it is
    not empty: the zip writer then takes it for a directory.
  */
  lemma ZipStepOk(fs: FsMap, src: string, e: WalkEvent)
    requires e.stat == Lstat(fs, e.path)
    ensures ZipStep(fs, src, e).Err? <==>
      e.stat.Err? || (e.stat.value.IsRegular() && EndsWithSlash(EntryName(src, e.path)) && ReadFile(fs, e.path).value != [])
    ensures ZipStep(fs, src, e).Err? && e.stat.Ok? ==> ZipStep(fs, src, e).error == WriteToDirectory
  {
    if e.stat.Ok? && e.stat.value.IsRegular() {
      RegularReads(fs, e.path);
      var data := fs[Clean(e.path)].data;
      assert ZipStep(fs, src, e) == (match ZipWrite(ZipHeaderOf(e.stat.value).(name := EntryName(src, e.path)), data)
        case Ok(z) => Ok([z])
        case Err(x) => Err(x));
    }
  }

  /** The entry a walked regular file or directory gets. */
  predicate ZipEntryOf(fs: FsMap, src: string, e: WalkEvent, z: ZipEntry) {
    && e.stat.Ok?
    && ((e.stat.value.IsRegular() && ZipFileEntry(fs, src, e.path, z)) || (e.stat.value.IsDir() && ZipDirEntry(src, e.path, z)))
  }

  /** A walked regular file whose trimmed name ends in "/". */
  predicate SlashNamed(src: string, e: WalkEvent) {
    e.stat.Ok? && e.stat.value.IsRegular() && EndsWithSlash(EntryName(src, e.path))
  }

  /** The walk through zipCompress's callback fails with a walked path's Lstat error, or at a slash-named file. */
  lemma ZipRunErr(fs: FsMap, src: string, es: seq<WalkEvent>)
    requires forall e | e in es :: e.stat == Lstat(fs, e.path)
    requires Run(es, ZipFn(fs, src)).Err?
    ensures exists e | e in es ::
      e.stat == Err(Run(es, ZipFn(fs, src)).error) || (SlashNamed(src, e) && Run(es, ZipFn(fs, src)).error == WriteToDirectory)
  {
    var i := RunErr(es, ZipFn(fs, src));
    ZipStepOk(fs, src, es[i]);
    assert ZipFn(fs, src)(es[i]) == ZipStep(fs, src, es[i]);
    assert es[i].stat == Err(Run(es, ZipFn(fs, src)).error) || (SlashNamed(src, es[i]) && Run(es, ZipFn(fs, src)).error == WriteToDirectory);
  }

  /** With every walked path Lstat'ed and no slash-named file, the walk through the callback succeeds. */
  lemma ZipRunOk(fs: FsMap, src: string, es: seq<WalkEvent>)
    requires forall e | e in es :: e.stat == Lstat(fs, e.path) && e.stat.Ok? && !SlashNamed(src, e)
    ensures Run(es, ZipFn(fs, src)).Ok?
  {
    var f := ZipFn(fs, src);
    forall i | 0 <= i < |es|
      ensures f(es[i]).Ok?
    {
      ZipStepOk(fs, src, es[i]);
    }
    RunOk(es, f);
  }

  /** Every entry of the walk's archive is the entry of a regular file or directory the walk met. */
  lemma ZipRunSound(fs: FsMap, src: string, es: seq<WalkEvent>, z: ZipEntry)
    requires Run(es, ZipFn(fs, src)).Ok?
    requires z in Run(es, ZipFn(fs, src)).value
    ensures exists e | e in es :: ZipEntryOf(fs, src, e, z)
  {
    var f := ZipFn(fs, src);
    RunFrom(es, f, z);
    var i :| 0 <= i < |es| && f(es[i]).Ok? && z in f(es[i]).value;
    assert f(es[i]) == ZipStep(fs, src, es[i]);
    ZipStepSound(fs, src, es[i], z);
    assert es[i] in es;
  }

  lemma ZipStepSound(fs: FsMap, src: string, e: WalkEvent, z: ZipEntry)
    requires ZipStep(fs, src, e).Ok? && z in ZipStep(fs, src, e).value
    ensures ZipEntryOf(fs, src, e, z)
  {
    assert z == ZipStep(fs, src, e).value[0];
  }

  /** Every regular file and directory the walk meets has its entry. */
  lemma ZipRunComplete(fs: FsMap, src: string, es: seq<WalkEvent>, e: WalkEvent)
    requires Run(es, ZipFn(fs, src)).Ok?
    requires e in es && e.stat.Ok? && (e.stat.value.IsRegular() || e.stat.value.IsDir())
    ensures exists z | z in Run(es, ZipFn(fs, src)).value :: ZipEntryOf(fs, src, e, z)
  {
    var f := ZipFn(fs, src);
    RunOk(es, f);
    var i :| 0 <= i < |es| && es[i] == e;
    assert f(es[i]).Ok?;
    var r := ZipStep(fs, src, e);
    assert f(e) == r;
    var z := r.value[0];
    assert ZipEntryOf(fs, src, e, z);
    CollectHas(es, f, i, z);
  }

  /**
    The walk through zipCompress's callback fails only with the Lstat error of a walked
    path or, at a regular file whose trimmed name ends in "/", with "write to directory";
    without either it succeeds, and then its entries are exactly the regular files and
    directories the walk meets: each entry is one of theirs, and each of them has one.
  */
  lemma ZipArchiveFacts(fs: FsMap, src: string)
    ensures var a := ZipArchive(fs, src);
      && a.fs == fs
      && (a.err.Some? ==> exists e | e in Walk(fs, src) ::
            e.stat == Err(a.err.value) || (SlashNamed(src, e) && a.err.value == WriteToDirectory))
      && ((forall e | e in Walk(fs, src) :: e.stat.Ok? && !SlashNamed(src, e)) ==> a.err.None?)
      && (a.err.None? ==> forall z | z in a.entries :: exists e | e in Walk(fs, src) :: ZipEntryOf(fs, src, e, z))
      && (a.err.None? ==> forall e | e in Walk(fs, src) && Lstat(fs, e.path).Ok? && (Lstat(fs, e.path).value.IsRegular() || Lstat(fs, e.path).value.IsDir()) ::
            exists z | z in a.entries :: ZipEntryOf(fs, src, e, z))
  {
    var es := Walk(fs, src);
    WalkNodeLstat(fs, src, []);
    var run := Run(es, ZipFn(fs, src));
    var a := ZipArchive(fs, src);
    if run.Err? {
      ZipRunErr(fs, src, es);
      if forall e | e in es :: e.stat.Ok? && !SlashNamed(src, e) {
        ZipRunOk(fs, src, es);
      }
    } else {
      forall z | z in a.entries
        ensures exists e | e in es :: ZipEntryOf(fs, src, e, z)
      {
        ZipRunSound(fs, src, es, z);
      }
      forall e | e in es && Lstat(fs, e.path).Ok? && (Lstat(fs, e.path).value.IsRegular() || Lstat(fs, e.path).value.IsDir())
        ensures exists z | z in a.entries :: ZipEntryOf(fs, src, e, z)
      {
        ZipRunComplete(fs, src, es, e);
      }
    }
  }

  // ---------------------------------------------------------------------------------------
  // zipUnCompress

  /** unzipFile(fd, destpath): open with O_CREATE|O_WRONLY|O_TRUNC and the entry's mode, then copy its bytes in. */
  function UnzipFileFs(fs: FsMap, z: ZipEntry, p: string): Outcome {
    var o := OpenFs(fs, p, true, true, z.header.perm);
    if o.err.Some? then Outcome(o.fs, o.err)
    else Commit(o.fs, WriteFs(o.fs, o.key, z.content))
  }

  /**
    One file of zipUnCompress's loop, under filepath.Join(dest, name): a regular entry goes
    through unzipFile, a directory entry through filebox.Mkdir (a single os.Mkdir), and
    anything else is passed over.
  */
  function ZipUnEntryFs(fs: FsMap, dest: string, z: ZipEntry): Outcome {
    var p := Join(dest, z.header.name);
    match EntryType(z.header)
    case Regular => UnzipFileFs(fs, z, p)
    case Directory => Dirs.MkdirEach(fs, [p])
    case _ => Outcome(fs, None)
  }

  /** The loop over zipReader.File: every entry in turn, up to the first failure. */
  function ZipUnAllFs(fs: FsMap, dest: string, zs: seq<ZipEntry>): Outcome
    decreases |zs|
  {
    if zs == [] then Outcome(fs, None)
    else
      var o := ZipUnEntryFs(fs, dest, zs[0]);
      if o.err.Some? then o else ZipUnAllFs(o.fs, dest, zs[1..])
  }

  /**
    zipUnCompress(src, dest), given what zip.OpenReader decodes from src's bytes (or the
    error it reports): src must open, then every entry is replayed.
  */
  function ZipUnCompressFs(fs: FsMap, src: string, dest: string, decoded: Result<seq<ZipEntry>, Error>): Outcome {
    match OpenRead(fs, src)
    case Err(e) => Outcome(fs, Some(e))
    case Ok(_) =>
      match decoded
      case Err(e) => Outcome(fs, Some(e))
      case Ok(zs) => ZipUnAllFs(fs, dest, zs)
  }

  /** unzipFile */
  method UnzipFile(fsys: FileSystem, z: ZipEntry, p: string) returns (err: Option<Error>)
    modifies fsys
    ensures Outcome(fsys.nodes, err) == UnzipFileFs(old(fsys.nodes), z, p)
  {
    var k;
    k, err := fsys.OpenFile(p, true, true, z.header.perm);
    if err.Some? {
      return;
    }
    err := fsys.Write(k, z.content);
  }

  /** The body of zipUnCompress's loop, for one entry. */
  method ZipUnEntry(fsys: FileSystem, dest: string, z: ZipEntry) returns (err: Option<Error>)
    modifies fsys
    ensures Outcome(fsys.nodes, err) == ZipUnEntryFs(old(fsys.nodes), dest, z)
  {
    var p := Join(dest, z.header.name);
    match EntryType(z.header) {
      case Regular =>
        err := UnzipFile(fsys, z, p);
      case Directory =>
        err := Dirs.Mkdir(fsys, [p]);
      case _ =>
        err := None;
    }
  }

  /** zipUnCompress, and UnZip(src, dest) that calls it. */
  method ZipUnCompress(fsys: FileSystem, src: string, dest: string, decoded: Result<seq<ZipEntry>, Error>) returns (err: Option<Error>)
    modifies fsys
    ensures Outcome(fsys.nodes, err) == ZipUnCompressFs(old(fsys.nodes), src, dest, decoded)
  {
    var handle := OpenRead(fsys.nodes, src);
    if handle.Err? {
      return Some(handle.error);
    }
    if decoded.Err? {
      return Some(decoded.error);
    }
    var zs := decoded.value;
    var i := 0;
    while i < |zs|
      invariant 0 <= i <= |zs|
      invariant ZipUnAllFs(fsys.nodes, dest, zs[i..]) == ZipUnCompressFs(old(fsys.nodes), src, dest, decoded)
    {
      assert zs[i..][1..] == zs[i + 1..];
      err := ZipUnEntry(fsys, dest, zs[i]);
      if err.Some? {
        return;
      }
      i := i + 1;
    }
    return None;
  }

  /** unzipFile truncates: on success the path reads as exactly the entry's bytes. */
  lemma UnzipFileFacts(fs: FsMap, z: ZipEntry, p: string)
    ensures Keeps(fs, UnzipFileFs(fs, z, p).fs)
    ensures UnzipFileFs(fs, z, p).err.None? ==> ReadFile(UnzipFileFs(fs, z, p).fs, p) == Ok(z.content)
  {
    var o := OpenFs(fs, p, true, true, z.header.perm);
    OpenKeeps(fs, p, true, true, z.header.perm);
    if o.err.None? {
      OpenWriteFacts(fs, p, true, true, z.header.perm, z.content);
      assert Before(fs, p, true) == [];
    }
  }

  /**
    Replaying one zip entry never removes anything and no node changes kind; a regular
    entry's path then reads as its bytes, a directory entry's path is a directory, and
    other entries change nothing.
  */
  lemma ZipUnEntryFacts(fs: FsMap, dest: string, z: ZipEntry)
    ensures Keeps(fs, ZipUnEntryFs(fs, dest, z).fs)
    ensures EntryType(z.header) == Regular && ZipUnEntryFs(fs, dest, z).err.None? ==>
      ReadFile(ZipUnEntryFs(fs, dest, z).fs, Join(dest, z.header.name)) == Ok(z.content)
    ensures EntryType(z.header) == Directory && ZipUnEntryFs(fs, dest, z).err.None? ==>
      IsDirAt(ZipUnEntryFs(fs, dest, z).fs, Join(dest, z.header.name))
    ensures EntryType(z.header) != Regular && EntryType(z.header) != Directory ==> ZipUnEntryFs(fs, dest, z) == Outcome(fs, None)
  {
    var p := Join(dest, z.header.name);
    match EntryType(z.header)
    case Regular =>
      UnzipFileFacts(fs, z, p);
    case Directory =>
      Dirs.MkdirEachFacts(fs, [p]);
      GrowsKeeps(fs, Dirs.MkdirEach(fs, [p]).fs);
    case _ =>
  }

  /**
    Replaying a zip never removes anything; on success every directory entry names a
    directory and every regular entry a readable file under `dest`.
  */
  lemma {:induction false} ZipUnAllFacts(fs: FsMap, dest: string, zs: seq<ZipEntry>)
    ensures Keeps(fs, ZipUnAllFs(fs, dest, zs).fs)
    ensures var r := ZipUnAllFs(fs, dest, zs);
      r.err.None? ==> forall z | z in zs && EntryType(z.header) == Directory :: IsDirAt(r.fs, Join(dest, z.header.name))
    ensures var r := ZipUnAllFs(fs, dest, zs);
      r.err.None? ==> forall z | z in zs && EntryType(z.header) == Regular :: ReadFile(r.fs, Join(dest, z.header.name)).Ok?
    decreases |zs|
  {
    if zs != [] {
      var o := ZipUnEntryFs(fs, dest, zs[0]);
      ZipUnEntryFacts(fs, dest, zs[0]);
      if o.err.None? {
        ZipUnAllFacts(o.fs, dest, zs[1..]);
        var r := ZipUnAllFs(o.fs, dest, zs[1..]);
        KeepsTrans(fs, o.fs, r.fs);
        KeepsResolve(o.fs, r.fs, Join(dest, zs[0].header.name));
        assert forall z | z in zs :: z == zs[0] || z in zs[1..];
      }
    }
  }

  /**
    In a tree without symbolic links, replaying one zip entry adds no link and touches no
    file but the one at a regular entry's own path.
  */
  lemma ZipUnEntryKept(fs: FsMap, dest: string, z: ZipEntry, q: string)
    requires NoLinks(fs)
    requires ZipUnEntryFs(fs, dest, z).err.None?
    ensures NoLinks(ZipUnEntryFs(fs, dest, z).fs)
    ensures (EntryType(z.header) == Regular ==> Clean(Join(dest, z.header.name)) != q) ==>
      FileKept(fs, ZipUnEntryFs(fs, dest, z).fs, q)
  {
    var p := Join(dest, z.header.name);
    match EntryType(z.header)
    case Regular =>
      OpenWriteKept(fs, p, true, true, z.header.perm, z.content, q);
    case Directory =>
      Dirs.MkdirOneKept(fs, p, q);
    case _ =>
  }

  /** A regular entry, in a tree without links: exactly its bytes, and still no link. */
  lemma ZipUnHeadReads(fs: FsMap, dest: string, z: ZipEntry)
    requires NoLinks(fs)
    requires EntryType(z.header) == Regular && ZipUnEntryFs(fs, dest, z).err.None?
    ensures NoLinks(ZipUnEntryFs(fs, dest, z).fs)
    ensures ReadFile(ZipUnEntryFs(fs, dest, z).fs, Join(dest, z.header.name)) == Ok(z.content)
  {
    ZipUnEntryFacts(fs, dest, z);
    ZipUnEntryKept(fs, dest, z, "");
  }

  lemma {:induction false} ZipUnAllKept(fs: FsMap, dest: string, zs: seq<ZipEntry>, q: string)
    requires NoLinks(fs)
    requires ZipUnAllFs(fs, dest, zs).err.None?
    ensures NoLinks(ZipUnAllFs(fs, dest, zs).fs)
    ensures (forall j | 0 <= j < |zs| && EntryType(zs[j].header) == Regular :: Clean(Join(dest, zs[j].header.name)) != q) ==>
      FileKept(fs, ZipUnAllFs(fs, dest, zs).fs, q)
    decreases |zs|
  {
    if zs != [] {
      var o := ZipUnEntryFs(fs, dest, zs[0]);
      ZipUnEntryKept(fs, dest, zs[0], q);
      ZipUnAllKept(o.fs, dest, zs[1..], q);
      if forall j | 0 <= j < |zs| && EntryType(zs[j].header) == Regular :: Clean(Join(dest, zs[j].header.name)) != q {
        assert forall j | 0 <= j < |zs| - 1 :: zs[1..][j] == zs[j + 1];
        FileKeptTrans(fs, o.fs, ZipUnAllFs(o.fs, dest, zs[1..]).fs, q);
      }
    }
  }

  /**
    Replaying a whole zip into a tree without symbolic links: a regular entry that no later
    regular entry replaces reads back at path.Join(dest, name) as exactly its bytes.
  */
  lemma {:induction false} ZipUnAllReadsBack(fs: FsMap, dest: string, zs: seq<ZipEntry>, i: nat)
    requires NoLinks(fs)
    requires ZipUnAllFs(fs, dest, zs).err.None?
    requires i < |zs| && EntryType(zs[i].header) == Regular
    requires forall j | i < j < |zs| && EntryType(zs[j].header) == Regular ::
      Clean(Join(dest, zs[j].header.name)) != Clean(Join(dest, zs[i].header.name))
    ensures ReadFile(ZipUnAllFs(fs, dest, zs).fs, Join(dest, zs[i].header.name)) == Ok(zs[i].content)
    decreases |zs|
  {
    var o := ZipUnEntryFs(fs, dest, zs[0]);
    var rest := zs[1..];
    ZipUnAllCons(fs, dest, zs, o);
    assert forall j | 0 <= j < |zs| - 1 :: rest[j] == zs[j + 1];
    if i == 0 {
      ZipUnAllHead(fs, dest, zs, o);
    } else {
      ZipUnEntryKept(fs, dest, zs[0], Clean(Join(dest, zs[i].header.name)));
      assert rest[i - 1] == zs[i];
      ZipUnAllReadsBack(o.fs, dest, rest, i - 1);
    }
  }

  lemma ZipUnAllCons(fs: FsMap, dest: string, zs: seq<ZipEntry>, o: Outcome)
    requires zs != [] && o == ZipUnEntryFs(fs, dest, zs[0]) && o.err.None?
    ensures ZipUnAllFs(fs, dest, zs) == ZipUnAllFs(o.fs, dest, zs[1..])
  {
  }

  /** The first entry: written, then left alone by every later one. */
  lemma ZipUnAllHead(fs: FsMap, dest: string, zs: seq<ZipEntry>, o: Outcome)
    requires NoLinks(fs)
    requires zs != [] && EntryType(zs[0].header) == Regular
    requires o == ZipUnEntryFs(fs, dest, zs[0]) && o.err.None?
    requires ZipUnAllFs(o.fs, dest, zs[1..]).err.None?
    requires forall j | 0 <= j < |zs| - 1 && EntryType(zs[1..][j].header) == Regular ::
      Clean(Join(dest, zs[1..][j].header.name)) != Clean(Join(dest, zs[0].header.name))
    ensures ReadFile(ZipUnAllFs(o.fs, dest, zs[1..]).fs, Join(dest, zs[0].header.name)) == Ok(zs[0].content)
  {
    var p := Join(dest, zs[0].header.name);
    ZipUnHeadReads(fs, dest, zs[0]);
    ZipUnAllKept(o.fs, dest, zs[1..], Clean(p));
    FileKeptRead(o.fs, ZipUnAllFs(o.fs, dest, zs[1..]).fs, p);
  }

  /**
    One file's round trip through Zip and UnZip: the entry for the file the walk of a plain
    source directory found at names `r` is extracted under `dst` at the same names, and,
    since unzipFile truncates, reads there exactly as the file read in the source.
  */
  lemma ZipRoundTripFile(fs: FsMap, src: string, r: seq<Name>, z: ZipEntry, fs2: FsMap, dst: string)
    requires Clean(src) == src && src != "." && src != "/" && Plain(src)
    requires r != [] && forall i | 0 <= i < |r| :: Plain(r[i])
    requires ZipFileEntry(fs, src, JoinAll(src, r), z)
    requires dst != ""
    requires ZipUnEntryFs(fs2, dst, z).err.None?
    ensures Join(dst, z.header.name) == JoinAll(dst, r)
    ensures ReadFile(ZipUnEntryFs(fs2, dst, z).fs, JoinAll(dst, r)) == ReadFile(fs, JoinAll(src, r))
  {
    EntryLands(src, r, dst);
    WalkedEntryName(src, r);
    JoinElemsLast(r);
    var j := JoinElems(r);
    assert z.header.name == "/" + j;
    assert |j| > 0 && ("/" + j)[|"/" + j| - 1] == j[|j| - 1];
    assert EntryType(z.header) == Regular;
    ZipUnEntryFacts(fs2, dst, z);
  }

  // ---------------------------------------------------------------------------------------
  // The "./" entry

  /** filepath.Join(dest, "./") is dest, cleaned. */
  lemma JoinDotSlash(dest: string)
    requires dest != ""
    ensures Join(dest, "./") == Clean(dest)
  {
    var x := dest + "/" + "./";
    assert x == dest + ['/'] + "./";
    SplitAppend(dest, "./", '/');
    assert "./" == "." + ['/'] + "";
    SplitAppend(".", "", '/');
    SplitSmall();
    assert Split(x, '/') == Split(dest, '/') + [".", ""];
    FoldAppend(Rooted(dest), [], Split(dest, '/'), [".", ""]);
    assert Norm(x) == Norm(dest);
    assert Rooted(x) == Rooted(dest);
  }

  /** When a directory is zipped, the first entry is the source's own, named "./". */
  lemma ZipRootEntryFirst(fs: FsMap, src: string)
    requires Lstat(fs, src).Ok? && Lstat(fs, src).value.IsDir()
    requires ZipArchive(fs, src).err.None?
    ensures ZipArchive(fs, src).entries != []
    ensures ZipArchive(fs, src).entries[0].header.name == "./"
  {
    var es := Walk(fs, src);
    var f := ZipFn(fs, src);
    WalkNodeLstat(fs, src, []);
    assert es[0] in es;
    assert es[0].path == src && es[0].stat == Lstat(fs, src);
    var r := ZipStep(fs, src, es[0]);
    assert f(es[0]) == r;
    WalkedEntryName(src, []);
    ZipDirNames([]);
    assert r.value[0].header.name == "./";
    assert Run(es, f).value == r.value + Run(es[1..], f).value;
  }

  /**
    As written, zipUnCompress makes a directory entry with a single os.Mkdir, so the "./"
    entry every zipped directory starts with fails with EEXIST whenever dest already
    exists: nothing is extracted.
  */
  lemma ZipUnExistingDest(fs: FsMap, dest: string, zs: seq<ZipEntry>)
    requires dest != "" && Clean(dest) in fs
    requires zs != [] && zs[0].header.name == "./"
    ensures ZipUnAllFs(fs, dest, zs) == Outcome(fs, Some(PathError(Join(dest, "./"), EEXIST)))
  {
    JoinDotSlash(dest);
    CleanIdempotent(dest);
    assert EndsWithSlash(zs[0].header.name);
    assert Clean(Join(dest, "./")) in fs;
    assert MkdirFs(fs, Join(dest, "./")) == Err(PathError(Join(dest, "./"), EEXIST));
  }

  /** Zip(src, zip) of a directory, then UnZip into an existing directory: the first entry fails. */
  lemma ZipThenUnZipIntoExisting(fs: FsMap, src: string, fs2: FsMap, dest: string)
    requires Lstat(fs, src).Ok? && Lstat(fs, src).value.IsDir()
    requires ZipArchive(fs, src).err.None?
    requires dest != "" && Clean(dest) in fs2
    ensures ZipUnAllFs(fs2, dest, ZipArchive(fs, src).entries) == Outcome(fs2, Some(PathError(Join(dest, "./"), EEXIST)))
  {
    ZipRootEntryFirst(fs, src);
    ZipUnExistingDest(fs2, dest, ZipArchive(fs, src).entries);
  }

  /**
    The evidently intended extraction: a directory entry is made with MkdirAll, as
    unTarCompress does, so that an existing directory is no error.
  */
  function ZipUnEntryIntended(fs: FsMap, dest: string, z: ZipEntry): Outcome {
    var p := Join(dest, z.header.name);
    match EntryType(z.header)
    case Regular => UnzipFileFs(fs, z, p)
    case Directory => MkdirAllFs(fs, p)
    case _ => Outcome(fs, None)
  }

  function ZipUnAllIntended(fs: FsMap, dest: string, zs: seq<ZipEntry>): Outcome
    decreases |zs|
  {
    if zs == [] then Outcome(fs, None)
    else
      var o := ZipUnEntryIntended(fs, dest, zs[0]);
      if o.err.Some? then o else ZipUnAllIntended(o.fs, dest, zs[1..])
  }

  /** With MkdirAll, the "./" entry over an existing directory changes nothing and succeeds. */
  lemma ZipUnIntendedExistingDest(fs: FsMap, dest: string, z: ZipEntry)
    requires dest != "" && IsDirAt(fs, dest)
    requires z.header.name == "./"
    ensures ZipUnEntryIntended(fs, dest, z) == Outcome(fs, None)
  {
    JoinDotSlash(dest);
    CleanIdempotent(dest);
    assert EndsWithSlash(z.header.name);
    DirAtClean(fs, dest);
    MkdirAllOverDir(fs, Join(dest, "./"));
  }

  lemma DirAtClean(fs: FsMap, p: string)
    requires p != "" && IsDirAt(fs, p) && Clean(Clean(p)) == Clean(p)
    ensures IsDirAt(fs, Clean(p))
  {
    assert Resolve(fs, Clean(p)) == Resolve(fs, p);
  }

  lemma MkdirAllOverDir(fs: FsMap, p: string)
    requires IsDirAt(fs, p)
    ensures MkdirAllFs(fs, p) == Outcome(fs, None)
  {
  }

  /** One entry of the intended extraction: as ZipUnEntryFacts, with MkdirAll for directories. */
  lemma ZipUnEntryIntendedFacts(fs: FsMap, dest: string, z: ZipEntry)
    ensures Keeps(fs, ZipUnEntryIntended(fs, dest, z).fs)
    ensures EntryType(z.header) == Regular && ZipUnEntryIntended(fs, dest, z).err.None? ==>
      ReadFile(ZipUnEntryIntended(fs, dest, z).fs, Join(dest, z.header.name)) == Ok(z.content)
    ensures EntryType(z.header) == Directory && ZipUnEntryIntended(fs, dest, z).err.None? ==>
      IsDirAt(ZipUnEntryIntended(fs, dest, z).fs, Join(dest, z.header.name))
  {
    var p := Join(dest, z.header.name);
    match EntryType(z.header)
    case Regular =>
      UnzipFileFacts(fs, z, p);
    case Directory =>
      MkdirAllFacts(fs, p);
      GrowsKeeps(fs, MkdirAllFs(fs, p).fs);
    case _ =>
  }

  /**
    The intended extraction never removes anything; on success every directory entry names
    a directory and every regular entry a readable file under `dest`.
  */
  lemma {:induction false} ZipUnAllIntendedFacts(fs: FsMap, dest: string, zs: seq<ZipEntry>)
    ensures Keeps(fs, ZipUnAllIntended(fs, dest, zs).fs)
    ensures var r := ZipUnAllIntended(fs, dest, zs);
      r.err.None? ==> forall z | z in zs && EntryType(z.header) == Directory :: IsDirAt(r.fs, Join(dest, z.header.name))
    ensures var r := ZipUnAllIntended(fs, dest, zs);
      r.err.None? ==> forall z | z in zs && EntryType(z.header) == Regular :: ReadFile(r.fs, Join(dest, z.header.name)).Ok?
    decreases |zs|
  {
    if zs != [] {
      var p := Join(dest, zs[0].header.name);
      var o := ZipUnEntryIntended(fs, dest, zs[0]);
      ZipUnEntryIntendedFacts(fs, dest, zs[0]);
      if o.err.None? {
        ZipUnAllIntendedFacts(o.fs, dest, zs[1..]);
        var r := ZipUnAllIntended(o.fs, dest, zs[1..]);
        KeepsTrans(fs, o.fs, r.fs);
        KeepsResolve(o.fs, r.fs, p);
        assert forall z | z in zs :: z == zs[0] || z in zs[1..];
      }
    }
  }
}
