/**
  copy.go: copying one file (CopyFsFile) and a directory tree (CopyFsDir) from a source
  filesystem to a destination one, through OsFs. The source is read as it is when the copy
  starts; the destination is the live FileSystem.
*/
module Copy {
  import opened Wrappers
  import opened Paths
  import opened Fs
  import Walking

  /** OsFs.CreateFile opens with O_RDWR|O_CREATE and 0666: no truncation. */
  const CreatePerm: nat := 438

  /** OsFs.CreateFile */
  function CreateFileFs(fs: FsMap, name: string): Opened {
    OpenFs(fs, name, true, false, CreatePerm)
  }

  /** What CopyFsFile does: open the source, create the destination, copy the bytes. */
  function CopyFileFs(src: FsMap, fs: FsMap, s: string, d: string): Outcome {
    match OpenRead(src, s)
    case Err(e) => Outcome(fs, Some(e))
    case Ok(k) =>
      var o := CreateFileFs(fs, d);
      if o.err.Some? then Outcome(fs, o.err)
      else match ReadAt(src, s, k)
        case Err(e) => Outcome(o.fs, Some(e))
        case Ok(data) => Commit(o.fs, WriteFs(o.fs, o.key, data))
  }

  /** CopyFsFile(srcFs, dstFs, src, dst) */
  method CopyFsFile(src: FsMap, dst: FileSystem, s: string, d: string) returns (err: Option<Error>)
    modifies dst
    ensures Outcome(dst.nodes, err) == CopyFileFs(src, old(dst.nodes), s, d)
  {
    var source := OpenRead(src, s);
    if source.Err? {
      return Some(source.error);
    }
    var k;
    k, err := dst.OpenFile(d, true, false, CreatePerm);
    if err.Some? {
      return;
    }
    var data := ReadAt(src, s, source.value);
    if data.Err? {
      return Some(data.error);
    }
    err := dst.Write(k, data.value);
  }

  /** CopyFile(src, dst): both sides are the process's filesystem. */
  method CopyFile(fsys: FileSystem, s: string, d: string) returns (err: Option<Error>)
    modifies fsys
    ensures Outcome(fsys.nodes, err) == CopyFileFs(old(fsys.nodes), old(fsys.nodes), s, d)
  {
    err := CopyFsFile(fsys.nodes, fsys, s, d);
  }

  /** What the destination held before: its bytes, or nothing when it could not be read. */
  function Previous(fs: FsMap, d: string): seq<byte> {
    if ReadFile(fs, d).Ok? then ReadFile(fs, d).value else []
  }

  /**
    CopyFsFile: a source that cannot be opened leaves the destination alone; on success the
    destination starts with the source's bytes and keeps any longer old tail, since it is not
    truncated; and no node changes kind.
  */
  lemma CopyFileFacts(src: FsMap, fs: FsMap, s: string, d: string)
    ensures OpenRead(src, s).Err? ==> CopyFileFs(src, fs, s, d) == Outcome(fs, Some(OpenRead(src, s).error))
    ensures CopyFileFs(src, fs, s, d).err.None? ==>
      ReadFile(CopyFileFs(src, fs, s, d).fs, d) == Ok(Overwrite(Previous(fs, d), ReadFile(src, s).value))
    ensures Keeps(fs, CopyFileFs(src, fs, s, d).fs)
  {
    OpenKeeps(fs, d, true, false, CreatePerm);
    var o := CreateFileFs(fs, d);
    if OpenRead(src, s).Ok? && o.err.None? && ReadAt(src, s, OpenRead(src, s).value).Ok? {
      OpenWriteFacts(fs, d, true, false, CreatePerm, ReadAt(src, s, OpenRead(src, s).value).value);
    }
  }

  /** Copying over an empty (or missing) destination gives exactly the source's bytes. */
  lemma CopyFileIntoEmpty(src: FsMap, fs: FsMap, s: string, d: string)
    requires Previous(fs, d) == []
    requires CopyFileFs(src, fs, s, d).err.None?
    ensures ReadFile(CopyFileFs(src, fs, s, d).fs, d) == ReadFile(src, s)
  {
    CopyFileFacts(src, fs, s, d);
  }

  /**
    The destination is not truncated, so copying a file over a longer one does not give a
    copy: the longer file's tail is still there after the source's bytes.
  */
  lemma CopyOverLonger(src: FsMap, fs: FsMap, s: string, d: string)
    requires CopyFileFs(src, fs, s, d).err.None?
    requires |ReadFile(src, s).value| < |Previous(fs, d)|
    ensures ReadFile(CopyFileFs(src, fs, s, d).fs, d) != ReadFile(src, s)
  {
    CopyFileFacts(src, fs, s, d);
  }

  /** CopyFsFile as evidently intended: the destination is also opened with O_TRUNC. */
  function CopyFileExactFs(src: FsMap, fs: FsMap, s: string, d: string): Outcome {
    match OpenRead(src, s)
    case Err(e) => Outcome(fs, Some(e))
    case Ok(k) =>
      var o := OpenFs(fs, d, true, true, CreatePerm);
      if o.err.Some? then Outcome(fs, o.err)
      else match ReadAt(src, s, k)
        case Err(e) => Outcome(o.fs, Some(e))
        case Ok(data) => Commit(o.fs, WriteFs(o.fs, o.key, data))
  }

  /** With truncation, a successful copy reads as exactly the source, whatever was there before. */
  lemma CopyFileExact(src: FsMap, fs: FsMap, s: string, d: string)
    ensures CopyFileExactFs(src, fs, s, d).err.None? ==> ReadFile(CopyFileExactFs(src, fs, s, d).fs, d) == ReadFile(src, s)
    ensures Keeps(fs, CopyFileExactFs(src, fs, s, d).fs)
  {
    OpenKeeps(fs, d, true, true, CreatePerm);
    var o := OpenFs(fs, d, true, true, CreatePerm);
    if OpenRead(src, s).Ok? && o.err.None? && ReadAt(src, s, OpenRead(src, s).value).Ok? {
      var data := ReadAt(src, s, OpenRead(src, s).value).value;
      OpenWriteFacts(fs, d, true, true, CreatePerm, data);
      assert Before(fs, d, true) == [];
    }
  }

  // ---------------------------------------------------------------------------------------
  // CopyFsDir

  /**
    What CopyFsDir does: list the source (failing before touching the destination), MkdirAll
    the destination, then copy each entry to dst/name in listing order, recursing into
    directories, up to the first failure.
  */
  function CopyDirFs(src: FsMap, fs: FsMap, s: string, d: string): Outcome
    decreases Walking.Measure(src, s), 1, 0
  {
    match ReadDir(src, s)
    case Err(e) => Outcome(fs, Some(e))
    case Ok(entries) =>
      assert Lookup(src, s).Some?;
      var o := MkdirAllFs(fs, d);
      if o.err.Some? then o else CopyEntries(src, o.fs, s, d, entries)
  }

  function CopyEntries(src: FsMap, fs: FsMap, s: string, d: string, es: seq<DirEntry>): Outcome
    requires Lookup(src, s).Some?
    decreases Walking.Measure(src, s), 0, |es|
  {
    if es == [] then Outcome(fs, None)
    else
      var o := CopyEntry(src, fs, s, d, es[0]);
      if o.err.Some? then o else CopyEntries(src, o.fs, s, d, es[1..])
  }

  /** One entry: a directory recurses, anything else is copied as a file. */
  function CopyEntry(src: FsMap, fs: FsMap, s: string, d: string, e: DirEntry): Outcome
    requires Lookup(src, s).Some?
    decreases Walking.Measure(src, s), 0, 0
  {
    Walking.ChildMeasure(src, s, e.name);
    if e.isDir then CopyDirFs(src, fs, Join(s, e.name), Join(d, e.name))
    else CopyFileFs(src, fs, Join(s, e.name), Join(d, e.name))
  }

  /** CopyFsDir(srcFS, dstFs, src, dst) */
  method CopyFsDir(src: FsMap, dst: FileSystem, s: string, d: string) returns (err: Option<Error>)
    modifies dst
    ensures Outcome(dst.nodes, err) == CopyDirFs(src, old(dst.nodes), s, d)
    decreases Walking.Measure(src, s), 1
  {
    var listing := ReadDir(src, s);
    if listing.Err? {
      return Some(listing.error);
    }
    err := dst.MkdirAll(d);
    if err.Some? {
      return;
    }
    var es := listing.value;
    var i := 0;
    while i < |es|
      invariant 0 <= i <= |es|
      invariant CopyEntries(src, dst.nodes, s, d, es[i..]) == CopyDirFs(src, old(dst.nodes), s, d)
    {
      assert es[i..][1..] == es[i + 1..];
      var n := es[i].name;
      var e: Option<Error>;
      Walking.ChildMeasure(src, s, n);
      if es[i].isDir {
        e := CopyFsDir(src, dst, Join(s, n), Join(d, n));
      } else {
        e := CopyFsFile(src, dst, Join(s, n), Join(d, n));
      }
      if e.Some? {
        return e;
      }
      i := i + 1;
    }
    return None;
  }

  /** CopyDir(src, dst) */
  method CopyDir(fsys: FileSystem, s: string, d: string) returns (err: Option<Error>)
    modifies fsys
    ensures Outcome(fsys.nodes, err) == CopyDirFs(old(fsys.nodes), old(fsys.nodes), s, d)
  {
    err := CopyFsDir(fsys.nodes, fsys, s, d);
  }

  // ---------------------------------------------------------------------------------------

  /**
    CopyFsDir keeps every node of the destination with its kind; when the source cannot be
    listed nothing is created; and on success the destination is a directory holding, for
    each listed name, a directory for a directory entry and a readable file for any other.
  */
  lemma {:induction false} CopyDirFacts(src: FsMap, fs: FsMap, s: string, d: string)
    ensures Keeps(fs, CopyDirFs(src, fs, s, d).fs)
    ensures ReadDir(src, s).Err? ==> CopyDirFs(src, fs, s, d) == Outcome(fs, Some(ReadDir(src, s).error))
    ensures CopyDirFs(src, fs, s, d).err.None? ==>
      && IsDirAt(CopyDirFs(src, fs, s, d).fs, d)
      && forall e | e in ReadDir(src, s).value :: Mirrored(CopyDirFs(src, fs, s, d).fs, d, e)
    decreases Walking.Measure(src, s), 1, 0
  {
    if ReadDir(src, s).Ok? {
      var o := MkdirAllFs(fs, d);
      MkdirAllFacts(fs, d);
      GrowsKeeps(fs, o.fs);
      if o.err.None? {
        var es := ReadDir(src, s).value;
        CopyEntriesFacts(src, o.fs, s, d, es);
        KeepsTrans(fs, o.fs, CopyEntries(src, o.fs, s, d, es).fs);
        KeepsResolve(o.fs, CopyEntries(src, o.fs, s, d, es).fs, d);
      }
    }
  }

  /** Entry `e` of a listing has its counterpart under `d`. */
  predicate Mirrored(fs: FsMap, d: string, e: DirEntry) {
    if e.isDir then IsDirAt(fs, Join(d, e.name)) else ReadFile(fs, Join(d, e.name)).Ok?
  }

  /**
    Copying entries keeps every node's kind; on success each entry is mirrored; and a failure
    is the failure of one entry, after the ones before it were copied.
  */
  lemma {:induction false} CopyEntriesFacts(src: FsMap, fs: FsMap, s: string, d: string, es: seq<DirEntry>)
    requires Lookup(src, s).Some?
    ensures Keeps(fs, CopyEntries(src, fs, s, d, es).fs)
    ensures CopyEntries(src, fs, s, d, es).err.None? ==>
      forall e | e in es :: Mirrored(CopyEntries(src, fs, s, d, es).fs, d, e)
    decreases Walking.Measure(src, s), 0, |es|
  {
    if es != [] {
      var o := CopyEntry(src, fs, s, d, es[0]);
      CopyEntryFacts(src, fs, s, d, es[0]);
      if o.err.None? {
        var fin := CopyEntries(src, o.fs, s, d, es[1..]);
        CopyEntriesFacts(src, o.fs, s, d, es[1..]);
        KeepsTrans(fs, o.fs, fin.fs);
        if fin.err.None? {
          MirroredKept(o.fs, fin.fs, d, es[0]);
          assert forall e | e in es :: e == es[0] || e in es[1..];
        }
      }
    }
  }

  lemma {:induction false} CopyEntryFacts(src: FsMap, fs: FsMap, s: string, d: string, e: DirEntry)
    requires Lookup(src, s).Some?
    ensures Keeps(fs, CopyEntry(src, fs, s, d, e).fs)
    ensures CopyEntry(src, fs, s, d, e).err.None? ==> Mirrored(CopyEntry(src, fs, s, d, e).fs, d, e)
    decreases Walking.Measure(src, s), 0, 0
  {
    Walking.ChildMeasure(src, s, e.name);
    var s', d' := Join(s, e.name), Join(d, e.name);
    if e.isDir {
      CopyDirFacts(src, fs, s', d');
    } else {
      CopyFileFacts(src, fs, s', d');
    }
  }

  lemma MirroredKept(fs: FsMap, fs': FsMap, d: string, e: DirEntry)
    requires Keeps(fs, fs') && Mirrored(fs, d, e)
    ensures Mirrored(fs', d, e)
  {
    KeepsResolve(fs, fs', Join(d, e.name));
  }

  /**
    A failing copy stops at one entry: the entries before it were copied, it failed with the
    returned error, and the tree is as that entry left it.
  */
  lemma {:induction false} CopyEntriesStops(src: FsMap, fs: FsMap, s: string, d: string, es: seq<DirEntry>)
    returns (i: nat)
    requires Lookup(src, s).Some?
    requires CopyEntries(src, fs, s, d, es).err.Some?
    ensures i < |es|
    ensures CopyEntries(src, fs, s, d, es[..i]).err.None?
    ensures CopyEntry(src, CopyEntries(src, fs, s, d, es[..i]).fs, s, d, es[i]) == CopyEntries(src, fs, s, d, es)
    decreases |es|
  {
    var o := CopyEntry(src, fs, s, d, es[0]);
    if o.err.Some? {
      i := 0;
    } else {
      var k := CopyEntriesStops(src, o.fs, s, d, es[1..]);
      i := k + 1;
      var pre := es[..i];
      assert pre[0] == es[0] && pre[1..] == es[1..][..k];
      assert es[1..][k] == es[i];
    }
  }


  // ---------------------------------------------------------------------------------------
  // What a copy reads back as

  /** `d` followed by the names of `r`, joined on from the front, as CopyFsDir recurses. */
  function Below(d: string, r: seq<Name>): string
    decreases |r|
  {
    if r == [] then d else Below(Join(d, r[0]), r[1..])
  }

  /** `r` is a chain of names CopyFsDir follows from `s`: directories, then one non-directory. */
  predicate Reached(src: FsMap, s: string, r: seq<Name>)
    decreases |r|, 1
  {
    ReadDir(src, s).Ok? && ReachedVia(src, s, ReadDir(src, s).value, r)
  }

  /** The same chain, starting from the entries `es` of `s`. */
  predicate ReachedVia(src: FsMap, s: string, es: seq<DirEntry>, r: seq<Name>)
    decreases |r|, 0
  {
    && r != []
    && DirEntry(r[0], |r| > 1) in es
    && (|r| > 1 ==> Reached(src, Join(s, r[0]), r[1..]))
  }

  /** Entries that share a name agree on being a directory. */
  predicate Agree(es: seq<DirEntry>) {
    forall i, j | 0 <= i < |es| && 0 <= j < |es| && es[i].name == es[j].name :: es[i].isDir == es[j].isDir
  }

  /** A listing agrees with itself: an entry's kind is its node's. */
  lemma ListingAgrees(fs: FsMap, p: string)
    requires ReadDir(fs, p).Ok?
    ensures Agree(ReadDir(fs, p).value)
  {
    var k := OpenRead(fs, p).value;
    var es := ReadDir(fs, p).value;
    EntriesNodes(fs, k, fs[k].names);
    forall i, j | 0 <= i < |es| && 0 <= j < |es| && es[i].name == es[j].name
      ensures es[i].isDir == es[j].isDir
    {
      assert es[i] in es && es[j] in es;
    }
  }

  lemma {:induction false} BelowInside(d: string, r: seq<Name>)
    ensures Inside(Clean(Below(d, r)), d)
    decreases |r|
  {
    if r == [] {
      InsideClean(d);
    } else {
      BelowInside(Join(d, r[0]), r[1..]);
      InsideJoin(Clean(Below(d, r)), d, r[0]);
    }
  }

  lemma {:induction false} BelowJoinAll(d: string, r: seq<Name>)
    ensures Below(d, r) == JoinAll(d, r)
    decreases |r|
  {
    if r != [] {
      BelowJoinAll(Join(d, r[0]), r[1..]);
      JoinAllCons(d, r[0], r[1..]);
      assert [r[0]] + r[1..] == r;
    }
  }

  /**
    The entry a chain goes through is the first of a list when the names match, and then
    either the chain goes through the rest of the list too or no later entry has that name.
  */
  lemma AgreeReached(src: FsMap, s: string, es: seq<DirEntry>, r: seq<Name>)
    requires Agree(es) && ReachedVia(src, s, es, r)
    requires es != [] && es[0].name == r[0]
    ensures es[0] == DirEntry(r[0], |r| > 1)
    ensures ReachedVia(src, s, es[1..], r) || forall i | 0 <= i < |es[1..]| :: es[1..][i].name != r[0]
  {
    var j :| 0 <= j < |es| && es[j] == DirEntry(r[0], |r| > 1);
    assert es[0].isDir == es[j].isDir;
    if exists i | 0 <= i < |es[1..]| :: es[1..][i].name == r[0] {
      var i :| 0 <= i < |es[1..]| && es[1..][i].name == r[0];
      assert es[1..][i] == es[i + 1];
      assert es[i + 1].isDir == es[0].isDir;
    }
  }

  /** Copying one file into a tree without links touches nothing but the destination's key. */
  lemma CopyFileKept(src: FsMap, fs: FsMap, s: string, p: string, q: string)
    requires NoLinks(fs)
    requires CopyFileFs(src, fs, s, p).err.None?
    ensures NoLinks(CopyFileFs(src, fs, s, p).fs)
    ensures q != Clean(p) ==> FileKept(fs, CopyFileFs(src, fs, s, p).fs, q)
  {
    var data := ReadAt(src, s, OpenRead(src, s).value).value;
    OpenWriteKept(fs, p, true, false, CreatePerm, data, q);
  }

  /**
    A copy into a tree without links adds no link, and every file outside the destination
    directory is as it was.
  */
  lemma {:induction false} CopyDirKept(src: FsMap, fs: FsMap, s: string, d: string, q: string)
    requires NoLinks(fs)
    requires CopyDirFs(src, fs, s, d).err.None?
    ensures NoLinks(CopyDirFs(src, fs, s, d).fs)
    ensures !Inside(q, d) ==> FileKept(fs, CopyDirFs(src, fs, s, d).fs, q)
    decreases Walking.Measure(src, s), 1, 0
  {
    var es := ReadDir(src, s).value;
    var o := MkdirAllFs(fs, d);
    CopyDirSplit(src, fs, s, d, es, o);
    MkdirAllKept(fs, d, q);
    CopyEntriesKept(src, o.fs, s, d, es, q);
    OutsideEntries(q, d, es);
    if !Inside(q, d) {
      FileKeptTrans(fs, o.fs, CopyEntries(src, o.fs, s, d, es).fs, q);
    }
  }

  lemma CopyDirSplit(src: FsMap, fs: FsMap, s: string, d: string, es: seq<DirEntry>, o: Outcome)
    requires ReadDir(src, s).Ok? && es == ReadDir(src, s).value && o == MkdirAllFs(fs, d)
    ensures Lookup(src, s).Some?
    ensures CopyDirFs(src, fs, s, d) == if o.err.Some? then o else CopyEntries(src, o.fs, s, d, es)
  {
  }

  /** What is outside `d` is outside each d/name. */
  lemma OutsideEntries(q: string, d: string, es: seq<DirEntry>)
    ensures !Inside(q, d) ==> forall i | 0 <= i < |es| :: !Inside(q, Join(d, es[i].name))
  {
    forall i | 0 <= i < |es|
      ensures Inside(q, Join(d, es[i].name)) ==> Inside(q, d)
    {
      InsideJoin(q, d, es[i].name);
    }
  }

  lemma {:induction false} CopyEntriesKept(src: FsMap, fs: FsMap, s: string, d: string, es: seq<DirEntry>, q: string)
    requires Lookup(src, s).Some?
    requires NoLinks(fs)
    requires CopyEntries(src, fs, s, d, es).err.None?
    ensures NoLinks(CopyEntries(src, fs, s, d, es).fs)
    ensures (forall i | 0 <= i < |es| :: !Inside(q, Join(d, es[i].name))) ==>
      FileKept(fs, CopyEntries(src, fs, s, d, es).fs, q)
    decreases Walking.Measure(src, s), 0, |es|
  {
    if es != [] {
      var o := CopyEntry(src, fs, s, d, es[0]);
      CopyEntryKept(src, fs, s, d, es[0], q);
      CopyEntriesKept(src, o.fs, s, d, es[1..], q);
      if forall i | 0 <= i < |es| :: !Inside(q, Join(d, es[i].name)) {
        assert forall i | 0 <= i < |es| - 1 :: es[1..][i] == es[i + 1];
        FileKeptTrans(fs, o.fs, CopyEntries(src, o.fs, s, d, es[1..]).fs, q);
      }
    }
  }

  lemma {:induction false} CopyEntryKept(src: FsMap, fs: FsMap, s: string, d: string, e: DirEntry, q: string)
    requires Lookup(src, s).Some?
    requires NoLinks(fs)
    requires CopyEntry(src, fs, s, d, e).err.None?
    ensures NoLinks(CopyEntry(src, fs, s, d, e).fs)
    ensures !Inside(q, Join(d, e.name)) ==> FileKept(fs, CopyEntry(src, fs, s, d, e).fs, q)
    decreases Walking.Measure(src, s), 0, 0
  {
    Walking.ChildMeasure(src, s, e.name);
    if e.isDir {
      CopyDirKept(src, fs, Join(s, e.name), Join(d, e.name), q);
    } else {
      CopyFileKept(src, fs, Join(s, e.name), Join(d, e.name), q);
      InsideClean(Join(d, e.name));
    }
  }

  /**
    CopyFsDir into a destination tree without symbolic links: every file the copy reaches
    reads back as the source file's bytes, provided what was at its place before was no
    longer (nothing, in particular, for a destination that does not exist yet).
  */
  lemma {:induction false} CopyDirReadsBack(src: FsMap, fs: FsMap, s: string, d: string, r: seq<Name>)
    requires NoLinks(fs)
    requires CopyDirFs(src, fs, s, d).err.None?
    requires Reached(src, s, r)
    requires |Previous(fs, Below(d, r))| <= |Previous(src, Below(s, r))|
    ensures ReadFile(CopyDirFs(src, fs, s, d).fs, Below(d, r)) == ReadFile(src, Below(s, r))
    ensures ReadFile(src, Below(s, r)).Ok?
    decreases Walking.Measure(src, s), 1, 0, 0
  {
    var es := ReadDir(src, s).value;
    var o := MkdirAllFs(fs, d);
    var p := Below(d, r);
    MkdirAllKept(fs, d, Clean(p));
    FileKeptRead(fs, o.fs, p);
    ListingAgrees(src, s);
    CopyEntriesReadBack(src, o.fs, s, d, es, r);
  }

  lemma {:induction false} CopyEntriesReadBack(src: FsMap, fs: FsMap, s: string, d: string, es: seq<DirEntry>, r: seq<Name>)
    requires Lookup(src, s).Some?
    requires NoLinks(fs)
    requires CopyEntries(src, fs, s, d, es).err.None?
    requires Agree(es) && ReachedVia(src, s, es, r)
    requires |Previous(fs, Below(d, r))| <= |Previous(src, Below(s, r))|
    ensures ReadFile(CopyEntries(src, fs, s, d, es).fs, Below(d, r)) == ReadFile(src, Below(s, r))
    ensures ReadFile(src, Below(s, r)).Ok?
    decreases Walking.Measure(src, s), 0, |es|, 1
  {
    if es[0].name == r[0] {
      CopyEntriesHit(src, fs, s, d, es, r);
    } else {
      CopyEntriesMiss(src, fs, s, d, es, r);
    }
  }

  /** The first entry is the one the chain goes through: it is copied, and what follows keeps it. */
  lemma {:induction false} CopyEntriesHit(src: FsMap, fs: FsMap, s: string, d: string, es: seq<DirEntry>, r: seq<Name>)
    requires Lookup(src, s).Some?
    requires NoLinks(fs)
    requires CopyEntries(src, fs, s, d, es).err.None?
    requires Agree(es) && ReachedVia(src, s, es, r)
    requires es != [] && es[0].name == r[0]
    requires |Previous(fs, Below(d, r))| <= |Previous(src, Below(s, r))|
    ensures ReadFile(CopyEntries(src, fs, s, d, es).fs, Below(d, r)) == ReadFile(src, Below(s, r))
    ensures ReadFile(src, Below(s, r)).Ok?
    decreases Walking.Measure(src, s), 0, |es|, 0
  {
    var o := CopyEntry(src, fs, s, d, es[0]);
    var rest := es[1..];
    assert CopyEntries(src, fs, s, d, es) == CopyEntries(src, o.fs, s, d, rest);
    AgreeRest(es);
    AgreeReached(src, s, es, r);
    CopyEntryReadBack(src, fs, s, d, es[0], r);
    CopyEntryKept(src, fs, s, d, es[0], "");
    if ReachedVia(src, s, rest, r) {
      CopyEntriesReadBack(src, o.fs, s, d, rest, r);
    } else {
      RestOutside(src, o.fs, s, d, rest, r);
    }
  }

  /** Entries none of which has the chain's first name leave its file alone. */
  lemma RestOutside(src: FsMap, fs: FsMap, s: string, d: string, es: seq<DirEntry>, r: seq<Name>)
    requires Lookup(src, s).Some?
    requires NoLinks(fs)
    requires CopyEntries(src, fs, s, d, es).err.None?
    requires r != [] && forall i | 0 <= i < |es| :: es[i].name != r[0]
    ensures ReadFile(CopyEntries(src, fs, s, d, es).fs, Below(d, r)) == ReadFile(fs, Below(d, r))
      || (ReadFile(CopyEntries(src, fs, s, d, es).fs, Below(d, r)).Err? && ReadFile(fs, Below(d, r)).Err?)
  {
    var p := Below(d, r);
    BelowInside(Join(d, r[0]), r[1..]);
    forall i | 0 <= i < |es|
      ensures !Inside(Clean(p), Join(d, es[i].name))
    {
      InsideSiblings(Clean(p), d, r[0], es[i].name);
    }
    CopyEntriesKept(src, fs, s, d, es, Clean(p));
    FileKeptRead(fs, CopyEntries(src, fs, s, d, es).fs, p);
  }

  /** The first entry has another name: its copy leaves the chain's file alone. */
  lemma {:induction false} CopyEntriesMiss(src: FsMap, fs: FsMap, s: string, d: string, es: seq<DirEntry>, r: seq<Name>)
    requires Lookup(src, s).Some?
    requires NoLinks(fs)
    requires CopyEntries(src, fs, s, d, es).err.None?
    requires Agree(es) && ReachedVia(src, s, es, r)
    requires es != [] && es[0].name != r[0]
    requires |Previous(fs, Below(d, r))| <= |Previous(src, Below(s, r))|
    ensures ReadFile(CopyEntries(src, fs, s, d, es).fs, Below(d, r)) == ReadFile(src, Below(s, r))
    ensures ReadFile(src, Below(s, r)).Ok?
    decreases Walking.Measure(src, s), 0, |es|, 0
  {
    var o := CopyEntry(src, fs, s, d, es[0]);
    var rest := es[1..];
    var p := Below(d, r);
    assert CopyEntries(src, fs, s, d, es) == CopyEntries(src, o.fs, s, d, rest);
    AgreeRest(es);
    BelowInside(Join(d, r[0]), r[1..]);
    InsideSiblings(Clean(p), d, r[0], es[0].name);
    CopyEntryKept(src, fs, s, d, es[0], Clean(p));
    FileKeptRead(fs, o.fs, p);
    assert DirEntry(r[0], |r| > 1) in rest;
    CopyEntriesReadBack(src, o.fs, s, d, rest, r);
  }

  lemma AgreeRest(es: seq<DirEntry>)
    requires Agree(es) && es != []
    ensures Agree(es[1..])
  {
    assert forall i | 0 <= i < |es| - 1 :: es[1..][i] == es[i + 1];
  }

  lemma {:induction false} CopyEntryReadBack(src: FsMap, fs: FsMap, s: string, d: string, e: DirEntry, r: seq<Name>)
    requires Lookup(src, s).Some?
    requires NoLinks(fs)
    requires CopyEntry(src, fs, s, d, e).err.None?
    requires r != [] && e == DirEntry(r[0], |r| > 1)
    requires |r| > 1 ==> Reached(src, Join(s, r[0]), r[1..])
    requires |Previous(fs, Below(d, r))| <= |Previous(src, Below(s, r))|
    ensures ReadFile(CopyEntry(src, fs, s, d, e).fs, Below(d, r)) == ReadFile(src, Below(s, r))
    ensures ReadFile(src, Below(s, r)).Ok?
    decreases Walking.Measure(src, s), 0, 0, 0
  {
    Walking.ChildMeasure(src, s, e.name);
    if e.isDir {
      CopyDirReadsBack(src, fs, Join(s, e.name), Join(d, e.name), r[1..]);
    } else {
      assert Below(d, r) == Join(d, e.name) && Below(s, r) == Join(s, e.name);
      CopyFileFacts(src, fs, Join(s, e.name), Join(d, e.name));
    }
  }

  /**
    Copying a directory into a destination that does not exist yet: every file the copy
    reaches, however deep, reads back at the same relative path as the source's bytes.
  */
  lemma CopyIntoFresh(src: FsMap, fs: FsMap, s: string, d: string, r: seq<Name>)
    requires NoLinks(fs)
    requires forall k | k in fs :: !Inside(k, d)
    requires CopyDirFs(src, fs, s, d).err.None?
    requires Reached(src, s, r)
    ensures ReadFile(CopyDirFs(src, fs, s, d).fs, JoinAll(d, r)) == ReadFile(src, JoinAll(s, r))
  {
    BelowInside(d, r);
    NoLinksRead(fs, Below(d, r));
    BelowJoinAll(d, r);
    BelowJoinAll(s, r);
    CopyDirReadsBack(src, fs, s, d, r);
  }
}
