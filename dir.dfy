/**
  dir.go: Mkdir and MkdirAll over a list of directories, one system call per directory,
  stopping at the first failure and keeping whatever the earlier calls created.
*/
module Dirs {
  import opened Wrappers
  import opened Paths
  import opened Fs

  /** What Mkdir(dirs...) does to a tree: os.Mkdir on each in turn, up to the first failure. */
  function MkdirEach(fs: FsMap, dirs: seq<string>): Outcome
    decreases |dirs|
  {
    if dirs == [] then Outcome(fs, None)
    else match MkdirFs(fs, dirs[0])
      case Err(e) => Outcome(fs, Some(e))
      case Ok(f) => MkdirEach(f, dirs[1..])
  }

  /** What MkdirAll(dirs...) does: os.MkdirAll on each in turn, up to the first failure. */
  function MkdirAllEach(fs: FsMap, dirs: seq<string>): Outcome
    decreases |dirs|
  {
    if dirs == [] then Outcome(fs, None)
    else
      var o := MkdirAllFs(fs, dirs[0]);
      if o.err.Some? then o else MkdirAllEach(o.fs, dirs[1..])
  }

  /** filebox.Mkdir */
  method Mkdir(fsys: FileSystem, dirs: seq<string>) returns (err: Option<Error>)
    modifies fsys
    ensures Outcome(fsys.nodes, err) == MkdirEach(old(fsys.nodes), dirs)
  {
    var i := 0;
    while i < |dirs|
      invariant 0 <= i <= |dirs|
      invariant MkdirEach(fsys.nodes, dirs[i..]) == MkdirEach(old(fsys.nodes), dirs)
    {
      assert dirs[i..][1..] == dirs[i + 1..];
      err := fsys.Mkdir(dirs[i]);
      if err.Some? {
        return;
      }
      i := i + 1;
    }
    return None;
  }

  /** filebox.MkdirAll */
  method MkdirAll(fsys: FileSystem, dirs: seq<string>) returns (err: Option<Error>)
    modifies fsys
    ensures Outcome(fsys.nodes, err) == MkdirAllEach(old(fsys.nodes), dirs)
  {
    var i := 0;
    while i < |dirs|
      invariant 0 <= i <= |dirs|
      invariant MkdirAllEach(fsys.nodes, dirs[i..]) == MkdirAllEach(old(fsys.nodes), dirs)
    {
      assert dirs[i..][1..] == dirs[i + 1..];
      err := fsys.MkdirAll(dirs[i]);
      if err.Some? {
        return;
      }
      i := i + 1;
    }
    return None;
  }

  // ---------------------------------------------------------------------------------------

  /**
    Mkdir never removes anything; an empty list changes nothing; and on success every
    listed path names a directory.
  */
  lemma {:induction false} MkdirEachFacts(fs: FsMap, dirs: seq<string>)
    ensures Grows(fs, MkdirEach(fs, dirs).fs)
    ensures dirs == [] ==> MkdirEach(fs, dirs) == Outcome(fs, None)
    ensures MkdirEach(fs, dirs).err.None? ==> forall d | d in dirs :: IsDirAt(MkdirEach(fs, dirs).fs, d)
    decreases |dirs|
  {
    if dirs != [] && MkdirFs(fs, dirs[0]).Ok? {
      var f := MkdirFs(fs, dirs[0]).value;
      MkdirFacts(fs, dirs[0]);
      MkdirEachFacts(f, dirs[1..]);
      GrowsTrans(fs, f, MkdirEach(f, dirs[1..]).fs);
      if MkdirEach(fs, dirs).err.None? {
        GrowsKeepsDir(f, MkdirEach(f, dirs[1..]).fs, dirs[0]);
        assert forall d | d in dirs :: d == dirs[0] || d in dirs[1..];
      }
    }
  }

  /**
    A failure names the directory that failed: the ones before it were made, it failed with
    os.Mkdir's own error, and nothing after it was attempted.
  */
  lemma {:induction false} MkdirEachStops(fs: FsMap, dirs: seq<string>) returns (i: nat)
    requires MkdirEach(fs, dirs).err.Some?
    ensures i < |dirs|
    ensures MkdirEach(fs, dirs[..i]).err.None?
    ensures MkdirFs(MkdirEach(fs, dirs[..i]).fs, dirs[i]) == Err(MkdirEach(fs, dirs).err.value)
    ensures MkdirEach(fs, dirs).fs == MkdirEach(fs, dirs[..i]).fs
    decreases |dirs|
  {
    if MkdirFs(fs, dirs[0]).Err? {
      i := 0;
    } else {
      var f := MkdirFs(fs, dirs[0]).value;
      var k := MkdirEachStops(f, dirs[1..]);
      i := k + 1;
      assert dirs[..i][0] == dirs[0] && dirs[..i][1..] == dirs[1..][..k];
      assert dirs[1..][k] == dirs[i];
    }
  }

  /** A directory whose parent is missing is not made: Mkdir stops there with ENOENT. */
  lemma MkdirMissingParent(fs: FsMap, dirs: seq<string>)
    requires dirs != [] && dirs[0] != "" && HasName(dirs[0])
    requires Clean(dirs[0]) !in fs && ParentKey(dirs[0]) !in fs
    ensures MkdirEach(fs, dirs) == Outcome(fs, Some(PathError(dirs[0], ENOENT)))
  {
  }

  /** MkdirAll never removes anything, and on success every listed path names a directory. */
  lemma {:induction false} MkdirAllEachFacts(fs: FsMap, dirs: seq<string>)
    ensures Grows(fs, MkdirAllEach(fs, dirs).fs)
    ensures dirs == [] ==> MkdirAllEach(fs, dirs) == Outcome(fs, None)
    ensures MkdirAllEach(fs, dirs).err.None? ==> forall d | d in dirs :: IsDirAt(MkdirAllEach(fs, dirs).fs, d)
    decreases |dirs|
  {
    if dirs != [] {
      var o := MkdirAllFs(fs, dirs[0]);
      MkdirAllFacts(fs, dirs[0]);
      if o.err.None? {
        MkdirAllEachFacts(o.fs, dirs[1..]);
        GrowsTrans(fs, o.fs, MkdirAllEach(o.fs, dirs[1..]).fs);
        if MkdirAllEach(fs, dirs).err.None? {
          GrowsKeepsDir(o.fs, MkdirAllEach(o.fs, dirs[1..]).fs, dirs[0]);
          assert forall d | d in dirs :: d == dirs[0] || d in dirs[1..];
        }
      }
    }
  }

  /**
    A failure of MkdirAll names the directory that failed: the ones before it were made,
    its os.MkdirAll gave the call's error and its tree (whatever it made before failing
    stays), and nothing after it was attempted.
  */
  lemma MkdirAllEachStops(fs: FsMap, dirs: seq<string>) returns (i: nat)
    requires MkdirAllEach(fs, dirs).err.Some?
    ensures i < |dirs|
    ensures MkdirAllEach(fs, dirs[..i]).err.None?
    ensures MkdirAllFs(MkdirAllEach(fs, dirs[..i]).fs, dirs[i]) == MkdirAllEach(fs, dirs)
  {
    EachOfMkdirAll(fs, dirs);
    i := EachStops(MkdirAllFs, fs, dirs);
    EachOfMkdirAll(fs, dirs[..i]);
  }

  /** A loop that applies `step` to each path in turn and stops at the first error. */
  function Each(step: (FsMap, string) -> Outcome, fs: FsMap, dirs: seq<string>): Outcome
    decreases |dirs|
  {
    if dirs == [] then Outcome(fs, None)
    else
      var o := step(fs, dirs[0]);
      if o.err.Some? then o else Each(step, o.fs, dirs[1..])
  }

  /** MkdirAllEach is that loop over os.MkdirAll. */
  lemma {:induction false} EachOfMkdirAll(fs: FsMap, dirs: seq<string>)
    ensures MkdirAllEach(fs, dirs) == Each(MkdirAllFs, fs, dirs)
    decreases |dirs|
  {
    if dirs != [] {
      var o := MkdirAllFs(fs, dirs[0]);
      MkdirAllEachCons(fs, dirs, o);
      EachCons(MkdirAllFs, fs, dirs, o);
      if o.err.None? {
        EachOfMkdirAll(o.fs, dirs[1..]);
      }
    }
  }

  /** Where such a loop fails: every step before succeeded, and the failing step's outcome is the loop's. */
  lemma {:induction false} EachStops(step: (FsMap, string) -> Outcome, fs: FsMap, dirs: seq<string>) returns (i: nat)
    requires Each(step, fs, dirs).err.Some?
    ensures i < |dirs|
    ensures Each(step, fs, dirs[..i]).err.None?
    ensures step(Each(step, fs, dirs[..i]).fs, dirs[i]) == Each(step, fs, dirs)
    decreases |dirs|
  {
    var o := step(fs, dirs[0]);
    if o.err.Some? {
      i := 0;
      assert dirs[..0] == [];
    } else {
      var k := EachStops(step, o.fs, dirs[1..]);
      i := k + 1;
      assert dirs[..i][0] == dirs[0] && dirs[..i][1..] == dirs[1..][..k];
      assert dirs[1..][k] == dirs[i];
    }
  }

  /** One step of the loop: the first path, then the rest unless it failed. */
  lemma EachCons(step: (FsMap, string) -> Outcome, fs: FsMap, dirs: seq<string>, o: Outcome)
    requires dirs != [] && o == step(fs, dirs[0])
    ensures Each(step, fs, dirs) == if o.err.Some? then o else Each(step, o.fs, dirs[1..])
  {
  }

  /** The same step of MkdirAll's own loop. */
  lemma MkdirAllEachCons(fs: FsMap, dirs: seq<string>, o: Outcome)
    requires dirs != [] && o == MkdirAllFs(fs, dirs[0])
    ensures MkdirAllEach(fs, dirs) == if o.err.Some? then o else MkdirAllEach(o.fs, dirs[1..])
  {
  }


  /** MkdirAll of one path creates nothing but directories, so every file is kept. */
  lemma MkdirAllOneKept(fs: FsMap, x: string, q: string)
    ensures FileKept(fs, MkdirAllEach(fs, [x]).fs, q)
    ensures NoLinks(fs) ==> NoLinks(MkdirAllEach(fs, [x]).fs)
  {
    var o := MkdirAllFs(fs, x);
    MkdirAllOne(fs, x, o);
    MkdirAllKept(fs, x, q);
  }

  lemma MkdirAllOne(fs: FsMap, x: string, o: Outcome)
    requires o == MkdirAllFs(fs, x)
    ensures MkdirAllEach(fs, [x]) == o
  {
    EachOfMkdirAll(fs, [x]);
    EachOne(MkdirAllFs, fs, x);
  }

  lemma EachOne(step: (FsMap, string) -> Outcome, fs: FsMap, x: string)
    ensures Each(step, fs, [x]) == step(fs, x)
  {
    assert [x][1..] == [];
  }

  /** Mkdir of one path likewise. */
  lemma MkdirOneKept(fs: FsMap, p: string, q: string)
    ensures FileKept(fs, MkdirEach(fs, [p]).fs, q)
    ensures NoLinks(fs) ==> NoLinks(MkdirEach(fs, [p]).fs)
  {
    assert [p][1..] == [];
    match MkdirFs(fs, p)
    case Ok(f) =>
      assert MkdirEach(fs, [p]) == MkdirEach(f, []) == Outcome(f, None);
      CreateAtFacts(fs, p, DirNode([]));
      GrowsDirsKept(fs, f, q);
    case Err(e) =>
      assert MkdirEach(fs, [p]) == Outcome(fs, Some(e));
  }
}
