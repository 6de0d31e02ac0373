/**
  filepath.Walk over the in-memory filesystem, as the list of calls it makes to its
  callback: the root first (through Lstat, so a link is not followed), then, for a
  directory, each listed name joined onto the path, in listing order, depth first.

  Each event also records `rel`, the names walked from the root, so that the path it
  reports is JoinAll(root, rel).
*/
module Walking {
  import opened Wrappers
  import opened Paths
  import opened Fs

  /** One call of the callback: the path, the names below the root, and (info, nil) or (nil, err). */
  datatype WalkEvent = WalkEvent(path: string, rel: seq<Name>, stat: Result<FileInfo, Error>)

  /** A walked path that Lstat reports, and that is a directory or reads without error. */
  predicate Readable(fs: FsMap, e: WalkEvent) {
    e.stat.Ok? && (e.stat.value.IsDir() || ReadFile(fs, e.path).Ok?)
  }

  /** A path the walk reached from the source, with what Lstat says of it. */
  predicate Walked(fs: FsMap, src: string, e: WalkEvent) {
    e.stat == Lstat(fs, e.path) && e.path == JoinAll(src, e.rel)
  }

  /** The largest number of segments of any key. */
  ghost function MaxCount(ks: set<string>): (m: nat)
    ensures forall k | k in ks :: |Norm(k)| <= m
  {
    if ks == {} then 0
    else
      var k :| k in ks;
      var rest := MaxCount(ks - {k});
      if |Norm(k)| > rest then |Norm(k)| else rest
  }

  /** How many more segments a path can gain before no key can match it. */
  ghost function Measure(fs: FsMap, p: string): nat {
    var bound := MaxCount(fs.Keys) + 1;
    if |Norm(p)| <= bound then bound - |Norm(p)| else 0
  }

  lemma ChildMeasure(fs: FsMap, p: string, n: Name)
    requires Lookup(fs, p).Some?
    ensures Measure(fs, Join(p, n)) < Measure(fs, p)
  {
    JoinName(p, n);
    NormClean(p);
    assert |Norm(Clean(p))| <= MaxCount(fs.Keys);
  }

  lemma JoinAllSnoc(root: string, r: seq<string>, n: string)
    ensures JoinAll(root, r + [n]) == Join(JoinAll(root, r), n)
  {
    assert (r + [n])[..|r|] == r;
  }

    /** The events of the walk of the node at JoinAll(root, r). */
  function WalkNode(fs: FsMap, root: string, r: seq<Name>): (es: seq<WalkEvent>)
    ensures es != [] && es[0].path == JoinAll(root, r) && es[0].rel == r
    ensures forall e | e in es :: e.path == JoinAll(root, e.rel)
    ensures forall e | e in es[1..] :: Below(r, e.rel)
    decreases Measure(fs, JoinAll(root, r)), 1, 0
  {
    var p := JoinAll(root, r);
    match Lookup(fs, p)
    case None => [WalkEvent(p, r, Err(PathError(p, ENOENT)))]
    case Some(n) =>
      var head := WalkEvent(p, r, Ok(InfoOf(Base(p), n)));
      var tail := if n.DirNode? then WalkChildren(fs, root, r, n.names) else [];
      assert ([head] + tail)[1..] == tail;
      [head] + tail
  }

  /** `rel` names a node strictly below the one `r` names. */
  predicate Below(r: seq<Name>, rel: seq<Name>) {
    |r| < |rel| && rel[..|r|] == r
  }

  lemma BelowChild(r: seq<Name>, n: Name, rel: seq<Name>)
    requires rel == r + [n] || Below(r + [n], rel)
    ensures Below(r, rel)
  {
    assert rel[..|r|] == rel[..|r| + 1][..|r|];
  }

  function WalkChildren(fs: FsMap, root: string, r: seq<Name>, names: seq<Name>): (es: seq<WalkEvent>)
    requires Lookup(fs, JoinAll(root, r)).Some?
    ensures forall e | e in es :: e.path == JoinAll(root, e.rel)
    ensures forall e | e in es :: Below(r, e.rel)
    decreases Measure(fs, JoinAll(root, r)), 0, |names|
  {
    if names == [] then []
    else
      ChildMeasure(fs, JoinAll(root, r), names[0]);
      JoinAllSnoc(root, r, names[0]);
      var first := WalkNode(fs, root, r + [names[0]]);
      var rest := WalkChildren(fs, root, r, names[1..]);
      assert forall e | e in first :: Below(r, e.rel) by {
        forall e | e in first ensures Below(r, e.rel) {
          if e != first[0] {
            assert e in first[1..];
          }
          BelowChild(r, names[0], e.rel);
        }
      }
      first + rest
  }

  /** filepath.Walk(root, fn): the calls fn receives, in order. */
  function Walk(fs: FsMap, root: string): seq<WalkEvent> {
    WalkNode(fs, root, [])
  }

  /** Each event reports what Lstat says of its path. */
  lemma {:induction false} WalkNodeLstat(fs: FsMap, root: string, r: seq<Name>)
    ensures forall e | e in WalkNode(fs, root, r) :: e.stat == Lstat(fs, e.path)
    decreases Measure(fs, JoinAll(root, r)), 1, 0
  {
    var p := JoinAll(root, r);
    if Lookup(fs, p).Some? && Lookup(fs, p).value.DirNode? {
      WalkChildrenLstat(fs, root, r, Lookup(fs, p).value.names);
    }
  }

  lemma {:induction false} WalkChildrenLstat(fs: FsMap, root: string, r: seq<Name>, names: seq<Name>)
    requires Lookup(fs, JoinAll(root, r)).Some?
    ensures forall e | e in WalkChildren(fs, root, r, names) :: e.stat == Lstat(fs, e.path)
    decreases Measure(fs, JoinAll(root, r)), 0, |names|
  {
    if names != [] {
      ChildMeasure(fs, JoinAll(root, r), names[0]);
      JoinAllSnoc(root, r, names[0]);
      WalkNodeLstat(fs, root, r + [names[0]]);
      WalkChildrenLstat(fs, root, r, names[1..]);
    }
  }

  // ---------------------------------------------------------------------------------------
  // Running a callback over the walk

  /**
    The callback applied to each event in turn; the first error stops the walk and is what
    filepath.Walk returns. Each call contributes a list of outputs (archive entries).
  */
  function Run<T>(es: seq<WalkEvent>, f: WalkEvent -> Result<seq<T>, Error>): Result<seq<T>, Error> {
    if es == [] then Ok([])
    else
      var a :- f(es[0]);
      var b :- Run(es[1..], f);
      Ok(a + b)
  }

  /** Everything the callback produced, when no call failed. */
  function Collect<T>(es: seq<WalkEvent>, f: WalkEvent -> Result<seq<T>, Error>): seq<T> {
    if es == [] then []
    else (if f(es[0]).Ok? then f(es[0]).value else []) + Collect(es[1..], f)
  }

  /** The walk succeeds exactly when every call does, and yields their outputs in order. */
  lemma {:induction false} RunOk<T>(es: seq<WalkEvent>, f: WalkEvent -> Result<seq<T>, Error>)
    ensures Run(es, f).Ok? <==> forall i | 0 <= i < |es| :: f(es[i]).Ok?
    ensures Run(es, f).Ok? ==> Run(es, f).value == Collect(es, f)
  {
    if es != [] {
      RunOk(es[1..], f);
      assert forall i | 1 <= i < |es| :: es[i] == es[1..][i - 1];
    }
  }

  /** A failing call aborts the walk with its own error; the calls before it succeeded. */
  lemma {:induction false} RunErr<T>(es: seq<WalkEvent>, f: WalkEvent -> Result<seq<T>, Error>) returns (i: nat)
    requires Run(es, f).Err?
    ensures i < |es| && f(es[i]).Err? && Run(es, f).error == f(es[i]).error
    ensures forall j | 0 <= j < i :: f(es[j]).Ok?
  {
    if f(es[0]).Err? {
      i := 0;
    } else {
      var k := RunErr(es[1..], f);
      i := k + 1;
      assert forall j | 1 <= j < i :: es[j] == es[1..][j - 1];
    }
  }

  /** Walking two lists one after the other is walking their concatenation. */
  lemma {:induction false} RunAppend<T>(a: seq<WalkEvent>, b: seq<WalkEvent>, f: WalkEvent -> Result<seq<T>, Error>)
    ensures Run(a + b, f) == (match Run(a, f)
      case Err(e) => Err(e)
      case Ok(x) => (match Run(b, f) case Err(e) => Err(e) case Ok(y) => Ok(x + y)))
  {
    if a == [] {
      assert a + b == b;
      if Run(b, f).Ok? {
        assert [] + Run(b, f).value == Run(b, f).value;
      }
    } else {
      assert (a + b)[0] == a[0] && (a + b)[1..] == a[1..] + b;
      RunAppend(a[1..], b, f);
      if f(a[0]).Ok? && Run(a[1..], f).Ok? && Run(b, f).Ok? {
        assert f(a[0]).value + (Run(a[1..], f).value + Run(b, f).value)
          == (f(a[0]).value + Run(a[1..], f).value) + Run(b, f).value;
      }
    }
  }

  /** Every output of a walk comes from one of its calls. */
  lemma {:induction false} CollectFrom<T>(es: seq<WalkEvent>, f: WalkEvent -> Result<seq<T>, Error>, t: T)
    requires t in Collect(es, f)
    ensures exists i | 0 <= i < |es| :: f(es[i]).Ok? && t in f(es[i]).value
  {
    var head := if f(es[0]).Ok? then f(es[0]).value else [];
    if t in head {
      assert f(es[0]).Ok? && t in f(es[0]).value;
    } else {
      CollectFrom(es[1..], f, t);
      var i :| 0 <= i < |es[1..]| && f(es[1..][i]).Ok? && t in f(es[1..][i]).value;
      assert es[1..][i] == es[i + 1];
    }
  }

  /** An entry of a walk that succeeded came from the callback of one of its events. */
  lemma RunFrom<T>(es: seq<WalkEvent>, f: WalkEvent -> Result<seq<T>, Error>, t: T)
    requires Run(es, f).Ok? && t in Run(es, f).value
    ensures exists i | 0 <= i < |es| :: f(es[i]).Ok? && t in f(es[i]).value
  {
    RunOk(es, f);
    CollectFrom(es, f, t);
  }

  /** And every output of every successful call is among them. */
  lemma {:induction false} CollectHas<T>(es: seq<WalkEvent>, f: WalkEvent -> Result<seq<T>, Error>, i: nat, t: T)
    requires i < |es| && f(es[i]).Ok? && t in f(es[i]).value
    ensures t in Collect(es, f)
  {
    if i > 0 {
      assert es[1..][i - 1] == es[i];
      CollectHas(es[1..], f, i - 1, t);
    }
  }

  /** The outputs gathered so far, put in front of what the rest of the walk yields. */
  function Then<T>(acc: seq<T>, r: Result<seq<T>, Error>): Result<seq<T>, Error> {
    match r
    case Ok(x) => Ok(acc + x)
    case Err(e) => Err(e)
  }

  /** A first result and, when it succeeded, the rest gathered after it. */
  function AndThen<T>(first: Result<seq<T>, Error>, rest: Result<seq<T>, Error>): Result<seq<T>, Error> {
    match first
    case Err(e) => Err(e)
    case Ok(x) => Then(x, rest)
  }

  /** Nothing gathered yet changes nothing; gathering ends with what was gathered. */
  lemma ThenEnds<T>(out: seq<T>, r: Result<seq<T>, Error>)
    ensures Then([], r) == r
    ensures Then(out, Ok([])) == Ok(out)
  {
    if r.Ok? {
      assert [] + r.value == r.value;
    }
    assert out + [] == out;
  }

  /** Gathering `x` and then the rest is gathering the rest after `out + x`. */
  lemma ThenPush<T>(out: seq<T>, x: seq<T>, rest: Result<seq<T>, Error>)
    ensures Then(out, Then(x, rest)) == Then(out + x, rest)
  {
    if rest.Ok? {
      assert out + (x + rest.value) == (out + x) + rest.value;
    }
  }

  /**
    filepath.Walk driving a callback: each event in turn, the callback's outputs appended
    to what the archive writer already holds, and the first error returned at once.
  */
  method WalkFn<T>(es: seq<WalkEvent>, f: WalkEvent -> Result<seq<T>, Error>) returns (out: seq<T>, err: Option<Error>)
    ensures Run(es, f).Ok? ==> err.None? && out == Run(es, f).value
    ensures Run(es, f).Err? ==> err == Some(Run(es, f).error) && out == []
  {
    out := [];
    var i := 0;
    assert es[0..] == es;
    ThenEnds(out, Run(es, f));
    while i < |es|
      invariant 0 <= i <= |es|
      invariant Run(es, f) == Then(out, Run(es[i..], f))
    {
      var r := f(es[i]);
      assert es[i..][0] == es[i] && es[i..][1..] == es[i + 1..];
      if r.Err? {
        return [], Some(r.error);
      }
      ThenPush(out, r.value, Run(es[i + 1..], f));
      out := out + r.value;
      i := i + 1;
    }
    ThenEnds(out, Run(es[i..], f));
    return out, None;
  }

  /** In a walk that succeeded, every event's call succeeded and its outputs are in the result. */
  lemma RunHas<T>(es: seq<WalkEvent>, f: WalkEvent -> Result<seq<T>, Error>, e: WalkEvent)
    requires Run(es, f).Ok? && e in es
    ensures f(e).Ok? && forall t | t in f(e).value :: t in Run(es, f).value
  {
    RunOk(es, f);
    var i :| 0 <= i < |es| && es[i] == e;
    forall t | t in f(e).value
      ensures t in Run(es, f).value
    {
      CollectHas(es, f, i, t);
    }
  }
}
