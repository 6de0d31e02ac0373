/**
  Go's `path` package and the Unix flavour of `path/filepath`, as pure functions on
  `/`-separated strings: strings.Split, strings.Join, Clean, Join, Base, Dir, Split and Rel.

  Clean follows Go's lexical algorithm: the path is split at every `/`, the pieces are
  folded left to right (empty pieces and `.` vanish, `..` removes the previous piece when
  there is one that is not itself `..`, is dropped at the root, and is kept otherwise),
  and the result is rendered again (`/` in front for a rooted path, `.` for nothing).
*/
module Paths {
  import opened Wrappers

  predicate NoSep(s: string, sep: char) {
    forall i | 0 <= i < |s| :: s[i] != sep
  }

  predicate NoSlash(s: string) {
    NoSep(s, '/')
  }

  /** A plain directory-entry name, the only thing a directory listing holds. */
  predicate IsName(s: string) {
    s != "" && s != "." && s != ".." && NoSlash(s)
  }

  /** A segment that may appear in a cleaned path (plain names and `..`). */
  predicate IsSeg(s: string) {
    s != "" && s != "." && NoSlash(s)
  }

  predicate Rooted(p: string) {
    |p| > 0 && p[0] == '/'
  }

  predicate HasPrefix(s: string, prefix: string) {
    |prefix| <= |s| && s[..|prefix|] == prefix
  }

  /** strings.TrimPrefix */
  function TrimPrefix(s: string, prefix: string): string {
    if HasPrefix(s, prefix) then s[|prefix|..] else s
  }

  /** strings.Split(s, string(sep)): every piece between separators, at least one. */
  function Split(s: string, sep: char): (r: seq<string>)
    ensures |r| >= 1
  {
    if s == [] then [""]
    else
      var rest := Split(s[1..], sep);
      if s[0] == sep then [""] + rest else [[s[0]] + rest[0]] + rest[1..]
  }

  /** strings.Join(es, "/") */
  function JoinElems(es: seq<string>): string {
    if |es| == 0 then ""
    else if |es| == 1 then es[0]
    else JoinElems(es[..|es| - 1]) + "/" + es[|es| - 1]
  }

  /** One step of Clean's left-to-right scan over the pieces of a path. */
  function Step(rooted: bool, out: seq<string>, e: string): seq<string> {
    if e == "" || e == "." then out
    else if e == ".." then
      if |out| > 0 && out[|out| - 1] != ".." then out[..|out| - 1]
      else if rooted then out
      else out + [".."]
    else out + [e]
  }

  function Fold(rooted: bool, out: seq<string>, es: seq<string>): seq<string>
    decreases es
  {
    if es == [] then out else Fold(rooted, Step(rooted, out, es[0]), es[1..])
  }

  /** The segments of Clean(p). */
  function Norm(p: string): seq<string> {
    Fold(Rooted(p), [], Split(p, '/'))
  }

  function Render(rooted: bool, out: seq<string>): string {
    if rooted then "/" + JoinElems(out)
    else if out == [] then "."
    else JoinElems(out)
  }

  /** path.Clean (and filepath.Clean on Unix). */
  function Clean(p: string): string {
    Render(Rooted(p), Norm(p))
  }

  /** path.Join(a, b) (and filepath.Join on Unix): leading empty arguments are skipped. */
  function Join(a: string, b: string): string {
    if a != "" then Clean(a + "/" + b)
    else if b != "" then Clean(b)
    else ""
  }

  /** Join every name of `r` onto `p`, one at a time, as a directory walk does. */
  function JoinAll(p: string, r: seq<string>): string {
    if r == [] then p else Join(JoinAll(p, r[..|r| - 1]), r[|r| - 1])
  }

  function LastSlash(s: string): (i: int)
    ensures -1 <= i < |s|
    ensures i >= 0 ==> s[i] == '/'
  {
    if s == [] then -1
    else if s[|s| - 1] == '/' then |s| - 1
    else LastSlash(s[..|s| - 1])
  }

  /** No slash follows the last one. */
  lemma {:induction false} LastSlashTail(s: string)
    ensures NoSlash(s[LastSlash(s) + 1..])
  {
    if s != [] && s[|s| - 1] != '/' {
      var t := s[..|s| - 1];
      LastSlashTail(t);
      assert s[LastSlash(s) + 1..] == t[LastSlash(t) + 1..] + [s[|s| - 1]];
    }
  }

  function TrimTrailingSlashes(s: string): (r: string)
    ensures |r| <= |s| && r == s[..|r|]
  {
    if s != [] && s[|s| - 1] == '/' then TrimTrailingSlashes(s[..|s| - 1]) else s
  }

  /** path.Base (and filepath.Base on Unix). */
  function Base(p: string): string {
    if p == "" then "."
    else
      var q := TrimTrailingSlashes(p);
      var last := q[LastSlash(q) + 1..];
      if last == "" then "/" else last
  }

  /** path.Split: the text up to and including the last slash, and the rest. */
  function SplitPath(p: string): (string, string) {
    var i := LastSlash(p);
    (p[..i + 1], p[i + 1..])
  }

  /** path.Dir (and filepath.Dir on Unix). */
  function Dir(p: string): string {
    Clean(SplitPath(p).0)
  }

  /** The segments filepath.Rel scans in an already cleaned path. */
  function Segs(p: string): seq<string> {
    if p == "" || p == "/" then []
    else if p[0] == '/' then Split(p[1..], '/')
    else Split(p, '/')
  }

  function CommonPrefix(a: seq<string>, b: seq<string>): (k: nat)
    ensures k <= |a| && k <= |b|
    ensures a[..k] == b[..k]
    ensures k < |a| && k < |b| ==> a[k] != b[k]
  {
    if a == [] || b == [] || a[0] != b[0] then 0
    else
      var k := CommonPrefix(a[1..], b[1..]);
      assert a[..k + 1] == [a[0]] + a[1..][..k];
      assert b[..k + 1] == [b[0]] + b[1..][..k];
      assert k + 1 < |a| && k + 1 < |b| ==> a[k + 1] == a[1..][k] && b[k + 1] == b[1..][k];
      k + 1
  }

  function Repeat(s: string, n: nat): seq<string> {
    if n == 0 then [] else [s] + Repeat(s, n - 1)
  }

  /**
    filepath.Rel: a path that, joined to `basepath`, names `targpath`; None when Go
    returns its "can't make ... relative to ..." error.
  */
  function Rel(basepath: string, targpath: string): Option<string> {
    RelCleaned(Clean(basepath), Clean(targpath))
  }

  function RelCleaned(base: string, targ: string): Option<string> {
    if targ == base then Some(".")
    else
      var b := if base == "." then "" else base;
      if Rooted(b) != Rooted(targ) then None else RelSegs(Segs(b), Segs(targ))
  }

  /** Rel's scan: skip the common leading segments, climb out of the rest of the base. */
  function RelSegs(bs: seq<string>, ts: seq<string>): Option<string> {
    var k := CommonPrefix(bs, ts);
    if k < |bs| && bs[k] == ".." then None
    else if k < |bs| then Some(JoinElems(Repeat("..", |bs| - k) + ts[k..]))
    else Some(JoinElems(ts[k..]))
  }

  /** What Clean produces: segments, with `..` only leading and only when not rooted. */
  ghost predicate NormalForm(rooted: bool, out: seq<string>) {
    && (forall i | 0 <= i < |out| :: IsSeg(out[i]))
    && (forall i | 0 <= i < |out| :: out[i] == ".." ==> !rooted && forall j | 0 <= j < i :: out[j] == "..")
  }

  // ---------------------------------------------------------------------------------------
  // Split and strings.Join

  lemma {:induction false} SplitNoSep(s: string, sep: char)
    requires NoSep(s, sep)
    ensures Split(s, sep) == [s]
  {
    if s != [] {
      SplitNoSep(s[1..], sep);
      assert [s[0]] + s[1..] == s;
    }
  }

  lemma {:induction false} SplitPiecesNoSep(s: string, sep: char)
    ensures forall i | 0 <= i < |Split(s, sep)| :: NoSep(Split(s, sep)[i], sep)
  {
    if s != [] {
      SplitPiecesNoSep(s[1..], sep);
      var rest := Split(s[1..], sep);
      if s[0] != sep {
        assert NoSep([s[0]] + rest[0], sep);
      }
    }
  }

  lemma SplitSmall()
    ensures Split("", '/') == [""]
    ensures Split(".", '/') == ["."]
    ensures Split("/", '/') == ["", ""]
  {
    assert "."[1..] == "" && "/"[1..] == "";
    assert Split(".", '/') == [['.'] + Split("", '/')[0]];
    assert ['.'] + "" == ".";
  }

  /** Splitting around an inserted separator splits each side on its own. */
  lemma {:induction false} SplitAppend(a: string, b: string, sep: char)
    ensures Split(a + [sep] + b, sep) == Split(a, sep) + Split(b, sep)
  {
    if a == [] {
      assert (a + [sep] + b)[1..] == b;
    } else {
      var x, t := a[0], a[1..];
      assert a == [x] + t;
      assert a + [sep] + b == [x] + (t + [sep] + b);
      SplitAppend(t, b, sep);
      SplitAppendCons(x, t, b, sep);
    }
  }

  lemma SplitAppendCons(x: char, t: string, b: string, sep: char)
    requires Split(t + [sep] + b, sep) == Split(t, sep) + Split(b, sep)
    ensures Split([x] + (t + [sep] + b), sep) == Split([x] + t, sep) + Split(b, sep)
  {
    SplitCons(x, t + [sep] + b, sep);
    SplitCons(x, t, sep);
    ConsPieces(x, sep, Split(t, sep), Split(b, sep));
  }

  /** Prepending a character to the first piece commutes with appending further pieces. */
  lemma ConsPieces(x: char, sep: char, rt: seq<string>, rb: seq<string>)
    requires |rt| >= 1
    ensures (if x == sep then [""] + (rt + rb) else [[x] + (rt + rb)[0]] + (rt + rb)[1..])
      == (if x == sep then [""] + rt else [[x] + rt[0]] + rt[1..]) + rb
  {
    assert (rt + rb)[0] == rt[0] && (rt + rb)[1..] == rt[1..] + rb;
  }

  lemma SplitCons(x: char, u: string, sep: char)
    ensures Split([x] + u, sep)
      == if x == sep then [""] + Split(u, sep) else [[x] + Split(u, sep)[0]] + Split(u, sep)[1..]
  {
    assert ([x] + u)[1..] == u;
  }

  lemma {:induction false} SplitJoinElems(es: seq<string>)
    requires |es| >= 1
    requires forall i | 0 <= i < |es| :: NoSlash(es[i])
    ensures Split(JoinElems(es), '/') == es
  {
    if |es| == 1 {
      SplitNoSep(es[0], '/');
    } else {
      var init := es[..|es| - 1];
      SplitJoinElems(init);
      SplitSnoc(JoinElems(init), init, es[|es| - 1]);
      assert init + [es[|es| - 1]] == es;
    }
  }

  lemma SplitSnoc(j: string, init: seq<string>, last: string)
    requires Split(j, '/') == init && NoSlash(last)
    ensures Split(j + "/" + last, '/') == init + [last]
  {
    assert j + "/" + last == j + ['/'] + last;
    SplitAppend(j, last, '/');
    SplitNoSep(last, '/');
  }

  lemma {:induction false} JoinElemsAppend(a: seq<string>, b: seq<string>)
    requires |a| >= 1 && |b| >= 1
    ensures JoinElems(a + b) == JoinElems(a) + "/" + JoinElems(b)
  {
    if |b| == 1 {
      assert (a + b)[..|a + b| - 1] == a;
    } else {
      var init := b[..|b| - 1];
      assert (a + b)[..|a + b| - 1] == a + init;
      JoinElemsAppend(a, init);
    }
  }

  // ---------------------------------------------------------------------------------------
  // The fold inside Clean

  lemma {:induction false} FoldAppend(rooted: bool, out: seq<string>, a: seq<string>, b: seq<string>)
    ensures Fold(rooted, out, a + b) == Fold(rooted, Fold(rooted, out, a), b)
    decreases a
  {
    if a == [] {
      assert a + b == b;
    } else {
      assert (a + b)[0] == a[0] && (a + b)[1..] == a[1..] + b;
      FoldAppend(rooted, Step(rooted, out, a[0]), a[1..], b);
    }
  }

  lemma StepNormal(rooted: bool, out: seq<string>, e: string)
    requires NormalForm(rooted, out) && NoSlash(e)
    ensures NormalForm(rooted, Step(rooted, out, e))
  {
    if e == ".." && !(|out| > 0 && out[|out| - 1] != "..") && !rooted {
      var r := out + [".."];
      forall i | 0 <= i < |r| && r[i] == ".."
        ensures forall j | 0 <= j < i :: r[j] == ".."
      {
        if i == |out| && |out| > 0 {
          assert out[|out| - 1] == "..";
        }
      }
    }
  }

  lemma {:induction false} FoldNormal(rooted: bool, out: seq<string>, es: seq<string>)
    requires NormalForm(rooted, out)
    requires forall i | 0 <= i < |es| :: NoSlash(es[i])
    ensures NormalForm(rooted, Fold(rooted, out, es))
    decreases es
  {
    if es != [] {
      StepNormal(rooted, out, es[0]);
      FoldNormal(rooted, Step(rooted, out, es[0]), es[1..]);
    }
  }

  /** The fold leaves what is already in normal form alone. */
  lemma {:induction false} FoldIdem(rooted: bool, acc: seq<string>, out: seq<string>)
    requires NormalForm(rooted, acc + out)
    ensures Fold(rooted, acc, out) == acc + out
    decreases out
  {
    if out != [] {
      var all := acc + out;
      assert all[|acc|] == out[0];
      if out[0] == ".." && |acc| > 0 {
        assert all[|acc| - 1] == acc[|acc| - 1];
      }
      assert Step(rooted, acc, out[0]) == acc + [out[0]];
      assert acc + [out[0]] + out[1..] == all;
      FoldIdem(rooted, acc + [out[0]], out[1..]);
    }
  }

  lemma NormIsNormal(p: string)
    ensures NormalForm(Rooted(p), Norm(p))
  {
    SplitPiecesNoSep(p, '/');
    FoldNormal(Rooted(p), [], Split(p, '/'));
  }

  /** A rendered normal form cleans back to the same segments and rootedness. */
  lemma NormRender(rooted: bool, out: seq<string>)
    requires NormalForm(rooted, out)
    ensures Norm(Render(rooted, out)) == out
    ensures Rooted(Render(rooted, out)) == rooted
  {
    SplitSmall();
    var j := JoinElems(out);
    if out == [] {
      if rooted {
        assert Render(rooted, out) == "/";
      }
    } else {
      SplitJoinElems(out);
      FoldIdem(rooted, [], out);
      if rooted {
        var s := "/" + j;
        assert s == "" + ['/'] + j;
        SplitAppend("", j, '/');
        assert Split(s, '/') == [""] + out;
        assert Fold(rooted, [], [""] + out) == Fold(rooted, [], out);
      } else {
        assert j != "";
        assert j[0] != '/';
      }
    }
  }

  lemma NormClean(p: string)
    ensures Norm(Clean(p)) == Norm(p)
    ensures Rooted(Clean(p)) == Rooted(p)
    ensures NormalForm(Rooted(p), Norm(p))
  {
    NormIsNormal(p);
    NormRender(Rooted(p), Norm(p));
  }

  /** path.Clean never returns the empty string: an empty result becomes ".". */
  lemma CleanNonEmpty(p: string)
    ensures Clean(p) != ""
  {
    NormIsNormal(p);
    var out := Norm(p);
    if |out| == 1 {
      assert IsSeg(out[0]);
    }
  }

  /** Clean is idempotent. */
  lemma CleanIdempotent(p: string)
    ensures Clean(Clean(p)) == Clean(p)
  {
    NormClean(p);
  }

  // ---------------------------------------------------------------------------------------
  // Join and Rel on walked paths

  /** Joining a plain name adds exactly one segment. */
  lemma JoinName(p: string, n: string)
    requires IsName(n)
    ensures Norm(Join(p, n)) == Norm(p) + [n]
    ensures Rooted(Join(p, n)) == Rooted(p)
    ensures Clean(Join(p, n)) == Join(p, n)
  {
    SplitNoSep(n, '/');
    if p != "" {
      var x := p + "/" + n;
      assert x == p + ['/'] + n;
      SplitAppend(p, n, '/');
      NormClean(x);
      CleanIdempotent(x);
      FoldAppend(Rooted(p), [], Split(p, '/'), [n]);
    } else {
      SplitSmall();
      assert Norm(p) == [];
      assert Fold(false, [], [n]) == [n];
      NormClean(n);
      CleanIdempotent(n);
    }
  }

  lemma {:induction false} JoinAllNorm(p: string, r: seq<string>)
    requires forall i | 0 <= i < |r| :: IsName(r[i])
    ensures Norm(JoinAll(p, r)) == Norm(p) + r
    ensures Rooted(JoinAll(p, r)) == Rooted(p)
    ensures r != [] ==> Clean(JoinAll(p, r)) == JoinAll(p, r)
  {
    if r != [] {
      var init, n := r[..|r| - 1], r[|r| - 1];
      assert forall i | 0 <= i < |init| :: init[i] == r[i];
      JoinAllNorm(p, init);
      JoinName(JoinAll(p, init), n);
      assert init + [n] == r;
      assert Norm(p) + init + [n] == Norm(p) + r;
    }
  }

  lemma SegsRender(rooted: bool, out: seq<string>)
    requires NormalForm(rooted, out)
    requires Render(rooted, out) != "."
    ensures Segs(Render(rooted, out)) == out
  {
    NormRender(rooted, out);
    var j := JoinElems(out);
    if out != [] {
      SplitJoinElems(out);
      if rooted {
        assert ("/" + j)[1..] == j;
        assert j != "";
      }
    }
  }

  lemma RelSegsExtension(n: seq<string>, r: seq<string>)
    requires r != []
    ensures RelSegs(n, n + r) == Some(JoinElems(r))
  {
    var k := CommonPrefix(n, n + r);
    assert k == |n|;
    assert (n + r)[|n|..] == r;
  }

  lemma NormalPrefix(rooted: bool, n: seq<string>, r: seq<string>)
    requires NormalForm(rooted, n + r)
    ensures NormalForm(rooted, n)
  {
    forall i | 0 <= i < |n|
      ensures IsSeg(n[i])
      ensures n[i] == ".." ==> !rooted && forall j | 0 <= j < i :: n[j] == ".."
    {
      assert n[i] == (n + r)[i];
      forall j | 0 <= j < i ensures n[j] == (n + r)[j] { }
    }
  }

  /** Rel between two rendered normal forms, the second extending the first. */
  lemma RelCleanedRender(rooted: bool, n: seq<string>, r: seq<string>)
    requires NormalForm(rooted, n + r) && r != []
    ensures RelCleaned(Render(rooted, n), Render(rooted, n + r)) == Some(JoinElems(r))
  {
    NormalPrefix(rooted, n, r);
    var base := Render(rooted, n);
    var targ := Render(rooted, n + r);
    NormRender(rooted, n);
    NormRender(rooted, n + r);
    assert targ != base by {
      assert |Norm(targ)| > |Norm(base)|;
    }
    SplitSmall();
    var b := if base == "." then "" else base;
    if base != "." {
      SegsRender(rooted, n);
    } else {
      assert n == [];
    }
    SegsRender(rooted, n + r);
    assert Segs(b) == n;
    assert Rooted(b) == rooted;
    RelSegsExtension(n, r);
  }

  /**
    Rel of a walked path against the walk root: "." for the root itself, and the joined
    names below it otherwise.
  */
  lemma RelJoinAll(root: string, r: seq<string>)
    requires forall i | 0 <= i < |r| :: IsName(r[i])
    ensures Rel(root, JoinAll(root, r)) == Some(if r == [] then "." else JoinElems(r))
  {
    if r != [] {
      NormClean(root);
      JoinAllNorm(root, r);
      var t := JoinAll(root, r);
      NormClean(t);
      assert Clean(t) == Render(Rooted(root), Norm(root) + r);
      RelCleanedRender(Rooted(root), Norm(root), r);
    }
  }

  lemma {:induction false} JoinElemsCons(a: string, r: seq<string>)
    requires |r| >= 1
    ensures JoinElems([a] + r) == a + "/" + JoinElems(r)
  {
    JoinElemsAppend([a], r);
  }

  /** Joining a plain base name with a relative path puts the path under that name. */
  lemma JoinUnderName(base: string, r: seq<string>)
    requires IsName(base)
    requires forall i | 0 <= i < |r| :: IsName(r[i])
    ensures Join(base, if r == [] then "." else JoinElems(r)) == JoinElems([base] + r)
  {
    if r == [] {
      JoinBaseDot(base);
    } else {
      JoinBaseElems(base, r);
    }
  }

  lemma NamesNormal(es: seq<string>)
    requires forall i | 0 <= i < |es| :: IsName(es[i])
    ensures NormalForm(false, es) && NormalForm(true, es)
  {
  }

  lemma JoinBaseDot(base: string)
    requires IsName(base)
    ensures Join(base, ".") == base
  {
    var x := base + "/" + ".";
    assert x == base + ['/'] + ".";
    SplitAppend(base, ".", '/');
    SplitNoSep(base, '/');
    SplitSmall();
    assert Split(x, '/') == [base, "."];
    assert [base, "."][1..] == ["."];
    assert Fold(false, [], [base, "."]) == Fold(false, [base], ["."]);
    assert Rooted(x) == false;
    assert JoinElems([base]) == base;
  }

  lemma JoinBaseElems(base: string, r: seq<string>)
    requires IsName(base) && r != []
    requires forall i | 0 <= i < |r| :: IsName(r[i])
    ensures Join(base, JoinElems(r)) == JoinElems([base] + r)
  {
    var x := base + "/" + JoinElems(r);
    NormJoinedNames(base, r);
    assert Clean(x) == Render(false, [base] + r);
    JoinElemsCons(base, r);
  }

  lemma NormJoinedNames(base: string, r: seq<string>)
    requires IsName(base) && r != []
    requires forall i | 0 <= i < |r| :: IsName(r[i])
    ensures Norm(base + "/" + JoinElems(r)) == [base] + r
    ensures !Rooted(base + "/" + JoinElems(r))
  {
    var x := base + "/" + JoinElems(r);
    SplitJoinedNames(base, r);
    assert x[0] == base[0];
    NamesFold(base, r);
  }

  /** Clean's scan leaves a list of plain names as it is. */
  lemma NamesFold(base: string, r: seq<string>)
    requires IsName(base)
    requires forall i | 0 <= i < |r| :: IsName(r[i])
    ensures Fold(false, [], [base] + r) == [base] + r
  {
    var all := [base] + r;
    forall i | 0 <= i < |all|
      ensures IsName(all[i])
    {
      if i > 0 {
        assert all[i] == r[i - 1];
      }
    }
    NamesNormal(all);
    FoldIdem(false, [], all);
    assert [] + all == all;
  }

  lemma SplitJoinedNames(base: string, r: seq<string>)
    requires IsName(base) && r != []
    requires forall i | 0 <= i < |r| :: NoSlash(r[i])
    ensures Split(base + "/" + JoinElems(r), '/') == [base] + r
  {
    var rel := JoinElems(r);
    assert base + "/" + rel == base + ['/'] + rel;
    SplitAppend(base, rel, '/');
    SplitNoSep(base, '/');
    SplitJoinElems(r);
  }


  // ---------------------------------------------------------------------------------------
  // Paths below a directory

  /** Path `k` names `d` or something below it, segment by segment. */
  predicate Inside(k: string, d: string) {
    Rooted(k) == Rooted(d) && |Norm(d)| <= |Norm(k)| && Norm(k)[..|Norm(d)|] == Norm(d)
  }

  /** Cleaning a path does not move it. */
  lemma InsideClean(p: string)
    ensures Inside(Clean(p), p)
  {
    NormClean(p);
  }

  /** What is below d/n is below d. */
  lemma InsideJoin(k: string, d: string, n: string)
    requires IsName(n)
    ensures Inside(k, Join(d, n)) ==> Inside(k, d)
  {
    JoinName(d, n);
    var m := |Norm(d)|;
    if |Norm(k)| > m {
      assert Norm(k)[..m] == Norm(k)[..m + 1][..m];
    }
  }

  /** Nothing is below two different names of one directory. */
  lemma InsideSiblings(k: string, d: string, a: string, b: string)
    requires IsName(a) && IsName(b)
    ensures a != b && Inside(k, Join(d, a)) ==> !Inside(k, Join(d, b))
  {
    JoinName(d, a);
    JoinName(d, b);
    var m := |Norm(d)|;
    if |Norm(k)| > m {
      assert Norm(k)[..m + 1][m] == Norm(k)[m];
    }
  }

  /** Joining names one at a time from the front or from the back gives the same path. */
  lemma {:induction false} JoinAllCons(p: string, a: string, t: seq<string>)
    ensures JoinAll(p, [a] + t) == JoinAll(Join(p, a), t)
    decreases |t|
  {
    if t == [] {
      assert JoinAll(p, [a]) == Join(JoinAll(p, []), a);
    } else {
      var init, last := t[..|t| - 1], t[|t| - 1];
      JoinAllCons(p, a, init);
      var u := [a] + t;
      assert u[..|u| - 1] == [a] + init && u[|u| - 1] == last;
      calc {
        JoinAll(p, u);
        Join(JoinAll(p, [a] + init), last);
        Join(JoinAll(Join(p, a), init), last);
        JoinAll(Join(p, a), t);
      }
    }
  }

  /** Joining a name never gives the empty path. */
  lemma JoinNameNonEmpty(p: string, n: string)
    requires IsName(n)
    ensures Join(p, n) != ""
  {
    JoinName(p, n);
    SplitSmall();
    assert Norm("") == [];
  }
}
