/**
  file.go: creating files with their parent directories, temporary files and their removal,
  line-by-line reading through a 4096-byte bufio.Reader, clearing a file, and the
  stat-based queries IsExist, FileSize and IsLink.
*/
module Files {
  import opened Wrappers
  import opened Paths
  import opened Fs
  import Stat
  import Dirs

  /** Permission bits filebox passes when it creates a file (0666) and os.CreateTemp's (0600). */
  const CreatePerm: nat := 438
  const TempPerm: nat := 384

  /** os.TempDir() on Unix, with $TMPDIR unset. */
  const TempDir: string := "/tmp"

  // ---------------------------------------------------------------------------------------
  // Queries

  /** IsExist: stat succeeds. */
  predicate IsExist(fs: FsMap, file: string) {
    Fs.Stat(fs, file).Ok?
  }

  /** FileSize: the size of a regular file, 0 for anything else or a failed stat. */
  function FileSize(fs: FsMap, file: string): nat {
    match Fs.Stat(fs, file)
    case Err(_) => 0
    case Ok(info) => if info.IsRegular() then info.size else 0
  }

  /** IsLink: Lstat succeeds and reports a symbolic link. */
  predicate IsLink(fs: FsMap, file: string) {
    match Lstat(fs, file)
    case Err(_) => false
    case Ok(info) => info.ftype == Symlink
  }

  /**
    This IsExist is what stat.go's IsExist is documented to be, and the opposite of what it
    computes for every path that exists.
  */
  lemma IsExistAgrees(fs: FsMap, file: string)
    ensures IsExist(fs, file) <==> Stat.IsExistIntended(fs, file)
    ensures IsExist(fs, file) ==> !Stat.IsExist(fs, file)
  {
  }

  /** FileSize is the byte count of the regular file the path resolves to, as stat.go's Size. */
  lemma FileSizeAgrees(fs: FsMap, file: string)
    ensures FileSize(fs, file) == Stat.Size(fs, file)
    ensures FileSize(fs, file) == (if Resolve(fs, file).Ok? && fs[Resolve(fs, file).value].FileNode?
                                   then |fs[Resolve(fs, file).value].data| else 0)
  {
    Stat.SizeIff(fs, file);
  }

  /** The two IsLink definitions agree, and hold exactly for a path whose node is a link. */
  lemma IsLinkAgrees(fs: FsMap, file: string)
    ensures IsLink(fs, file) <==> Stat.IsLink(fs, file)
    ensures IsLink(fs, file) <==> Lookup(fs, file).Some? && Lookup(fs, file).value.LinkNode?
  {
  }

  // ---------------------------------------------------------------------------------------
  // CreateFileMode

  /** What CreateFileMode does: MkdirAll the missing parent (unless it is "."), then open. */
  function CreateFileModeFs(fs: FsMap, file: string, mode: nat): Opened {
    var pre := CreateParent(fs, Paths.Dir(file));
    if pre.err.Some? then Opened(pre.fs, "", pre.err)
    else OpenFs(pre.fs, file, true, true, mode)
  }

  /** CreateFileMode(file, mode) */
  method CreateFileMode(fsys: FileSystem, file: string, mode: nat) returns (k: string, err: Option<Error>)
    modifies fsys
    ensures Opened(fsys.nodes, k, err) == CreateFileModeFs(old(fsys.nodes), file, mode)
  {
    var dir := Paths.Dir(file);
    if dir != "." && !IsExist(fsys.nodes, dir) {
      err := Dirs.MkdirAll(fsys, [dir]);
      if err.Some? {
        return "", err;
      }
    }
    k, err := fsys.OpenFile(file, true, true, mode);
  }

  /** CreateFile(file): CreateFileMode with 0666. */
  method CreateFile(fsys: FileSystem, file: string) returns (k: string, err: Option<Error>)
    modifies fsys
    ensures Opened(fsys.nodes, k, err) == CreateFileModeFs(old(fsys.nodes), file, CreatePerm)
  {
    k, err := CreateFileMode(fsys, file, CreatePerm);
  }

  /**
    Opening with O_CREATE|O_TRUNC: on success the path reads as an empty file, and a
    directory that was there stays one.
  */
  lemma OpenTruncFacts(fs: FsMap, file: string, mode: nat, d: string)
    requires OpenFs(fs, file, true, true, mode).err.None?
    ensures ReadFile(OpenFs(fs, file, true, true, mode).fs, file) == Ok([])
    ensures IsDirAt(fs, d) ==> IsDirAt(OpenFs(fs, file, true, true, mode).fs, d)
  {
    var fs' := OpenFs(fs, file, true, true, mode).fs;
    match Follow(fs, Clean(file), MaxHops)
    case Ok(k0) =>
      FileUpdateFollow(fs, k0, FileNode([], fs[k0].perm), Clean(file), MaxHops);
      FileUpdateFollow(fs, k0, FileNode([], fs[k0].perm), Clean(d), MaxHops);
    case Err(_) =>
      OpenCreated(fs, file, true, true, mode);
      if IsDirAt(fs, d) {
        GrowsKeepsDir(fs, fs', d);
      }
  }

  /** The parent-creation step of CreateFileMode: on success the parent is a directory. */
  function CreateParent(fs: FsMap, dir: string): (o: Outcome)
    ensures dir != "." && !IsExist(fs, dir) && o.err.None? ==> IsDirAt(o.fs, dir)
  {
    if dir != "." && !IsExist(fs, dir) then
      Dirs.MkdirAllEachFacts(fs, [dir]);
      Dirs.MkdirAllEach(fs, [dir])
    else Outcome(fs, None)
  }

  /**
    CreateFileMode: on success the file exists and is empty, and when its parent was missing
    it has been made a directory.
  */
  lemma CreateFileModeFacts(fs: FsMap, file: string, mode: nat)
    ensures var r := CreateFileModeFs(fs, file, mode);
      r.err.None? ==> ReadFile(r.fs, file) == Ok([]) && IsExist(r.fs, file)
    ensures var r := CreateFileModeFs(fs, file, mode);
      r.err.None? && Paths.Dir(file) != "." && !IsExist(fs, Paths.Dir(file)) ==> IsDirAt(r.fs, Paths.Dir(file))
  {
    var dir := Paths.Dir(file);
    var pre := CreateParent(fs, dir);
    var r := CreateFileModeFs(fs, file, mode);
    if pre.err.None? {
      assert r == OpenFs(pre.fs, file, true, true, mode);
      if r.err.None? {
        OpenTruncFacts(pre.fs, file, mode, dir);
        assert Resolve(r.fs, file).Ok?;
      }
    }
  }

  // ---------------------------------------------------------------------------------------
  // CreateTempFile

  /** os.CreateTemp's pattern split: the text before and after the last '*'. */
  function PrefixAndSuffix(pattern: string): Result<(string, string), Error> {
    if !NoSlash(pattern) then Err(PatternHasSeparator)
    else
      var i := LastStar(pattern);
      if i >= 0 then Ok((pattern[..i], pattern[i + 1..])) else Ok((pattern, ""))
  }

  function LastStar(s: string): (i: int)
    ensures -1 <= i < |s|
    ensures i >= 0 ==> s[i] == '*'
    ensures forall j | i < j < |s| :: s[j] != '*'
  {
    if s == [] then -1
    else if s[|s| - 1] == '*' then |s| - 1
    else LastStar(s[..|s| - 1])
  }

  /** os.CreateTemp's joinPath. */
  function JoinPath(dir: string, name: string): string {
    if |dir| > 0 && dir[|dir| - 1] == '/' then dir + name else dir + "/" + name
  }

  /** The name os.CreateTemp tries, given the random text it draws. */
  function TempName(dir: string, pattern: string, random: string): Result<string, Error> {
    var (prefix, suffix) :- PrefixAndSuffix(pattern);
    var d := if dir == "" then TempDir else dir;
    Ok(JoinPath(d, prefix) + random + suffix)
  }

  /** A temporary file: its name, and the error of creating it. */
  datatype Temp = Temp(fs: FsMap, name: string, err: Option<Error>)

  function CreateTempFs(fs: FsMap, dir: string, pattern: string, random: string): Temp {
    match TempName(dir, pattern, random)
    case Err(e) => Temp(fs, "", Some(e))
    case Ok(name) =>
      match CreateNewFs(fs, name, TempPerm)
      case Ok(f) => Temp(f, name, None)
      case Err(e) => Temp(fs, "", Some(e))
  }

  /** CreateTempFile: the file, and the state its rm closure captures (the name and the error). */
  method CreateTempFile(fsys: FileSystem, dir: string, pattern: string, random: string)
    returns (name: string, err: Option<Error>)
    modifies fsys
    ensures Temp(fsys.nodes, name, err) == CreateTempFs(old(fsys.nodes), dir, pattern, random)
  {
    var t := TempName(dir, pattern, random);
    if t.Err? {
      return "", Some(t.error);
    }
    err := fsys.CreateNew(t.value, TempPerm);
    name := if err.None? then t.value else "";
  }

  /** The rm closure: remove the file when it was created, else report why it was not. */
  function RmFs(fs: FsMap, name: string, createErr: Option<Error>): Outcome {
    if createErr.None? then Commit(fs, RemoveFs(fs, name)) else Outcome(fs, createErr)
  }

  method Rm(fsys: FileSystem, name: string, createErr: Option<Error>) returns (err: Option<Error>)
    modifies fsys
    ensures Outcome(fsys.nodes, err) == RmFs(old(fsys.nodes), name, createErr)
  {
    if createErr.None? {
      err := fsys.Remove(name);
    } else {
      err := createErr;
    }
  }

  /**
    rm undoes CreateTempFile: after a successful creation it removes the file and the tree is
    as before; after a failed one it changes nothing and returns the creation error.
  */
  lemma TempRoundTrip(fs: FsMap, dir: string, pattern: string, random: string)
    requires TempName(dir, pattern, random).Ok?
    requires var n := TempName(dir, pattern, random).value;
      HasName(n) && ParentKey(n) in fs && fs[ParentKey(n)].DirNode? ==> LastName(n) !in fs[ParentKey(n)].names
    ensures var t := CreateTempFs(fs, dir, pattern, random);
      RmFs(t.fs, t.name, t.err) == (if t.err.None? then Outcome(fs, None) else Outcome(fs, t.err))
  {
    var n := TempName(dir, pattern, random).value;
    if CreateNewFs(fs, n, TempPerm).Ok? {
      CreateThenRemove(fs, n, FileNode([], TempPerm));
    }
  }

  // ---------------------------------------------------------------------------------------
  // Reading lines

  /** bufio's default buffer size. */
  const BufSize: nat := 4096
  const LF: byte := 10
  const CR: byte := 13

  function IndexOf(s: seq<byte>, b: byte): (i: int)
    ensures -1 <= i < |s|
    ensures i >= 0 ==> s[i] == b && b !in s[..i]
    ensures i == -1 ==> b !in s
  {
    if s == [] then -1
    else if s[0] == b then 0
    else
      var j := IndexOf(s[1..], b);
      assert s == [s[0]] + s[1..];
      if j == -1 then -1
      else
        assert s[..j + 1] == [s[0]] + s[1..][..j];
        j + 1
  }

  /** One result of bufio.Reader.ReadLine: the bytes, isPrefix, and how many bytes it consumed. */
  datatype Fragment = Fragment(line: seq<byte>, prefix: bool, used: nat)

  /**
    bufio.Reader.ReadLine over the bytes not yet consumed, with a 4096-byte buffer; None at
    the end of the data. A line is cut at the first '\n' within the buffer, without its
    "\r\n" or "\n"; a full buffer with no '\n' is a prefix fragment, holding back a final
    '\r' for the next call; the last bytes before the end are a line of their own.
  */
  function ReadLine(rest: seq<byte>): (r: Option<Fragment>)
    ensures r.None? <==> rest == []
    ensures r.Some? ==> 0 < r.value.used <= |rest|
  {
    if rest == [] then None
    else
      var w := if |rest| < BufSize then |rest| else BufSize;
      var i := IndexOf(rest[..w], LF);
      if i >= 0 then
        var line := if i >= 1 && rest[i - 1] == CR then rest[..i - 1] else rest[..i];
        Some(Fragment(line, false, i + 1))
      else if |rest| >= BufSize then
        if rest[BufSize - 1] == CR then Some(Fragment(rest[..BufSize - 1], true, BufSize - 1))
        else Some(Fragment(rest[..BufSize], true, BufSize))
      else Some(Fragment(rest, false, |rest|))
  }

  /**
    The state the next-line closure of ReadFileLine works on: the bytes bufio has not handed
    out, the error reading ends with (None for io.EOF), the line buffer, and whether the
    file has been closed.
  */
  datatype ReaderState = ReaderState(rest: seq<byte>, end: Option<Error>, bufline: seq<byte>, closed: bool)

  /** One call of the closure: the bytes, the error, and the state after. */
  datatype NextResult = NextResult(line: seq<byte>, err: Option<Error>, state: ReaderState)

  function NextLine(s: ReaderState): (r: NextResult)
    ensures r.err.None? ==> |r.state.rest| < |s.rest| && r.state.bufline == [] && !r.state.closed
    ensures r.err.Some? ==> r.state.closed
    ensures r.state.end == s.end
    decreases |s.rest|
  {
    if s.closed then NextResult(s.bufline, Some(FileClosed), s)
    else match ReadLine(s.rest)
      case None =>
        NextResult(s.bufline, Some(if s.end.None? then EndOfFile else s.end.value), s.(closed := true))
      case Some(f) =>
        var b := s.bufline + f.line;
        if f.prefix then NextLine(s.(rest := s.rest[f.used..], bufline := b))
        else NextResult(b, None, s.(rest := s.rest[f.used..], bufline := []))
  }

  /** The reader ReadFileLine hands its closure. */
  class LineReader {
    var rest: seq<byte>
    var end: Option<Error>
    var bufline: seq<byte>
    var closed: bool

    function State(): ReaderState
      reads this
    {
      ReaderState(rest, end, bufline, closed)
    }

    constructor (content: seq<byte>, readEnd: Option<Error>)
      ensures State() == ReaderState(content, readEnd, [], false)
    {
      rest, end, bufline, closed := content, readEnd, [], false;
    }

    /** The closure: read fragments into bufline until one ends a line; reset after. */
    method Next() returns (line: seq<byte>, err: Option<Error>)
      modifies this
      ensures NextResult(line, err, State()) == NextLine(old(State()))
    {
      if closed {
        return bufline, Some(FileClosed);
      }
      while true
        invariant !closed
        invariant NextLine(State()) == NextLine(old(State()))
        decreases |rest|
      {
        var r := ReadLine(rest);
        if r.None? {
          closed := true;
          return bufline, Some(if end.None? then EndOfFile else end.value);
        }
        bufline, rest := bufline + r.value.line, rest[r.value.used..];
        if !r.value.prefix {
          line := bufline;
          bufline := [];
          return line, None;
        }
      }
    }
  }

  /** What reading a file opened for reading gives: its bytes, or the read error. */
  function OpenedContent(fs: FsMap, file: string, k: string): ReaderState {
    match ReadAt(fs, file, k)
    case Ok(data) => ReaderState(data, None, [], false)
    case Err(e) => ReaderState([], Some(e), [], false)
  }

  /** ReadFileLine: open the file for reading and hand back its line reader. */
  method ReadFileLine(fs: FsMap, file: string) returns (reader: LineReader?, err: Option<Error>)
    ensures OpenRead(fs, file).Err? ==> reader == null && err == Some(OpenRead(fs, file).error)
    ensures OpenRead(fs, file).Ok? ==>
      && err.None? && reader != null && fresh(reader)
      && reader.State() == OpenedContent(fs, file, OpenRead(fs, file).value)
  {
    match OpenRead(fs, file)
    case Err(e) =>
      return null, Some(e);
    case Ok(k) =>
      var s := OpenedContent(fs, file, k);
      reader := new LineReader(s.rest, s.end);
      err := None;
  }

  /** The lines ReadFileLines collects from a reader state: EOF is success, as written. */
  function LinesFrom(s: ReaderState, acc: seq<seq<byte>>): (seq<seq<byte>>, Option<Error>)
    decreases |s.rest|, if s.closed then 0 else 1
  {
    var r := NextLine(s);
    if r.err.Some? then (acc, if r.err.value == EndOfFile then None else r.err)
    else LinesFrom(r.state, acc + [r.line])
  }

  function ReadFileLinesFs(fs: FsMap, file: string): (seq<seq<byte>>, Option<Error>) {
    match OpenRead(fs, file)
    case Err(e) => ([], Some(e))
    case Ok(k) => LinesFrom(OpenedContent(fs, file, k), [])
  }

  /** ReadFileLines */
  method ReadFileLines(fs: FsMap, file: string) returns (lines: seq<seq<byte>>, err: Option<Error>)
    ensures (lines, err) == ReadFileLinesFs(fs, file)
  {
    var reader: LineReader?;
    reader, err := ReadFileLine(fs, file);
    if err.Some? {
      return [], err;
    }
    lines := [];
    while true
      invariant fresh(reader)
      invariant LinesFrom(reader.State(), lines) == ReadFileLinesFs(fs, file)
      decreases |reader.rest|, if reader.closed then 0 else 1
    {
      var line, e := reader.Next();
      if e.Some? {
        if e.value == EndOfFile {
          e := None;
        }
        return lines, e;
      }
      lines := lines + [line];
    }
  }

  /**
    What ReadFileLines is meant to return: at the end of the file, bytes still gathered in
    the line buffer are the last line.
  */
  function LinesIntended(s: ReaderState, acc: seq<seq<byte>>): (seq<seq<byte>>, Option<Error>)
    decreases |s.rest|, if s.closed then 0 else 1
  {
    var r := NextLine(s);
    if r.err.Some? then
      if r.err.value == EndOfFile then (if r.line != [] then acc + [r.line] else acc, None)
      else (acc, r.err)
    else LinesIntended(r.state, acc + [r.line])
  }

  /** The bytes of a file other than its newlines. */
  function Strip(s: seq<byte>): seq<byte> {
    if s == [] then [] else (if s[0] == LF then [] else [s[0]]) + Strip(s[1..])
  }

  function Concat(ls: seq<seq<byte>>): seq<byte> {
    if ls == [] then [] else Concat(ls[..|ls| - 1]) + ls[|ls| - 1]
  }

  lemma {:induction false} StripAppend(a: seq<byte>, b: seq<byte>)
    ensures Strip(a + b) == Strip(a) + Strip(b)
  {
    if a == [] {
      assert a + b == b;
    } else {
      assert (a + b)[0] == a[0] && (a + b)[1..] == a[1..] + b;
      StripAppend(a[1..], b);
    }
  }

  lemma {:induction false} StripNoLF(a: seq<byte>)
    requires LF !in a
    ensures Strip(a) == a
  {
    if a != [] {
      StripNoLF(a[1..]);
    }
  }

  /** A fragment cut at a newline. */
  lemma StripAtNewline(rest: seq<byte>, i: nat)
    requires i < |rest| && rest[i] == LF && LF !in rest[..i]
    ensures rest[..i] + Strip(rest[i + 1..]) == Strip(rest)
  {
    assert rest == rest[..i] + [LF] + rest[i + 1..];
    StripAppend(rest[..i] + [LF], rest[i + 1..]);
    StripAppend(rest[..i], [LF]);
    StripNoLF(rest[..i]);
    assert Strip([LF]) == [];
  }

  /** A fragment cut without a newline. */
  lemma StripNoNewline(rest: seq<byte>, n: nat)
    requires n <= |rest| && LF !in rest[..n]
    ensures rest[..n] + Strip(rest[n..]) == Strip(rest)
  {
    StripNoLFPrefix(rest[..n], rest[n..]);
    assert rest[..n] + rest[n..] == rest;
  }

  lemma StripNoLFPrefix(a: seq<byte>, b: seq<byte>)
    requires LF !in a
    ensures a + Strip(b) == Strip(a + b)
  {
    StripAppend(a, b);
    StripNoLF(a);
  }

  /** Every fragment of a file without '\r' is its next bytes, up to a dropped newline. */
  lemma ReadLineStrips(rest: seq<byte>)
    requires CR !in rest && rest != []
    ensures var f := ReadLine(rest).value; f.line + Strip(rest[f.used..]) == Strip(rest)
  {
    var w := if |rest| < BufSize then |rest| else BufSize;
    var i := IndexOf(rest[..w], LF);
    if i >= 0 {
      assert rest[..w][..i] == rest[..i];
      assert i >= 1 ==> rest[i - 1] != CR by {
        if i >= 1 {
          assert rest[i - 1] in rest;
        }
      }
      assert ReadLine(rest) == Some(Fragment(rest[..i], false, i + 1));
      StripAtNewline(rest, i);
    } else if |rest| >= BufSize {
      assert rest[BufSize - 1] in rest;
      assert ReadLine(rest) == Some(Fragment(rest[..BufSize], true, BufSize));
      StripNoNewline(rest, BufSize);
    } else {
      assert rest[..w] == rest;
      assert ReadLine(rest) == Some(Fragment(rest, false, |rest|));
      StripNoNewline(rest, |rest|);
    }
  }

  /** One call of the closure on a file without '\r', ending in EOF. */
  lemma {:induction false} NextLineStrips(s: ReaderState)
    requires CR !in s.rest && s.end.None? && !s.closed
    ensures var r := NextLine(s);
      && r.line + Strip(r.state.rest) == s.bufline + Strip(s.rest)
      && CR !in r.state.rest
      && (r.err.Some? ==> r.err == Some(EndOfFile) && r.state.rest == [])
    decreases |s.rest|
  {
    match ReadLine(s.rest)
    case None =>
    case Some(f) =>
      ReadLineStrips(s.rest);
      assert forall x | x in s.rest[f.used..] :: x in s.rest;
      if f.prefix {
        NextLineStrips(s.(rest := s.rest[f.used..], bufline := s.bufline + f.line));
      }
  }

  /**
    The intended ReadFileLines loses nothing: for a file without '\r', its lines hold every
    byte of the file but the newlines, in order.
  */
  lemma {:induction false} LinesIntendedKeepAll(s: ReaderState, acc: seq<seq<byte>>)
    requires CR !in s.rest && s.end.None? && !s.closed && s.bufline == []
    ensures LinesIntended(s, acc).1.None?
    ensures Concat(LinesIntended(s, acc).0) == Concat(acc) + Strip(s.rest)
    decreases |s.rest|
  {
    var r := NextLine(s);
    NextLineStrips(s);
    if r.err.Some? {
      LastLineKept(acc, r.line, Strip(r.state.rest), Strip(s.rest));
    } else {
      LinesIntendedKeepAll(r.state, acc + [r.line]);
      LineKept(acc, r.line, Strip(r.state.rest), Strip(s.rest));
    }
  }

  /** Appending a line that, with the bytes still unread, makes up all that was unread. */
  lemma LineKept(acc: seq<seq<byte>>, line: seq<byte>, after: seq<byte>, before: seq<byte>)
    requires line + after == [] + before
    ensures Concat(acc + [line]) + after == Concat(acc) + before
  {
    assert (acc + [line])[..|acc|] == acc;
    assert [] + before == before;
  }

  /** The final line, kept only when non-empty, is all that was unread. */
  lemma LastLineKept(acc: seq<seq<byte>>, line: seq<byte>, after: seq<byte>, before: seq<byte>)
    requires line + after == [] + before && after == []
    ensures Concat(if line != [] then acc + [line] else acc) == Concat(acc) + before
  {
    assert (acc + [line])[..|acc|] == acc;
    assert [] + before == before && line + [] == line;
    assert Concat(acc) + [] == Concat(acc);
  }

  /**
    As written, a file whose last line has no newline and fills the 4096-byte buffer exactly
    loses that line: 4096 bytes of 'a' read as no lines at all.
  */
  lemma LinesDropLastFullBuffer()
    ensures var content := seq(BufSize, _ => 97 as byte);
      && LinesFrom(ReaderState(content, None, [], false), []) == ([], None)
      && LinesIntended(ReaderState(content, None, [], false), []) == ([content], None)
  {
    var content := seq(BufSize, _ => 97 as byte);
    assert content[..BufSize] == content;
    assert LF !in content;
    assert ReadLine(content) == Some(Fragment(content, true, BufSize));
    var s := ReaderState(content, None, [], false);
    assert NextLine(s) == NextLine(ReaderState([], None, content, false));
    assert NextLine(s) == NextResult(content, Some(EndOfFile), ReaderState([], None, content, true));
    assert [] + [content] == [content];
  }

  // ---------------------------------------------------------------------------------------
  // ClearFile

  function ClearFileFs(fs: FsMap, path: string): Outcome {
    if Stat.IsDir(fs, path) then Outcome(fs, Some(NotSingleFile))
    else
      var o := OpenFs(fs, path, false, true, CreatePerm);
      if o.err.Some? then Outcome(fs, o.err) else Commit(o.fs, TruncateFs(o.fs, o.key))
  }

  /** ClearFile */
  method ClearFile(fsys: FileSystem, path: string) returns (err: Option<Error>)
    modifies fsys
    ensures Outcome(fsys.nodes, err) == ClearFileFs(old(fsys.nodes), path)
  {
    if Stat.IsDir(fsys.nodes, path) {
      return Some(NotSingleFile);
    }
    var k;
    k, err := fsys.OpenFile(path, false, true, CreatePerm);
    if err.Some? {
      return;
    }
    err := fsys.Truncate(k);
  }

  /**
    ClearFile refuses a directory and changes nothing; a missing path is an error and is not
    created; otherwise the file it names ends up empty.
  */
  lemma ClearFileFacts(fs: FsMap, path: string)
    ensures IsDirAt(fs, path) ==> ClearFileFs(fs, path) == Outcome(fs, Some(NotSingleFile))
    ensures Fs.Stat(fs, path).Err? ==> ClearFileFs(fs, path).fs == fs && ClearFileFs(fs, path).err.Some?
    ensures ClearFileFs(fs, path).err.None? ==> ReadFile(ClearFileFs(fs, path).fs, path) == Ok([])
  {
    Stat.IsDirIff(fs, path);
    if !Stat.IsDir(fs, path) {
      var o := OpenFs(fs, path, false, true, CreatePerm);
      if o.err.Some? {
        assert ClearFileFs(fs, path) == Outcome(fs, o.err);
      } else {
        TruncateOpened(fs, path);
        assert ClearFileFs(fs, path) == Outcome(TruncateFs(o.fs, o.key).value, None);
      }
    }
  }

  /** Opening an existing file with truncation, then truncating it, leaves it empty. */
  lemma TruncateOpened(fs: FsMap, path: string)
    requires OpenFs(fs, path, false, true, CreatePerm).err.None?
    ensures Fs.Stat(fs, path).Ok?
    ensures var o := OpenFs(fs, path, false, true, CreatePerm);
      TruncateFs(o.fs, o.key).Ok? && ReadFile(TruncateFs(o.fs, o.key).value, path) == Ok([])
  {
    var k := Follow(fs, Clean(path), MaxHops).value;
    var fs1 := fs[k := FileNode([], fs[k].perm)];
    FileUpdateFollow(fs, k, FileNode([], fs[k].perm), Clean(path), MaxHops);
    FileUpdateFollow(fs1, k, FileNode([], fs1[k].perm), Clean(path), MaxHops);
    assert OpenFs(fs, path, false, true, CreatePerm) == Opened(fs1, k, None);
    assert fs1[k := FileNode([], fs1[k].perm)] == fs1;
    assert OpenRead(fs1, path) == Ok(k);
  }
}
