/**
  Archive entries as the standard library's archive/tar and archive/zip writers record
  them: the header each FileInfoHeader builds from an os.FileInfo, and what the writer
  does with the bytes copied in after that header. The container bytes (ustar blocks,
  ZIP local and central headers, Deflate, gzip members) are not modelled: an archive is
  the sequence of its entries.
*/
module Archive {
  import opened Wrappers
  import opened Paths
  import opened Fs

  // ---------------------------------------------------------------------------------------
  // archive/tar

  datatype TypeFlag = TypeReg | TypeDir | TypeSymlink | TypeOther

  datatype TarHeader = TarHeader(name: string, typeflag: TypeFlag, mode: nat, size: nat, linkname: string)

  datatype TarEntry = TarEntry(header: TarHeader, content: seq<byte>)

  /** What tar.Reader.Next hands out: the entries, then io.EOF (None) or another error. */
  datatype TarStream = TarStream(entries: seq<TarEntry>, end: Option<Error>)

  /**
    tar.FileInfoHeader(info, link): the base name (with "/" added for a directory), the
    permission bits, the size of a regular file, and `link` for a symbolic link only.
  */
  function TarHeaderOf(info: FileInfo, link: string): (r: Result<TarHeader, Error>)
    ensures r.Err? <==> info.ftype == SocketFile
    ensures r.Ok? ==> r.value.mode == info.perm
    ensures r.Ok? ==> (r.value.typeflag == TypeSymlink <==> info.ftype == Symlink)
    ensures r.Ok? && r.value.linkname != "" ==> info.ftype == Symlink
  {
    match info.ftype
    case Regular => Ok(TarHeader(info.name, TypeReg, info.perm, info.size, ""))
    case Directory => Ok(TarHeader(info.name + "/", TypeDir, info.perm, 0, ""))
    case Symlink => Ok(TarHeader(info.name, TypeSymlink, info.perm, 0, link))
    case SocketFile => Err(SocketNotSupported)
  }

  /**
    How many content bytes tar.Writer accepts after this header: the declared size for a
    regular file, none for the header-only directory and symbolic-link entries.
  */
  function Capacity(h: TarHeader): nat {
    if h.typeflag == TypeReg then h.size else 0
  }

  /**
    tar.Writer.WriteHeader followed by copying `data` in: more bytes than the header
    declares is archive/tar's "write too long".
  */
  function TarWrite(h: TarHeader, data: seq<byte>): (r: Result<TarEntry, Error>)
    ensures r.Ok? <==> |data| <= Capacity(h)
    ensures r.Err? ==> r.error == WriteTooLong
    ensures r.Ok? ==> r.value.header == h && r.value.content == data
  {
    if |data| > Capacity(h) then Err(WriteTooLong) else Ok(TarEntry(h, data))
  }

  // ---------------------------------------------------------------------------------------
  // archive/zip

  datatype Method = Store | Deflate

  /** A zip.FileHeader: the name, the mode stored with it, and the compression method. */
  datatype ZipHeader = ZipHeader(name: string, ftype: FileType, perm: nat, compression: Method)

  datatype ZipEntry = ZipEntry(header: ZipHeader, content: seq<byte>)

  predicate EndsWithSlash(name: string) {
    |name| > 0 && name[|name| - 1] == '/'
  }

  /** Joined names end in the last name, so they never name a directory entry. */
  lemma JoinElemsLast(r: seq<Name>)
    requires r != []
    ensures !EndsWithSlash(JoinElems(r))
  {
    var last := r[|r| - 1];
    assert last[|last| - 1] != '/';
    if |r| > 1 {
      var j := JoinElems(r);
      assert j == JoinElems(r[..|r| - 1]) + "/" + last;
      assert j[|j| - 1] == last[|last| - 1];
    }
  }

  /** zip.FileInfoHeader(info): the base name and the mode; the compression method is left at Store. */
  function ZipHeaderOf(info: FileInfo): ZipHeader {
    ZipHeader(info.name, info.ftype, info.perm, Store)
  }

  /**
    zip.Writer.Create(name): a Deflate header with no Unix mode, which a reader reports
    as 0o666 (438).
  */
  function ZipCreate(name: string): ZipHeader {
    ZipHeader(name, Regular, 438, Deflate)
  }

  /**
    zip.Writer.CreateHeader(h) followed by copying `data` in. A name ending in "/" is a
    directory entry: it is stored uncompressed and any content is "write to directory".
  */
  function ZipWrite(h: ZipHeader, data: seq<byte>): (r: Result<ZipEntry, Error>)
    ensures r.Err? <==> EndsWithSlash(h.name) && data != []
    ensures r.Err? ==> r.error == WriteToDirectory
    ensures r.Ok? ==> r.value.header.name == h.name && r.value.content == data
    ensures r.Ok? && EndsWithSlash(h.name) ==> r.value.header.compression == Store
  {
    if EndsWithSlash(h.name) then
      if data == [] then Ok(ZipEntry(h.(compression := Store), [])) else Err(WriteToDirectory)
    else Ok(ZipEntry(h, data))
  }

  /** FileHeader.Mode()'s type as a reader reports it: a name ending in "/" is a directory. */
  function EntryType(h: ZipHeader): FileType {
    if EndsWithSlash(h.name) then Directory else h.ftype
  }

  // ---------------------------------------------------------------------------------------

  /** What an archiving call leaves behind: the tree, the entries written, and the error. */
  datatype Archived<T> = Archived(fs: FsMap, entries: seq<T>, err: Option<Error>)
}
