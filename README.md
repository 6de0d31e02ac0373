# filebox archive core, modelled in Dafny

This project models the file, directory, copy and archive helpers of the Go package
`filebox` (github.com/dstgo/filebox) and proves properties of the model. The helpers
are Mkdir/MkdirAll, the file and stat helpers, CopyDir/CopyFile, tar.gz and zip creation
and extraction, and appending to an existing archive.

The operating system is an in-memory filesystem. `Fs.FsMap` is a map from cleaned paths
to nodes: a directory with its sorted listing, a file with its bytes and permission bits,
a symbolic link with its target, or a socket. `Fs.FileSystem` is a class whose single
field `nodes` the OS calls reassign. Each Go helper that changes the filesystem step by
step (the loops of dir.go, copy.go, file.go and the extraction loops) is a `method` on
that class. The method is proved against a pure function of the old state:
`ensures Outcome(fsys.nodes, err) == MkdirEach(old(fsys.nodes), dirs)`. Lemmas then state
what the function promises.

Modules, one per source file, plus the shared layers:

- `Wrappers`: Option and Result.
- `Paths`: Go's path.Clean, path.Join, path.Base, path.Dir and filepath.Rel on
  `/`-separated strings, with Clean's normal form proved.
- `Fs`: nodes, errors (`PathError(path, errno)` and the package errors used), Lstat/Stat
  with symlink resolution bounded by 40 hops (the Linux limit), open/read/write/truncate/remove, and the
  `FileSystem` class.
- `Walking`: filepath.Walk as a pre-order list of events, each carrying the Lstat result,
  and the callback fold that stops at the first error.
- `Archive`: tar and zip headers, and entries as (header, bytes). The container and
  compression byte formats are not modelled.
- `Stat` (stat.go), `Files` (file.go), `Dirs` (dir.go), `Copy` (copy.go).
- `Compress` (compress.go): tarCompress, unTarCompress, zipCompress, zipUnCompress,
  unzipFile and processPath.
- `ZipApi` (zip.go): RelZipWalker, ZipWith, AppendToZipWith, Unzip.
- `TgzApi` (tgz.go): DefaultWalker, DefaultTgz, tgzWalk, TarGzipLevelWith, UnTarGzip,
  AppendToTarGzipLevelWith.

compress.go and tgz.go/zip.go declare the same exported names: TarGzip, UnTarGzip and Zip.
Both generations are kept, each modelled as written, in separate modules. Likewise file.go
(lines 87 and 128) and stat.go (lines 82 and 90) both declare IsExist and IsLink; each is
modelled in its own module (`Files`, `Stat`). CreateFileMode's parent test (file.go:59)
uses file.go's IsExist, which holds when os.Stat succeeds: with stat.go's inverted IsExist
a missing parent would never be made. Creating an
archive returns the entries it writes, in order. Extracting takes the entry stream that
the tar or zip reader decodes, together with the reader's final error.

## Model

| member | source | states |
|---|---|---|
| Stat.ErrorInfoAnswers | stat.go:14-32 | errorFileInfo answers name "", size 0, mode 0 (a regular file, no permission bits), not a directory |
| Stat.ErrFromStatIsStatError | stat.go:66-71 | ErrFromStat(Stat(name)) is exactly os.Stat's error, and a successful Stat gives the os.Stat FileInfo |
| Stat.IsDirIff | stat.go:74-76 | IsDir holds iff the path resolves to a directory; a failed Stat is never a directory |
| Stat.IsExistIff | stat.go:82-84 | IsExist as written holds iff os.Stat fails with a not-exist error |
| Stat.IsExistFalseWhenPresent | stat.go:82-84 | on a path that exists, IsExist as written is false while the intended IsExist is true |
| Stat.IsExistIntendedIff | stat.go:82-84 | the corrected IsExist holds iff os.Stat succeeds, and is false on a not-exist error |
| Stat.IsLinkIff | stat.go:90-92 | IsLink holds iff Lstat finds a symbolic link at the path |
| Stat.IsRegularOnMissing | stat.go:109-111 | on a path whose Stat fails, IsRegular as written is true (errorFileInfo's mode 0 is regular), the corrected one false |
| Stat.IsRegularIntendedIff | stat.go:109-111 | the corrected IsRegular holds iff the path resolves to a regular file |
| Stat.SizeIff | stat.go:98-103 | Size is the byte length of the resolved regular file, and 0 otherwise (a missing path included) |
| Files.IsExistAgrees | file.go:87-95 | file.go's IsExist holds iff os.Stat succeeds (the corrected stat.go IsExist), and then stat.go's IsExist is false |
| Files.FileSizeAgrees | file.go:101-110 | FileSize equals stat.go's Size: the regular file's length, else 0 |
| Files.IsLinkAgrees | file.go:128-138 | file.go's IsLink agrees with stat.go's, and holds iff Lstat finds a link |
| Files.CreateParent | file.go:56-62 | when the parent is not "." and does not exist, a successful MkdirAll leaves it a directory |
| Files.CreateFileModeFacts | file.go:55-64 | after success the file reads back empty (O_TRUNC) and exists; a missing parent has been made a directory |
| Files.CreateFileMode | file.go:55-64 | the method's new state and result are CreateFileModeFs of the old state |
| Files.CreateFile | file.go:45-47 | CreateFileMode with mode 0666 |
| Files.OpenTruncFacts | file.go:63 | opening with WriteFlag empties the file and keeps every directory |
| Files.CreateTempFile | file.go:72-81 | the method's new state, name and error are CreateTempFs of the old state |
| Files.Rm | file.go:74-79 | the rm closure: it removes the file when creation succeeded, else it returns the creation error and changes nothing |
| Files.TempRoundTrip | file.go:72-81 | creating a temp file and then calling rm gives back the original filesystem, with the creation error if any |
| Files.ReadLine | file.go:184 | bufio's ReadLine fragment: none exactly at end of input, otherwise it consumes between 1 and all remaining bytes |
| Files.NextLine | file.go:180-201 | a successful call consumes input and resets the line buffer; an error closes the reader |
| Files.LineReader.Next | file.go:180-201 | the closure as a method: its result and new reader state are NextLine of the old state |
| Files.ReadFileLine | file.go:170-202 | an open error gives no reader and that error; otherwise a fresh reader over the file's bytes with an empty buffer |
| Files.ReadFileLines | file.go:210-227 | the loop's lines and error are LinesFrom over the opened file (EOF turned into success) |
| Files.NextLineStrips | file.go:183-200 | for input without '\r', a line plus what remains, with newlines removed, equals the buffer plus the input with newlines removed |
| Files.LinesIntendedKeepAll | file.go:210-227 | the corrected loop loses no byte: the lines concatenate to the input with newlines removed |
| Files.LinesDropLastFullBuffer | file.go:183-200 | on 4096 bytes of 'a' with no newline the loop as written returns no lines, the corrected one returns the whole line |
| Files.ClearFile | file.go:230-243 | the method's new state and error are ClearFileFs of the old state |
| Files.ClearFileFacts | file.go:230-243 | a directory gives the "not a single file" error and no change; a missing path gives an error and no change; success leaves the file empty |
| Files.TruncateOpened | file.go:234-241 | once the open succeeds the path exists, and Truncate(0) succeeds and leaves it empty |
| Dirs.Mkdir | dir.go:9-16 | the loop's new state and error are MkdirEach of the old state |
| Dirs.MkdirAll | dir.go:22-29 | the loop's new state and error are MkdirAllEach of the old state |
| Dirs.MkdirEachFacts | dir.go:9-16 | only adds nodes; no directories gives no change; on success every listed path is a directory |
| Dirs.MkdirEachStops | dir.go:10-15 | on an error there is an index i: the first i succeed, os.Mkdir of dirs[i] gives that error, and nothing after i is made |
| Dirs.MkdirMissingParent | dir.go:11-13 | a first path whose parent does not exist gives ENOENT for that path and no change |
| Dirs.MkdirAllEachFacts | dir.go:22-29 | only adds nodes; no directories gives no change; on success every listed path is a directory |
| Dirs.MkdirAllEachStops | dir.go:23-27 | on an error there is an index i: the first i succeed, and os.MkdirAll of dirs[i] gives the whole loop's outcome |
| Copy.CopyFsFile | copy.go:91-107 | the method's new destination state and error are CopyFileFs of the source and old destination |
| Copy.CopyFile | copy.go:123-125 | CopyFsFile with one filesystem as both source and destination |
| Copy.CopyFileFacts | copy.go:91-107 | an open error on the source is returned with no change; on success dst reads as src's bytes written over dst's old bytes; nothing that existed changes kind |
| Copy.CopyFileIntoEmpty | copy.go:91-107 | when dst held no bytes, success makes dst read exactly as src |
| Copy.CopyOverLonger | copy.go:38-40 | when src is shorter than dst's old content, dst does not read back as src after success |
| Copy.CopyFileExact | copy.go:38-40 | the corrected copy (with O_TRUNC) makes dst read exactly as src, and nothing that existed changes kind |
| Copy.CopyFsDir | copy.go:66-89 | the recursive method's new state and error are CopyDirFs of the source and old destination |
| Copy.CopyDir | copy.go:114-116 | CopyFsDir with one filesystem, the source read from the state before the call |
| Copy.CopyDirFacts | copy.go:66-89 | a ReadDir error is returned with no change; on success dst is a directory holding a directory or readable file for each source entry; nothing that existed changes kind |
| Copy.CopyEntriesStops | copy.go:74-87 | an error stops the loop: the entries before it succeeded, and copying entry i gives the loop's outcome |
| Copy.CopyDirKept | copy.go:66-89 | without symlinks in dst, files outside dst are untouched and no link is created |
| Copy.CopyDirReadsBack | copy.go:66-89 | every file reachable under src reads back, after success, at the same relative path under dst, unless dst's old file there was longer |
| Copy.CopyIntoFresh | copy.go:66-89 | into a destination with nothing under it, every file reachable under src reads back identically under dst (the promise of copy_test.go:28-41) |
| Compress.ReplaceBackslashes | compress.go:252 | same length, with every '\\' replaced by '/' and every other character kept |
| Compress.ProcessPathPlain | compress.go:248-253 | processPath's result has no ':' and no '\\' |
| Compress.ProcessPathOfPlain | compress.go:248-253 | a path with neither ':' nor '\\' is unchanged |
| Compress.ProcessPathIdempotent | compress.go:248-253 | processPath applied twice equals once |
| Compress.ProcessPathDrive | compress.go:249-251 | "a:b…" keeps only the text between the first and second ':' (the drive letter and anything after a second ':' are dropped) |
| Compress.WalkedEntryName | compress.go:73 | the entry name of a walked path under a plain src is "/" followed by its relative path, and "" for src itself |
| Compress.ZipDirName | compress.go:190-194 | the name given to a directory entry ends with '/' |
| Compress.ZipDirNames | compress.go:190-194 | src itself becomes "./", and a subdirectory becomes "/rel/" |
| Compress.ExtractPath | compress.go:122 | joining dst with "/rel" or "/rel/" lands at dst/rel |
| Compress.TarStep | compress.go:58-91 | a walk error is returned; a non-regular file gives no entry; a regular file gives exactly one entry with its name, mode, size and bytes |
| Compress.TarCompress | compress.go:35-92 | the method's new state, entries and error are TarCompressFs of the old state |
| Compress.TarStepOk | compress.go:58-91 | a walk step fails iff its Lstat failed |
| Compress.TarRunErr | compress.go:58-91 | a failed walk returns the Lstat error of some walked path |
| Compress.TarRunOk | compress.go:58-91 | when every walked path can be stat'ed the walk succeeds |
| Compress.TarRunSound | compress.go:58-91 | every entry written is the entry of some walked regular file |
| Compress.TarRunComplete | compress.go:58-91 | every walked regular file has an entry |
| Compress.TarArchiveFacts | compress.go:58-91 | the walk does not change the filesystem; its errors are Lstat errors; it succeeds when all Lstats do; its entries are exactly the walked regular files |
| Compress.UnTarEntry | compress.go:122-143 | the method's new state and error are UnTarEntryFs of the old state |
| Compress.UnTarCompress | compress.go:94-145 | the method's new state and error are UnTarCompressFs of the old state |
| Compress.UnTarRegFacts | compress.go:125-138 | a regular entry written without O_TRUNC reads back as its bytes over what the file held |
| Compress.UnTarEntryFacts | compress.go:122-143 | a directory entry makes a directory; a regular entry reads back over the old bytes; any other kind changes nothing |
| Compress.UnTarAllFacts | compress.go:113-144 | success means the stream ended cleanly and every entry is in place |
| Compress.UnTarAllKept | compress.go:113-144 | without symlinks in dst, a file that no regular entry targets is untouched |
| Compress.UnTarAllReadsBack | compress.go:113-144 | a regular entry no other entry targets reads back, after the whole archive, as its bytes over the file's original content |
| Compress.UnTarCompressFacts | compress.go:94-145 | an open error is returned with no change; success means dst is a directory, the stream ended cleanly and every entry is in place |
| Compress.TarRoundTripFile | compress.go:73 | a walked file's entry extracts to dst plus the same relative path and, into a fresh path, reads back as the entry's bytes |
| Compress.UnTarFresh | compress.go:130-138 | extracting into a path that held no file reads back exactly the entry's bytes |
| Compress.ZipStep | compress.go:162-202 | a walk error is returned; a regular file gives one file entry; a directory gives one directory entry; other kinds give none |
| Compress.ZipCompress | compress.go:147-203 | the method's new state, entries and error are ZipCompressFs of the old state |
| Compress.ZipStepOk | compress.go:162-202 | a step fails iff Lstat failed or a non-empty regular file's name ends in '/' (then with the zip writer's error) |
| Compress.ZipRunErr | compress.go:162-202 | a failed walk returns an Lstat error or the slash-named-file error of some walked path |
| Compress.ZipRunOk | compress.go:162-202 | when every walked path can be stat'ed and none is a slash-named file the walk succeeds |
| Compress.ZipRunSound | compress.go:162-202 | every entry written belongs to some walked path |
| Compress.ZipRunComplete | compress.go:162-202 | every walked regular file or directory has an entry |
| Compress.ZipArchiveFacts | compress.go:162-202 | the walk does not change the filesystem; its errors and entries correspond exactly to the walked paths |
| Compress.UnzipFile | compress.go:226-242 | the method's new state and error are UnzipFileFs of the old state |
| Compress.ZipUnEntry | compress.go:211-221 | the method's new state and error are ZipUnEntryFs of the old state |
| Compress.ZipUnCompress | compress.go:205-224 | the method's new state and error are ZipUnCompressFs of the old state |
| Compress.UnzipFileFacts | compress.go:226-242 | on success the file reads back as the entry's bytes (O_TRUNC), and nothing that existed changes kind |
| Compress.ZipUnEntryFacts | compress.go:211-221 | a regular entry reads back as its bytes; a directory entry makes a directory; other kinds change nothing |
| Compress.ZipUnAllFacts | compress.go:211-222 | on success every directory entry is a directory and every regular entry is readable |
| Compress.ZipUnAllKept | compress.go:211-222 | without symlinks in dest, a file that no regular entry targets is untouched |
| Compress.ZipUnAllReadsBack | compress.go:211-222 | a regular entry that no later entry targets reads back as its bytes after the whole archive |
| Compress.ZipRoundTripFile | compress.go:167-188 | a walked file's entry extracts to dst plus the same relative path and reads back as the source file (the promise of compress_test.go:22-30) |
| Compress.ZipRootEntryFirst | compress.go:189-197 | zipping a directory puts the "./" entry first |
| Compress.ZipUnExistingDest | compress.go:217-219 | an archive starting with "./" into an existing dest fails with EEXIST and changes nothing |
| Compress.ZipThenUnZipIntoExisting | compress.go:217-219 | any directory zipped and then extracted into an existing dest fails with EEXIST |
| Compress.ZipUnIntendedExistingDest | compress.go:217-219 | the corrected extraction (MkdirAll) accepts "./" into an existing directory |
| Compress.ZipUnAllIntendedFacts | compress.go:211-222 | the corrected extraction keeps every directory entry a directory and every regular entry readable |
| ZipApi.RelZipStep | zip.go:59-99 | a walk error is returned; a directory gives no entry; any other path gives one Deflate entry with its name and bytes; its errors are the rel error, a read error or the zip writer's error |
| ZipApi.RelNames | zip.go:72-81 | with rel, a walked path's name is its relative path, or the file's own name for src itself |
| ZipApi.WalkNameNoSlash | zip.go:71-81 | a walked path's entry name is defined and does not end in '/' |
| ZipApi.RelZipStepErr | zip.go:60-98 | a failed step's error is the walk error, the read error, or (for src itself, named with a trailing '/') the zip writer's error |
| ZipApi.RelZipStepOk | zip.go:60-98 | a step on a readable walked path succeeds unless src itself is named with a trailing '/' |
| ZipApi.RelRegularEntry | zip.go:64-96 | a walked regular file becomes one Deflate entry named by its relative path, with its permission bits and bytes |
| ZipApi.ArchiveRunErr | zip.go:190-199 | a failed archive walk returns the error of some walked path |
| ZipApi.ArchiveRunOk | zip.go:190-199 | when every walked path is readable and src is plain, the walk succeeds |
| ZipApi.ArchiveRunSound | zip.go:190-199 | every entry written belongs to some walked path |
| ZipApi.ArchiveRunComplete | zip.go:190-199 | every walked non-directory has an entry |
| ZipApi.ArchiveSourceFacts | zip.go:190-199 | zipArchive's error and entries correspond exactly to the walked paths |
| ZipApi.ZipWith | zip.go:107-116 | the method's new state, entries and error are ZipWithFs of the old state |
| ZipApi.ZipMissingSource | zip.go:107-116 | a missing source leaves an empty dest and returns ENOENT for src |
| ZipApi.ReaddEntries | zip.go:140-156 | the loop copies every existing entry in order, or returns ReaddAll's first error |
| ZipApi.ReaddAllFacts | zip.go:140-156 | re-adding fails iff some directory entry has bytes (the zip writer's error); on success each entry keeps its name, kind, permission bits and bytes |
| ZipApi.ArchiveSources | zip.go:159-163 | the loop archives every source in order, or returns the first error |
| ZipApi.ArchiveEachSound | zip.go:159-163 | every new entry comes from some walked path of some source |
| ZipApi.AppendToZipWith | zip.go:123-182 | the method's new state, entries and error are AppendToZipFs of the old state |
| ZipApi.AppendEntries | zip.go:123-182 | on success the archive holds the existing entries first, each kept, then the new sources' entries |
| ZipApi.AppendSucceeded | zip.go:123-182 | success means each step succeeded in order: temp file, rewrite, closes, write, copy, rm |
| ZipApi.AppendReplaces | zip.go:175-181 | on success with a fresh temp name, the only change is zipPath's node (the temp file is gone) |
| ZipApi.AppendFailsEarly | zip.go:125-173 | a failure before the copy returns an error and no entries, leaves the empty temp file behind, and leaves zipPath unchanged |
| ZipApi.AppendLeavesTail | zip.go:176-178 | when the new archive is shorter than the old, zipPath keeps the old tail and does not read as the new archive |
| ZipApi.UnzipEntry | zip.go:217-241 | the method's new state and error are UnzipEntryFs of the old state |
| ZipApi.WriteEntry | zip.go:231-240 | the method's new state and error are WriteEntryFs of the old state |
| ZipApi.Unzip | zip.go:206-213 | the method's new state and error are UnzipFs of the old state |
| ZipApi.WriteEntryFacts | zip.go:231-240 | the write succeeds iff the open does; then the file reads back as the entry's bytes |
| ZipApi.UnzipEntryFacts | zip.go:217-241 | a directory entry changes nothing; another entry reads back as its bytes on success |
| ZipApi.UnzipAllFacts | zip.go:215-244 | on success every non-directory entry is readable, and nothing that existed changes kind |
| ZipApi.UnzipAllKept | zip.go:215-244 | without symlinks in dest, a file that no entry targets is untouched |
| ZipApi.UnzipAllReadsBack | zip.go:215-244 | a non-directory entry that no later entry targets reads back as its bytes after the whole archive |
| ZipApi.ZipThenUnzip | zip.go:64-96 | a walked regular file's entry, extracted anywhere, reads back as the source file at dest plus its relative path |
| Archive.TarHeaderOf | tgz.go:142-145 | tar.FileInfoHeader fails iff the file is a socket; the mode is the permission bits; the type is symlink iff the file is one |
| Archive.TarWrite | tgz.go:170-177 | writing succeeds iff the bytes fit the header's size (else ErrWriteTooLong), and keeps header and bytes |
| Archive.ZipWrite | zip.go:41-52 | writing fails iff the name ends in '/' and there are bytes (else the entry keeps its name and bytes, Store for a '/' name) |
| TgzApi.GzipLevel | tgz.go:37-40 | the level is accepted iff it lies between HuffmanOnly and BestCompression, else the invalid-level error |
| TgzApi.DefaultWalker | tgz.go:126-164 | a header is produced only for a path whose Lstat succeeded |
| TgzApi.WalkerHeader | tgz.go:126-164 | the header is a symlink header iff the path is a link, with the link's target; a regular file gets TypeReg, its size and its mode |
| TgzApi.TgzDirNames | tgz.go:147-156 | under a directory source, a walked path is named base(src)/rel |
| TgzApi.TgzSingleSource | tgz.go:157-160 | a non-directory source walks as that one path alone |
| TgzApi.TgzWalk | tgz.go:183-204 | the method's entries and error are TgzWalkFs |
| TgzApi.TarGzipLevelWith | tgz.go:31-48 | the method's new state, entries and error are TarGzipLevelWithFs of the old state |
| TgzApi.TarGzip | tgz.go:21-23 | TarGzipLevelWith at the default level |
| TgzApi.TgzWalkerOpens | tgz.go:188-202 | a walked path that opens never reaches the nil-header case |
| TgzApi.TgzStepErr | tgz.go:188-203 | a failed step returns the open error, the read error or ErrWriteTooLong |
| TgzApi.TgzRegularEntry | tgz.go:188-203 | a walked regular file becomes one TypeReg entry with its name, mode, size and bytes |
| TgzApi.TgzLinkToFile | tgz.go:168-181 | a walked symlink to a non-empty file fails with ErrWriteTooLong |
| TgzApi.LinkContentTooLong | tgz.go:170-177 | DefaultTgz with a symlink header and non-empty bytes gives ErrWriteTooLong |
| TgzApi.TgzStepIntendedOk | tgz.go:168-181 | the corrected step succeeds on every walked path that opens, copying bytes only for regular files, and a link keeps its target |
| TgzApi.TgzRunErr | tgz.go:188-203 | a failed walk returns a step error of some walked path |
| TgzApi.TgzRunComplete | tgz.go:188-203 | every walked regular file has its entry |
| TgzApi.TgzRunSound | tgz.go:188-203 | every entry comes from some walked path that opens |
| TgzApi.TgzWalkFacts | tgz.go:183-204 | a Stat error on src is returned; other errors are step errors; the entries are exactly those of the walked paths, every regular file included |
| TgzApi.TarGzipMissingSource | tgz.go:31-48 | a missing source leaves an empty dest and returns ENOENT for src |
| TgzApi.UnTgzEntry | tgz.go:238-260 | the method's new state and error are UnTgzEntryFs of the old state |
| TgzApi.UnTarGzip | tgz.go:211-227 | the method's new state and error are UnTarGzipFs of the old state |
| TgzApi.UnTgzRegFacts | tgz.go:245-255 | a regular entry (CreateFileMode truncates) reads back exactly as its bytes |
| TgzApi.UnTgzEntryFacts | tgz.go:238-260 | a directory entry makes a directory; a regular entry reads back; a symlink entry creates that link; other kinds change nothing |
| TgzApi.UnTgzAllFacts | tgz.go:229-262 | success means the stream ended cleanly, every directory entry is a directory and every regular entry is readable |
| TgzApi.UnTgzAllKept | tgz.go:229-262 | without links, a file that no regular entry targets is untouched |
| TgzApi.UnTgzAllReadsBack | tgz.go:229-262 | a regular entry that no later entry targets reads back as its bytes after the whole archive |
| TgzApi.TgzThenUnTgz | tgz.go:147-156 | a walked regular file's entry is named base(src)/rel and extracts to a file that reads as the source |
| TgzApi.FullNames | tgz.go:85 | one path per listed entry, each the entry's name joined onto the directory |
| TgzApi.MkdirTemp | tgz.go:73-77 | the method's new state, name and error are MkdirTempFs of the old state |
| TgzApi.TgzWalkSources | tgz.go:103-107 | the loop walks every source in order, or returns the first error |
| TgzApi.Prepare | tgz.go:72-93 | the method's new state and results are PrepareFs of the old state |
| TgzApi.WriteArchive | tgz.go:95-119 | the method's new state, entries and error are WriteArchiveFs of the old state |
| TgzApi.Cleanup | tgz.go:77-93 | the deferred calls: the temp file is removed, then the temp directory |
| TgzApi.AppendToTarGzipLevelWith | tgz.go:70-122 | the method's new state, entries and error are AppendToTarGzipFs of the old state |
| TgzApi.TgzWalkEachAppend | tgz.go:86-107 | walking a + b is walking a, then b, stopping at the first error |
| TgzApi.AppendTgzOrder | tgz.go:70-122 | success means the old items come first, then the new sources; a later failure returns an error and cleans up both temporaries |
| Walking.WalkNode | zip.go:191 | the walk visits the node first, every event's path is root joined with its relative path, and children lie below |
| Walking.WalkNodeLstat | zip.go:191 | every event carries the Lstat result of its path |
| Walking.RunOk | zip.go:191-198 | the callback fold succeeds iff every callback does, and then collects their results in order |
| Walking.RunErr | zip.go:191-198 | a failed fold returns the first failing callback's error, and every earlier callback succeeded |
| Walking.RunAppend | zip.go:191-198 | folding a + b is folding a, then b |
| Walking.RunHas | zip.go:191-198 | after success each event's results are all among the collected results |
| Walking.WalkFn | zip.go:191-198 | the loop's results and error are the fold's, with no results on an error |
| Fs.JoinErrors | zip.go:166-173 | errors.Join is nil iff every argument is nil |
| Fs.Resolve | stat.go:43 | a resolved path exists and is not a link |
| Fs.OpenRead | file.go:22-24 | an opened path is a directory or a regular file |
| Fs.RegularReads | compress.go:79-88 | a regular file opens and reads as its bytes, whose length is its Lstat size |
| Fs.Overwrite | copy.go:38-40 | a write without truncation: the new bytes, then the old bytes past them |
| Fs.EntriesNodes | copy.go:54-56 | each listed entry exists, and its isDir flag matches the node |
| Fs.CreateAtFacts | dir.go:11 | creating a node adds exactly that key and lists its name in the parent |
| Fs.MkdirFacts | dir.go:11 | os.Mkdir only adds a directory at a path that was absent |
| Fs.MkdirAllFacts | dir.go:24 | os.MkdirAll only adds directories, and on success the path is a directory |
| Fs.CreateThenRemove | file.go:72-81 | removing a just-created entry gives back the original filesystem |
| Fs.OpenWriteFacts | copy.go:96-101 | after an open, the write succeeds, the file reads back as the bytes over the old content (empty when truncated), and nothing that existed changes kind |
| Fs.FileSystem.Mkdir | dir.go:11 | the new nodes and error are os.Mkdir's |
| Fs.FileSystem.MkdirAll | dir.go:24 | the new nodes and error are os.MkdirAll's |
| Fs.FileSystem.Symlink | tgz.go:257 | the new nodes and error are os.Symlink's |
| Fs.FileSystem.OpenFile | file.go:18-20 | the new nodes, key and error are os.OpenFile's: a regular file opens (emptied under O_TRUNC), a directory gives EISDIR, and under O_CREAT a missing path is created, including the missing key at the end of a final symlink's chain |
| Fs.OpenCreated | file.go:18-20 | when os.OpenFile creates the file, the one new key holds an empty file with the given permission bits, nothing else changes kind, and the path then resolves to the new file, whether it was the path's own key or the missing target of its symlinks |
| Fs.FileSystem.CreateNew | file.go:73 | the new nodes and error are those of an exclusive create |
| Fs.FileSystem.Write | copy.go:101 | the new nodes and error are a write's |
| Fs.FileSystem.Truncate | file.go:239 | the new nodes and error are Truncate(0)'s |
| Fs.FileSystem.Remove | file.go:76 | the new nodes and error are os.Remove's |
| Fs.FileSystem.RemoveAll | tgz.go:77 | the new nodes and error are os.RemoveAll's |
| Paths.Split | compress.go:249 | strings.Split always gives at least one piece |
| Paths.SplitJoinElems | compress.go:249 | splitting the '/'-join of slash-free pieces gives them back |
| Paths.NormRender | compress.go:193 | a normal form rendered as a path and cleaned again gives the same form |
| Paths.CleanIdempotent | compress.go:193 | Clean(Clean(p)) == Clean(p) |
| Paths.JoinName | zip.go:224 | joining a plain name appends one element, and the result is already clean |
| Paths.JoinAllNorm | zip.go:224 | joining plain names appends them as elements, and the result is clean |
| Paths.RelJoinAll | zip.go:73 | filepath.Rel of root and root joined with names is their '/'-join, and "." for none |
| Paths.JoinUnderName | tgz.go:156 | path.Join(base, rel) is base/rel, and base for rel "." |
| Paths.InsideJoin | copy.go:75 | a path inside d/n is inside d |
| Paths.InsideSiblings | copy.go:75 | no path is inside two different children of d |

## Left out

- Compress.TarCompressFs: the archive's bytes never reach `dest`. dest is created empty and the entries are returned. On a walk error the entries are `[]`, where Go leaves a partial archive in dest. The tar, gzip and zip container formats are not modelled.
- Compress.ZipCompressFs: the same gap as TarCompressFs.
- ZipApi.ZipWithFs: the same gap. zip.go:107-116 leaves a partial archive in dest after a walk error; the model returns no entries.
- TgzApi.TarGzipLevelWithFs: the same gap as ZipWithFs.
- ZipApi.UnzipFs: per-entry decode failures (zipFile.Open, a CopyBuffer read error, zip.go:147-149 and 219-222) are folded into the `decoded` parameter. It is either the entry list or the reader's error, so an error halfway through an archive is not separated from an error before it.
- Compress.ZipUnCompressFs: the same folding of decode errors into `decoded`.
- ZipApi.AppendToZipFs: the same folding of decode errors into `decoded`. The archive's bytes `encoded` and the close errors are parameters.
- TgzApi.UnTarGzipFs: a truncated entry (the read error of tgz.go:251) and gzip.NewReader's error are folded into the stream's final error.
- Compress.UnTarCompressFs: the same folding into the stream's final error.
- ZipApi.ZipWith: the caller's ZipWalker and Ziper are fixed to RelZipWalker(rel) and ZipHeader(), the only ones the package defines. AppendToZipWith likewise uses RelZipWalker(false) and ZipHeader().
- TgzApi.TarGzipLevelWith: the caller's TgzWalker and Tgz are fixed to DefaultWalker() and DefaultTgz(), as are AppendToTarGzipLevelWith's.
- Fs.Lookup: lookup is lexical on the cleaned path. Only the last component's symlink is followed (by Stat, Open, ReadFile, and OpenFile's create through a dangling link); a symlink in a middle component is not.
- Copy.CopyDirFs and Copy.CopyDir: the source is read from the filesystem as it was before the call. Copying a directory into its own subtree therefore does not see the directories the copy has just made, as Go would.
- Files.CreateTempFs: os.CreateTemp's retry with a new random name on EEXIST is dropped. The random text is a parameter, and a name that exists gives the error.
- Walking.Walk: filepath.Walk's second callback on a failed directory read is dropped. In the model a directory's listing cannot fail once its Lstat has succeeded.
- TgzApi.MkdirTempFs: the source of MkdirTemp is not part of this model. It is taken to behave as os.MkdirTemp(os.TempDir(), "untgz"), making "/tmp/untgz<random>", and its rmDir as os.RemoveAll with the error dropped.
- TgzApi.ReadDirFullNames: the source of ReadDirFullNames is not part of this model. It is taken to be os.ReadDir's names joined onto the directory, and none when the listing fails.
- Copy.CopyDirReadsBack: it requires a destination without symlinks (NoLinks), since a link in dst can send a write to another key.
- Copy.CopyIntoFresh: it requires a destination without symlinks (NoLinks), for the same reason.
- ZipApi.UnzipAllReadsBack: it requires a destination without symlinks (NoLinks), for the same reason.
- Compress.ZipUnAllReadsBack: it requires a destination without symlinks (NoLinks), for the same reason.
- Compress.UnTarAllReadsBack: it requires a destination without symlinks (NoLinks), for the same reason.
- TgzApi.UnTgzAllReadsBack: it requires a destination without symlinks (NoLinks) and covers streams without symlink entries only. A symlink entry can redirect a later regular entry, so UnTgzAllFacts states only readability for streams that contain one.
- Files.LinesIntendedKeepAll: it is proved for input without '\r'. bufio's ReadLine also drops a "\r" before "\n".
- Files.ReadFileLines: a read error after some bytes have been read is not modelled. Reading an opened path yields all its bytes or fails at once (EISDIR on a directory), and that error ends the loop with no lines.
- Files.ReadFileLine: f.Close's error is dropped, as the source drops it.
- Fs.FileSystem: file handles, Close and its errors are not modelled apart from the joined close errors of the two Append operations, which are parameters. Concurrency is out of scope.
- Stat.FileMode: umask, os.ModeDir in permission arguments, the setuid/setgid/sticky bits, and all modification times (MTime, ModTime) are not modelled. File permission bits are stored as given. Directories carry none and always report 0755, whatever permission the source passes. Access checks are not modelled. This hides a failure: Mkdir and MkdirAll (dir.go:11, 24) and the OS filesystem's Mkdir and MkdirAll (copy.go:43, 47) pass os.ModeDir, whose permission bits are 0, so they make directories with mode 000. For a non-root user, creating anything inside such a directory fails with EACCES, which breaks a nested MkdirAll, CreateFileMode's parent, extraction into it and CopyDir. The model lets all of these succeed.
- Compress.TarStep: tar.FileInfoHeader's uid, gid, owner names and times are not modelled; the header keeps name, type, mode, size and link target.
- hash.go, path.go and tar.go are not part of this model: hashing, the binary and caller paths, and tar.go's wrappers.
- ReadFileBytes and ReadFileString are Fs.ReadFile, with no separate member. OpenFileReader, OpenFileWriter and OpenFileRw are Fs.OpenRead and Fs.FileSystem.OpenFile with their flags.

## Findings

| source | as written | input that shows it | evidently intended | confidence | as-written member | corrected member |
|---|---|---|---|---|---|---|
| stat.go:82-84 | IsExist returns errors.Is(ErrFromStat(...), os.ErrNotExist), true exactly when the path is missing | any existing path, e.g. "/" | true iff os.Stat succeeds, as file.go:87-95 does | high, not executed | Stat.IsExistFalseWhenPresent | Stat.IsExistIntendedIff |
| stat.go:109-111 | IsRegular reads Stat(name).Mode(); on a missing path errorFileInfo's mode 0 counts as regular | a missing path "/nope" | false when os.Stat fails | high, not executed | Stat.IsRegularOnMissing | Stat.IsRegularIntendedIff |
| file.go:183-226 | the next-line closure returns (buffered, EOF) when the last line ends in a full 4096-byte fragment, and ReadFileLines drops the line returned with EOF | a file of 4096 'a' bytes without a newline | every line returned, the last one included | high, not executed | Files.LinesDropLastFullBuffer | Files.LinesIntendedKeepAll |
| tgz.go:168-181 | DefaultTgz copies the opened file's bytes for every non-directory, so a symlink header (size 0) receives its target's bytes | a source directory holding a symlink to a non-empty file | copy bytes only for regular files, so links archive as links | high, not executed | TgzApi.TgzLinkToFile | TgzApi.TgzStepIntendedOk |
| compress.go:217-219 | directory entries are made with Mkdir, and the first entry of any zipped directory is "./", which is dest itself | zip a directory, then UnZip into a dest that exists | MkdirAll, so an existing dest is accepted | high, not executed | Compress.ZipThenUnZipIntoExisting | Compress.ZipUnIntendedExistingDest |
| copy.go:38-40 | CreateFile opens with O_RDWR, O_CREATE and no O_TRUNC, so copying over a longer file keeps its tail | copy "ab" over a file holding "xyz" (the result is "abz") | O_TRUNC, so dst reads exactly as src | high, not executed | Copy.CopyOverLonger | Copy.CopyFileExact |
