# idl-repository in Dafny

This project models the core of `idl-repository`, a registry for interface-definition
files (protobuf, avro, …) together with its command-line client.

- **Server.** The server keeps one gzipped tar archive per project, type and version below a
  base directory. It lists projects, types and versions, stores an uploaded archive and serves
  it back.
- **Client push.** `push` packs every directory the project configuration provides, leaving out
  the paths its ignore patterns match, and uploads each archive.
- **Client pull.** `pull` downloads the archive of every dependency and unpacks it below the
  configured IDL directory. The dependency's directory is emptied first.

The model is organised by module:

- `Storage` holds the path-confined file storage of the server. `FileStorage` is a class whose
  filesystem field the methods update.
- `Router` holds the HTTP handlers, as a class over that storage.
- `Push` holds the ignore-pattern reading, the archive walk (`gzipRoot`) and the upload loop.
- `Pull` holds the extraction of an archive into the filesystem and the download loop.
- `Config` holds the configuration records and the repository override rule.
- `RoundTrip` proves that what push packs, pull unpacks into the same tree.
- Supporting modules model the parts of Go's standard library that the core relies on:
  - `Sequences`: `strings.Split` and `strings.Join`.
  - `Paths`: `filepath.Clean` (Pike's lexical rules), `filepath.Abs` and `filepath.Rel`.
  - `FileSystem`: `os.Stat`, `os.MkdirAll`, `os.RemoveAll` and `os.OpenFile`, over a map from
    clean absolute paths to directories and regular files.
  - `Order`: the name order of `ioutil.ReadDir` and the visiting order of `filepath.Walk`.
  - `Archive`: the tar archive, as the sequence of records a tar reader yields.

Randomness, the clock, I/O and foreign code become parameters:

- the host filesystem is a value `FS`, with a working directory `cwd`;
- the HTTP GET and POST are functions the caller supplies;
- the pattern matcher is a function the caller supplies;
- the outcome of `Configuration.Validate` is given.

`Config.Configuration` calls the list of provided directories `provided`, because `provides`
is not available as a field name.

Four behaviours of the code are easy to misread; the model follows the code:

- **Excluded directories are not skipped.** The walk callback of `gzipRoot` returns nil, not
  `filepath.SkipDir`, for a matched path. So the contents of an excluded directory are still
  visited and matched one by one. `Push.Emit` and `Push.EmitKept` state this.
- **The root is matched too.** The matcher is also asked about the root (`"."`) before the
  root is skipped, so a matcher error on `"."` fails the push.
- **The confinement check rejects nothing.** The check in `securePath` never fails for two
  absolute paths. The lemmas `Storage.SecurePathEscapesUpward`,
  `Storage.SecurePathEscapesSideways` and `Router.ProjectArgumentEscapes` exhibit paths that
  leave the base directory. `Pull.EntryNameEscapes` does the same for archive entry names.
- **A dependency path of `.` is refused, not emptied.** `path.Join` of the IDL directory, the
  name and the type can come out as `.`, the working directory itself. `os.RemoveAll` refuses
  that spelling with EINVAL, so the pull fails and nothing is removed
  (`Pull.UnpackRefusesDot`). The same directory spelled any other way is emptied.

## Model

| member | source | states |
|---|---|---|
| Storage.SecurePathNeverRejects | internal/storage/fileStorage.go:149-162 | for a clean base every path resolves: the `filepath.Rel` check never fails for two absolute paths |
| Storage.SecurePath | internal/storage/fileStorage.go:149-162 | the base and the caller's path are joined as strings and cleaned; what it accepts is a clean absolute path |
| Storage.SecurePathOfRooted | internal/storage/fileStorage.go:150-151 | a path starting with `/` resolves as its elements cleaned on top of the base directory |
| Storage.SecurePathConfined | internal/storage/fileStorage.go:149-162 | a path that is empty or starts with `/` and has no `..` element resolves inside the base directory |
| Storage.SecurePathEscapesUpward | internal/storage/fileStorage.go:149-162 | base `/srv` with path `/..` is accepted and resolves to `/`, outside the base |
| Storage.SecurePathEscapesSideways | internal/storage/fileStorage.go:150 | base `/srv` with path `x` is accepted and resolves to the sibling `/srvx` |
| Storage.FileStorage.Resolved | internal/storage/fileStorage.go:149-162 | the resolved path of a caller's path is clean and is what `securePath` returns |
| Storage.FileStorage.ReadDir | internal/storage/fileStorage.go:48 | `ioutil.ReadDir` gives exactly the names of the entries of the directory, strictly sorted by name |
| Storage.FileStorage.ListFolders | internal/storage/fileStorage.go:34-61 | an unstat-able path gives an empty list and no error; a regular file gives a nil list and no error; a directory gives exactly its subdirectory names, in name order, with files left out |
| Storage.FileStorage.File | internal/storage/fileStorage.go:63-65 | the stub returns neither a reader nor an error |
| Storage.FileStorage.Exists | internal/storage/fileStorage.go:67-79 | false exactly when stat reports not-exist; a path below a regular file (ENOTDIR) counts as existing |
| Storage.FileStorage.MkDir | internal/storage/fileStorage.go:81-92 | the new filesystem is `MkdirAll` of the resolved path; on failure the error is wrapped and nothing changes |
| Storage.FileStorage.CreateFile | internal/storage/fileStorage.go:94-128 | when the file cannot be opened the call fails and nothing changes; otherwise the file holds exactly the stream's bytes, replacing earlier content, no other path changes, and an error is reported exactly when the stream breaks |
| Storage.FileStorage.CopyInto | internal/storage/fileStorage.go:106-127 | the copy loop leaves the opened file holding exactly the stream's bytes, changes no other path, and reports an error exactly when the stream breaks |
| Storage.FileStorage.ReadFile | internal/storage/fileStorage.go:130-147 | `'<path>' does not exist`, quoting the caller's path, exactly when the path is missing; an unbroken reader exactly for a regular file, carrying its stored bytes |
| Storage.NewFileStorage | internal/storage/fileStorage.go:18-32 | the base directory is made absolute; an existing path is kept as is; otherwise it is created with `MkdirAll`, or the wrapped error is returned |
| Router.SecurePathOfNames | internal/repository/projectRouter.go:42 | a path `/n0/n1/…` of plain names resolves to those names below the base |
| Router.ArtifactPathsResolve | internal/repository/projectRouter.go:121-128 | with plain names, the project, type, version and `data.tar.gz` paths land at the matching places below the base |
| Router.ProjectArgumentEscapes | internal/repository/projectRouter.go:42 | a project argument `../..` reaches the parent of the base directory |
| Router.ProjectRouter.ListHandler | internal/repository/projectRouter.go:24-34 | always 200, never 404: an empty list before the first upload, `null` when `/projects` is a regular file, and the subdirectory listing of `/projects` when it is a directory |
| Router.ProjectRouter.ListTypeHandler | internal/repository/projectRouter.go:36-61 | a missing route argument is an error; 404 `project '<p>' does not exist` exactly when the project is missing; otherwise 200 with its subfolders, `null` when the project is a regular file, and an empty list when it lies below one |
| Router.ProjectRouter.ListVersionHandler | internal/repository/projectRouter.go:63-103 | arguments are checked project, then type; then the project is checked before the type, each with its own 404 message; otherwise 200 with the type's subfolders, `null` when the type is a regular file, and an empty list when it lies below one |
| Router.ProjectRouter.PullVersion | internal/repository/projectRouter.go:139-194 | arguments are checked project, type, version; then a 404 with its own message for the first of project, type and version that is missing; when all three exist the handler succeeds exactly when the archive path is stored, with 200 and a reader of its bytes (a broken reader for a directory); a missing archive gives the storage's error (`does not exist` unless a regular file is in the way), not a 404 |
| Router.ProjectRouter.SubmitVersion | internal/repository/projectRouter.go:105-137 | `MkDir` of the version before `CreateFile`; a failed `MkDir` changes nothing; when the archive cannot be opened the directories `MkDir` made stay and nothing else changes; when the body breaks the version directory stays with the bytes read so far as its archive; success means 201 with no model and the archive replaced by the body, even over an earlier upload; with plain names `PullVersion` then serves the body back |
| Router.SubmittedIsServed | internal/repository/projectRouter.go:121-133 | after `MkDir` of the version and the archive write, the project, type and version exist and the archive holds exactly the written bytes |
| Config.ResolveRepository | pkg/config/configuration.go:54-60 | the dependency's own repository when non-empty, else the configuration's |
| Config.ResolveRepositoryStable | pkg/config/configuration.go:54-60 | writing the resolved repository into the dependency resolves to the same repository |
| Config.FixtureRepositories | pkg/config/configuration_test.go:60-75 | in the unmarshalling fixture, the dependency without a repository resolves to `first.example.com` and the other keeps `second.example.net` |
| Push.TrimLeft | pkg/client/push.go:72 | the result is a suffix; only spaces were dropped; it does not start with a space |
| Push.TrimRight | pkg/client/push.go:72 | the result is a prefix; only spaces were dropped; it does not end with a space |
| Push.TrimSpaceUnchanged | pkg/client/push.go:72 | a value with no space at either end is its own trimmed form |
| Push.ReplaceCRLF | pkg/client/push.go:72 | the replacement never lengthens the text and leaves a text without `\r` unchanged |
| Push.ReplaceCRLFAround | pkg/client/push.go:72 | every `\r\n` becomes `\n`: the text on either side of one is replaced independently |
| Push.ReplaceJoinCRLF | pkg/client/push.go:72 | lines without carriage returns joined by `\r\n` become the same lines joined by `\n` |
| Push.TrimSpace | pkg/client/push.go:72 | the result has no `unicode.IsSpace` character at either end |
| Push.TrimSpaceInfix | pkg/client/push.go:72 | the trimmed value is a stretch of the text, and everything cut off on either side of it is space |
| Push.ScanLines | pkg/client/push.go:92-96 | the scanner loop yields `Lines(text)`: the pieces between newlines, without a final empty piece, with a trailing `\r` removed |
| Push.LinesOfTerminated | pkg/client/push.go:92-96 | lines each ended by a newline are read back unchanged |
| Push.LinesOfUnterminated | pkg/client/push.go:92-96 | without a final newline the last non-empty line is read too |
| Push.LinesOfCRLF | pkg/client/push.go:92-96 | lines ended by `\r\n` are read back without the carriage return |
| Push.ReadIdlIgnoreFile | pkg/client/push.go:85-98 | the lines of a regular file, no lines for a directory, and failure for a name that cannot be opened |
| Push.GetExcludes | pkg/client/push.go:63-83 | the loop-free method computes `Excludes` |
| Push.Excludes | pkg/client/push.go:63-83 | an empty value reads `.idlignore`; a value whose trimmed, CRLF-converted form holds a newline is the pattern list itself; any other value is read as a file name, untrimmed; an unreadable file gives no patterns |
| Push.InlineRoundTrip | pkg/client/push.go:72-75 | several patterns joined by newlines, with no space around the whole, come back as the same patterns whatever the filesystem |
| Push.InlineCRLFRoundTrip | pkg/client/push.go:72-75 | the same patterns separated by `\r\n` also come back unchanged whatever the filesystem |
| Push.FixturePatterns | pkg/config/configuration_test.go:87-92 | the fixture's inline value `.noise\n.tmp\n*~` gives the three patterns |
| Push.Walk | pkg/client/push.go:127 | the walk visits every path below the root exactly once, in strictly increasing walk order |
| Push.RelFile | pkg/client/push.go:134-144 | the matcher is asked about `.` for the root, and below it about a string that splits at `/` back into the elements below the root |
| Push.TrimPrefix | pkg/client/push.go:120 | the result is never longer than the text |
| Push.TrimPrefixSuffix | pkg/client/push.go:120 | the result is a suffix of the text |
| Push.FileString | pkg/client/push.go:127 | the name the walk passes to the callback is the root as written for the root itself; below it, it is never empty and is rooted whenever the root is (`RoundTrip.FileStringBelowAbsolute` and `RoundTrip.FileStringBelowDot` give its exact value for the usual root spellings) |
| Push.EntryName | pkg/client/push.go:161 | the header name is the walked name with `TrimPrefix(root, "./")` cut off; for the root itself, when the root does not start with `./`, it is empty |
| Push.EntryNameSuffix | pkg/client/push.go:161 | the header name is a suffix of the walked file name |
| Push.EntryFor | pkg/client/push.go:151-186 | the header is named by the path with the cleaned root cut off; a directory gets a `TypeDir` header and no content; a regular file gets a `TypeReg` header and exactly its bytes |
| Push.Emit | pkg/client/push.go:127-189 | the walk callback over the walk writes at most one record per walked path |
| Push.Kept | pkg/client/push.go:141-158 | exactly the walked, non-root paths the matcher answers `false` for are written |
| Push.Entries | pkg/client/push.go:127-189 | one record per kept path, in the same order |
| Push.EmitKept | pkg/client/push.go:127-189 | the walk succeeds exactly when every matcher call does, and then the archive is exactly the records of the kept paths in walk order; excluded directories are not skipped |
| Push.WriteWalk | pkg/client/push.go:127-189 | the callback loop over the walk computes the specified archive or the first matcher error |
| Push.Packed | pkg/client/push.go:127-189 | the walk from the root location succeeds exactly when the matcher answers every walked path, and then its records are those of the kept paths, in walk order |
| Push.Package | pkg/client/push.go:100-196 | a packed archive means the root stat'ed and the patterns compiled, and its records are what the walk from the root location writes |
| Push.GzipRoot | pkg/client/push.go:100-196 | a root that cannot be stat'ed fails first, naming the root; a pattern error is returned; a walk error is wrapped as `failed writing files to tar`; otherwise the walk's records |
| Push.FileRootPacksNothing | pkg/client/push.go:156-158 | a regular file given as root is walked alone and skipped, so its archive is empty |
| Push.ProviderUrl | pkg/client/push.go:45-49 | the upload URL starts with the configured repository and ends with the version |
| Push.PushOne | pkg/client/push.go:33-58 | one pass of the loop reports no error exactly when the directory was packed and its upload answered 201 |
| Push.PushEach | pkg/client/push.go:32-59 | the loop over the providers: an error it reports is the error of the pass for one of the providers (the first failing one, by its definition) |
| Push.PushEachPacksAll | pkg/client/push.go:32-59 | a push that reports no error packed every provided directory and had each upload accepted with 201 |
| Push.Push | pkg/client/push.go:27-61 | no provided directory fails with `nothing to push`; otherwise each provided directory is packed and posted in order, and the first packing error, posting error or non-201 status (`upload failed`) stops the loop |
| Push.PushEachAppend | pkg/client/push.go:32-59 | pushing `a + b` pushes `a` and goes on to `b` only if every upload of `a` succeeded |
| Pull.Target | pkg/client/pull.go:104 | the target of an entry is a clean path |
| Pull.Parent | pkg/client/pull.go:123 | `filepath.Dir` drops the last element; the root is its own parent |
| Pull.ApplyEntry | pkg/client/pull.go:103-141 | handling one header keeps the filesystem well formed (the lemmas below state what each type flag does) |
| Pull.Extract | pkg/client/pull.go:85-142 | the extraction loop keeps the filesystem well formed |
| Pull.ExtractCleanEnd | pkg/client/pull.go:85-96 | an extraction ends without error only when the archive ended at end of file |
| Pull.EntryNameEscapes | pkg/client/pull.go:104 | an entry named `../../../x` is written outside the dependency directory |
| Pull.DirEntrySpec | pkg/client/pull.go:114-119 | a directory entry changes nothing when its target exists, even as a regular file; otherwise it adds the target and its missing ancestors |
| Pull.RegEntryKeepsTail | pkg/client/pull.go:122-140 | a regular entry over an existing longer file overwrites only its prefix: the old tail survives, because there is no truncation |
| Pull.RegEntryCreates | pkg/client/pull.go:122-140 | a regular entry whose target is absent creates it with exactly the entry's bytes, together with its parent directories |
| Pull.DependencyPath | pkg/client/pull.go:65 | the dependency directory `<idl>/<name>/<type>` is a clean absolute path |
| Pull.DependencyString | pkg/client/pull.go:65 | the string `path.Join` gives, which `os.RemoveAll` receives, is empty exactly when all three parts are |
| Paths.PathJoin | pkg/client/pull.go:65 | `path.Join` returns nothing exactly when every element is empty; otherwise the cleaned join, which is never empty |
| Paths.CleanStringNonEmpty | pkg/client/pull.go:65 | cleaning never yields the empty string: a path that cancels out becomes `.` |
| Pull.Unpack | pkg/client/pull.go:56-143 | unpacking keeps the filesystem well formed |
| Pull.UnpackRefusesDot | pkg/client/pull.go:65-70 | with idl directory `.`, name `a` and type `..`, the dependency path is the working directory itself, and the pull fails with nothing removed instead of emptying it |
| Pull.UnpackSucceeded | pkg/client/pull.go:56-143 | unpacking succeeds only when the IDL directory exists and the archive ended at end of file |
| Pull.UnpackDependency | pkg/client/pull.go:56-143 | the preparation and the `tr.Next()` loop compute `Unpack`: fail without the IDL directory, fail with `failed to clean path: RemoveAll .: invalid argument` when the dependency path is spelled `.`, otherwise remove and recreate the dependency directory, then extract until the end of file or the first error, keeping partial changes |
| Pull.UnpackResets | pkg/client/pull.go:59-75 | a missing IDL directory fails with nothing removed; a dependency path spelled `.` fails with the EINVAL message of `os.RemoveAll` and nothing removed; otherwise extraction starts from an empty dependency directory whose ancestors are directories, and every unrelated path is kept |
| Pull.DependencyUrl | pkg/client/pull.go:33-37 | the download URL starts with the repository `ResolveRepository` chooses and ends with `/data.tar.gz` |
| Pull.PullEach | pkg/client/pull.go:32-52 | the loop keeps the filesystem well formed |
| Pull.PullEachFetchedAll | pkg/client/pull.go:32-52 | a pull that reports no error got an answer with status 200 for every dependency |
| Pull.Pull | pkg/client/pull.go:22-54 | no dependency fails with `nothing to pull`; a validation error is returned; otherwise each dependency is fetched from `ResolveRepository`'s URL and unpacked in order |
| Pull.PullEachAppend | pkg/client/pull.go:32-52 | pulling `a + b` pulls `a` and goes on to `b` from the resulting filesystem only if `a` succeeded |
| Pull.PullBadStatusFirst | pkg/client/pull.go:44-46 | a first answer with a status other than 200 fails with `status code <n> is not OK` and changes nothing |
| Pull.PullStopsAtBadStatus | pkg/client/pull.go:32-52 | a status other than 200 stops the loop; the dependencies unpacked before it stay unpacked |
| RoundTrip.EntryNameOfSpelledRoot | pkg/client/push.go:120-161 | below a root written as `a/b`, `./a/b` or `/a/b`, the header name is `/` followed by the path below the root |
| RoundTrip.TargetOfEntryName | pkg/client/pull.go:104 | such a header name is unpacked at the dependency directory followed by the same elements |
| RoundTrip.ExtractMirror | pkg/client/pull.go:85-142 | unpacking the records of source paths into a mirrored tree raises no error, stores every path, keeps the mirror, and changes nothing outside the dependency directory |
| RoundTrip.PackedTreeUnpacks | pkg/client/pull.go:85-142 | the records packed from a directory, unpacked into a cleared dependency directory, reproduce every kept path with the same node (same bytes for regular files) and leave nothing else below it |
| RoundTrip.PushThenPull | pkg/client/push.go:100-196 | for a dependency path not spelled `.`, push then pull: whatever `gzipRoot` packs, `unPackDependency` rebuilds below the dependency directory with identical content, with no stale file surviving, and every unrelated path is untouched |
| Paths.RelRoundTrip | pkg/client/push.go:134 | `filepath.Rel` of two clean absolute paths never fails, and joining the base with it gives the target back |
| Paths.RelLeavesBase | internal/storage/fileStorage.go:156-159 | the relative path starts with `..` exactly when the target lies outside the base, which is the test `securePath` does not make |
| Paths.CleanPathString | internal/storage/fileStorage.go:151 | the string form of a clean path cleans back to itself |
| Sequences.SplitJoin | pkg/client/push.go:72 | splitting what was joined gives the parts back when no part holds the separator |
| Sequences.JoinSplit | pkg/client/push.go:72 | joining what was split gives the text back |
| Sequences.SplitSeveral | pkg/client/push.go:72-73 | a split yields more than one part exactly when the separator occurs |
| Order.SortSet | internal/storage/fileStorage.go:48 | the elements of a set in strictly increasing order, each exactly once |
| Order.SortedUnique | pkg/client/push.go:127 | a strictly sorted sequence is determined by its elements, so the walk order is unique |
| FileSystem.StatSpec | internal/storage/fileStorage.go:39 | stat finds exactly the stored paths, and reports ENOTDIR exactly below a regular file |
| FileSystem.MkdirAllSpec | internal/storage/fileStorage.go:87 | `MkdirAll` succeeds exactly when no element of the path is a regular file, and then adds exactly the missing directories on the path |
| FileSystem.MkdirAllIdempotent | internal/storage/fileStorage.go:81-92 | a second `MkdirAll` of the same path changes nothing |
| FileSystem.RemoveAllSpec | pkg/client/pull.go:67 | removing a non-root path not below a regular file succeeds and leaves nothing at or below it, keeping everything else |
| FileSystem.OpenForWriteSpec | pkg/client/pull.go:128 | opening for writing succeeds exactly when the path is not a directory and its parent is a directory; it creates an empty file or keeps (or truncates) an existing one |

## Left out

- The gzip and tar byte formats are not modelled. An archive is the sequence of records a tar
  reader yields, and push and pull exchange those records directly, so the round trip assumes
  that the registry returns the uploaded bytes unchanged and that gzip and tar round-trip.
- Tar header fields other than the name and type flag are not modelled: file modes, times,
  owners, and the file mode used when unpacking. `tar.FileInfoHeader` and `WriteHeader` errors
  are not modelled either.
- The temporary file of `gzipRoot` (its `xid` name, `os.Create` and its failure) is not
  modelled. Neither is the later `os.Open` of that file in `Push`, nor the closing of files.
  The records are posted directly.
- Reading a regular file during the walk or the copy cannot fail in the model. A stream that
  breaks during `io.Copy` in `unPackDependency` is not modelled; a broken archive ends with
  `Broken` after its last whole record.
- Symbolic links and file kinds other than directories and regular files are not modelled.
  During unpacking, other tar type flags are skipped, as in the code.
- `fileutils.NewPatternMatcher` and its glob language are foreign code. The model takes a
  function from patterns to a matcher, and from relative path to match or error.
- `http.Get` and `http.Post` are parameters. The muxer, the JSON encoding of responses, route
  registration (`Register`) and the server's concurrency are not part of this model. Neither
  are the YAML `Marshal`/`UnMarshal` and `Configuration.Validate`, which is not shown anywhere.
- `bufio.Scanner`'s 64 KiB token limit is not modelled. Neither is UTF-8 decoding: a file is
  read as one character per byte.
- The path handed to the matcher is taken to be the elements below the root, joined by `/`.
  So the failure of `filepath.Rel` for unusual root spellings is not modelled. A root such as
  `.//abs` loses its `./` and becomes the rooted `/abs`, while the walked names stay relative
  (`abs/x`); Rel then fails and the code silently skips every path.
- RoundTrip.PushThenPull: proved for roots written as `a/b`, `./a/b` or `/a/b` with clean
  elements. Roots with `..`, repeated slashes or a trailing slash give other header names and
  are not covered.
- Storage.FileStorage.ListFolders: the disk is a map, so `ioutil.ReadDir` of an existing
  directory cannot fail; the `failed to read directory` branch is not reachable in the model.
- Storage.FileStorage.CreateFile: a write to an opened file cannot fail in the model, so the
  `failed to write to file` branch is not reachable; only a broken request body fails.
- Storage.FileStorage.Exists: stat in the model fails only with not-exist or ENOTDIR. Other
  errors such as EACCES, for which the code answers true, are not modelled.
- Storage.FileStorage.CopyInto: the 1024-byte chunking is modelled in the loop, but the
  contract states only the final content, not the sequence of writes, and the chunks are
  gathered into the new filesystem value that is stored when the loop ends.
- Pull.UnpackDependency: the mode of the IDL directory, used for the created directories and
  files, is not modelled.
- Races between concurrent pushes and pulls at the same address, and the non-atomic write of
  `data.tar.gz`, are not modelled.
