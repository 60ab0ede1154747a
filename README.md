# vfs: in-memory asset filesystem, composition wrappers and asset encoder

This project models the core of the Go package `vfs` and its `bindata`
asset support.

- **In-memory tree filesystem** (`bindata/binfs.go`), in module `MemFS`
  (`binfs.dfy`):
  - A directory node is a datatype that holds a map of files and a map of subdirectories.
  - `Open` cleans the path, strips the leading separator and descends through the directory maps. The method keeps the source's element-by-element loop.
  - `Walk` is the recursive preorder traversal, as methods. Sibling order is chosen with `:|`, because Go's map iteration order is unspecified.
  - `Readdir`, the file handles (a class with a read cursor) and the FileInfo accessors are also modelled.
- **Composition wrappers** (`vfs.go`), in module `Vfs` (`vfs.dfy`):
  - The fallback chain's `Open` and `Walk` are modelled as loops over an ordered list of backends.
  - `Subdir` is the sub-path view, and `stripPrefixWalkFunc` is the visitor guard.
  - A backend is a record of two functions: what `Open` returns for a name, and which visitor calls `Walk` makes and what it returns for a root and visitor.
- **Asset encoder** (`cmd/bindata/main.go`), in module `BindataCmd` (`encoder.dfy`):
  - `stringEncoder.Write` escapes bytes into the body of a Go interpreted string literal. It is modelled over a class that stands for `bufio.Writer`.
  - Also modelled: `matchList`, and the `filepath.Join(...)` expression that `addFile` builds from the path components.
  - A decoder for string-literal bodies, written from the Go Programming Language Specification sections "String literals" and "Rune literals", is the partner the escaper is proved against.

Shared definitions:
- `base.dfy` (module `Base`) holds bytes, options, results and the error values: `*os.PathError` and bare sentinels.
  - `IsNotExist` unwraps one `*os.PathError`, like `os.IsNotExist`.
- `paths.dfy` (module `Paths`) fixes the separator to `/`. It implements `strings.Split`, `strings.Join`, `strings.TrimLeft` and the documented lexical rules of `filepath.Clean` and `filepath.Join`.

## Model

| member | source | states |
|---|---|---|
| MemFS.Open | bindata/binfs.go:27-71 | Open yields Resolve: the failure unchanged, the directory node itself, or a fresh file handle over the stored record with its cursor at 0; the loop invariant keeps the remaining lookup equal to the whole one, and the return after the loop is proved unreachable |
| MemFS.ResolveByElements | bindata/binfs.go:28-36 | in terms of the cleaned elements: a path cleaning to "/" fails with an "open" not-exist error on "", no elements in a relative path (including "") is the directory itself, ".." fails, any other path succeeds exactly when its elements resolve; every failure is not-exist |
| MemFS.OpenSpecialPaths | bindata/binfs.go:31-36 | "" and "." open the receiver; "/" and ".." fail with PathError("open", "", NotExist) and PathError("open", "..", NotExist) |
| Paths.TrimmedClean | bindata/binfs.go:28-38 | the trimmed cleaned path is "" exactly when the path cleans to "/", "." exactly for a relative path with no elements, ".." exactly when the only element left is "..", and otherwise the elements joined, which split back to the same elements |
| MemFS.LookupIsDescendThenChild | bindata/binfs.go:41-67 | resolution follows every element but the last through the directory maps only, then resolves the last element files first |
| MemFS.ResolveByDescent | bindata/binfs.go:38-67 | a missing intermediate directory (even with a file of that name) gives not-exist; for the last element a file wins over a same-named directory; a missing last element gives not-exist |
| MemFS.OpenFile | bindata/binfs.go:140-151 | nil exactly when the name is not in the file map; otherwise a freshly allocated handle with the stored name, time and data and offset 0 |
| MemFS.File.Read | bindata/binfs.go:153-161 | the embedded reader delivers min(n, remaining) bytes from the offset and advances it; at or past the end it reports io.EOF and does not move |
| MemFS.File.Readdir | bindata/binfs.go:170-172 | a file cannot be listed: no entries and PathError("readdir", name, errIsFile) |
| MemFS.File.Stat | bindata/binfs.go:174-184 | the handle describes itself: a non-directory with Size the data length, mode 0400, its stored name and time |
| MemFS.Mode | bindata/binfs.go:135 | the ModeDir bit is set exactly for directories, the permission bits are 0400, no other bit is set |
| MemFS.DirHandleContract | bindata/binfs.go:104-138 | a directory cannot be read or sought (0 and an errIsDirectory PathError naming it), has size 0, IsDir, mode ModeDir|0400 and the process start time |
| MemFS.Walk | bindata/binfs.go:73-82 | an Open error is returned unchanged and a file gives PathError("walk", path, errIsFile), in both cases without visitor calls; a directory is walked at the path as given and nil is returned |
| MemFS.WalkDir | bindata/binfs.go:87-100 | the visitor calls form a preorder walk: the directory at path first, then one call per file at Join(path, name) in some order, then a walk of every subdirectory at Join(path, name) in some order, each walk complete before the next begins |
| MemFS.WalkSubdirs | bindata/binfs.go:94-98 | the subdirectories are each walked once, in some order, one walk after the other |
| MemFS.WalkCount | bindata/binfs.go:84-100 | any walk makes exactly as many visitor calls as the subtree has directories and files |
| MemFS.WalkVisitsLookup | bindata/binfs.go:87-100 | every entry Open can reach from the walk's root by an element list is visited at the root joined with those elements |
| MemFS.Readdir | bindata/binfs.go:112-121 | count is ignored and nothing fails: every file (in some order), then every subdirectory (in some order), len(files)+len(dirs) entries |
| Vfs.FallbackOpen | vfs.go:65-80 | the loop returns what FallbackOpenResult gives: the first result with a nil error, else the last result, (nil, nil) for no backends |
| Vfs.FallbackOpenOutcome | vfs.go:71-79 | if backends 0..k-1 all fail and backend k succeeds, the chain returns backend k's file; if all fail, the last backend's result; with none, a nil file and nil error |
| Vfs.FallbackOpenFlattens | vfs.go:57-80 | a chain of two non-empty chains opens like the chain of all their backends |
| Vfs.FallbackOfOne | vfs.go:57-80 | a chain of one backend opens as that backend |
| Vfs.Fallback | vfs.go:57-63 | the chain as a FileSystem value whose Open and Walk are the chain's |
| Vfs.FallbackWalk | vfs.go:85-112 | the loop, with the source's branches, returns what FallbackWalkResult gives, with the visitor calls of every backend tried |
| Vfs.FallbackWalkOutcome | vfs.go:86-111 | with backends 0..k-1 all returning not-exist: if backend k returns nil or any other error the chain returns exactly that after the visitor calls of backends 0..k and walks no later backend; if the list is exhausted it returns nil |
| Vfs.PathBranchIsDead | vfs.go:93-106 | the `pe.Path == root` branch never changes the result: the chain equals the one that only asks os.IsNotExist |
| Vfs.RewalkAsWritten | vfs.go:93-104 | a backend that visits "dir" and then fails with not-exist on "dir/b.txt" is followed by the next backend, so "dir" is visited twice; the intended rule returns the error instead |
| Vfs.IntendedWalksOneBackend | vfs.go:82-84 | under the intended rule (move on only after a not-exist PathError naming the root, as given or cleaned), when a backend that reports its root missing has made no visitor calls, the visitor sees the calls of at most one backend |
| Vfs.IntendedStopsBelowRoot | vfs.go:97-108 | under the intended rule a PathError naming a path other than the root (as given or cleaned) is returned and no later backend is walked |
| Vfs.MemRootMissingRecognised | vfs.go:82-84 | every failure of the in-memory filesystem to open a walk root is a not-exist PathError naming the root, so the intended rule moves on to the next backend |
| Vfs.IntendedFallsBackOnCleanedRoot | vfs.go:99-101 | the intended rule falls back when the root "/x" is reported missing under its cleaned name "x" |
| Vfs.IntendedStopsOnBareError | vfs.go:99-108 | under the intended rule a bare error, a bare not-exist included, is returned and no later backend is walked |
| Vfs.Subdir | vfs.go:114-133 | Open(n) is fs.Open(Join(path, n)) and Walk(r, f) is fs.Walk(Join(path, r), f); construction checks nothing |
| Vfs.SubdirOpensJoined | vfs.go:125-133 | for a clean relative prefix and name, the view opens and walks exactly the concatenated elements |
| Vfs.SubdirOfEmpty | vfs.go:125-128 | the view at "" opens the cleaned name, for a non-empty name |
| Vfs.StripPrefixWalkFunc | vfs.go:34-46 | an incoming error is returned unchanged before any Clean or Rel and the visitor is not called; otherwise the visitor is called exactly when Rel(prefix, Clean(path)) succeeds, with that relative path, and its result is returned; a Rel error is returned |
| BindataCmd.EscapeByte | cmd/bindata/main.go:138-151 | newline, backslash and quote become \n, \\ and \"; other bytes in 0x20..0x7E are copied; every other byte becomes \x and two lowercase hex digits whose value is the byte; the output is printable |
| BindataCmd.HexDigit | cmd/bindata/main.go:149 | the digit is lowercase hexadecimal and reads back as its value |
| BindataCmd.Encode | cmd/bindata/main.go:135-156 | the output holds only bytes in 0x20..0x7E, one to four per input byte |
| BindataCmd.EncodeAppend | cmd/bindata/main.go:132-136 | encoding works per byte: Encode(a + b) == Encode(a) + Encode(b), so a split at a buffer boundary is harmless |
| BindataCmd.EscapeDecodes | cmd/bindata/main.go:138-151 | each escape decodes as a Go string-literal character back to its byte |
| BindataCmd.EncodeRoundTrip | cmd/bindata/main.go:121-150 | the encoded body followed by the closing quote decodes to exactly the input bytes and ends at that quote: no input ends or breaks the literal |
| BindataCmd.StringEncoder.Write | cmd/bindata/main.go:135-159 | when every write succeeds it returns len(p) and the Flush error, having written Encode(p); at the first failed write it returns 0 and that error, having written the escapes of the bytes before it and the first m bytes of the failing byte's escape; an earlier sticky error is returned with nothing written |
| BindataCmd.BufWriter.WriteBytes | cmd/bindata/main.go:140-150 | a bufio write: a sticky earlier error is returned with nothing accepted; success accepts everything; a new failure accepts a prefix of the bytes, and the ghost count says how long |
| BindataCmd.BufWriter.Flush | cmd/bindata/main.go:158 | Flush keeps the accepted bytes and returns the sticky or a new error |
| BindataCmd.MatchList | cmd/bindata/main.go:161-171 | true exactly when some pattern matches the name (so false for no patterns); a malformed pattern counts as no match |
| BindataCmd.JoinExpr | cmd/bindata/main.go:115-119 | the expression is filepath.Join( the quoted components of the cleaned path, in order, separated by ", " ) |
| BindataCmd.JoinExprComponents | cmd/bindata/main.go:115-119 | the components join back to the cleaned path, and filepath.Join over them gives the cleaned path without its leading separator, which is how the in-memory filesystem looks it up |

## Left out

- `Native` and `nativeFS.Walk` (vfs.go:27-32, 48-53) are not modelled. They are host-disk I/O through `os.Stat`, `http.Dir` and `filepath.Walk`. Only the pure guard `stripPrefixWalkFunc` is kept.
- `log.Printf` in the fallback chain is not modelled. It is logging only.
- `main` and the I/O parts of `addFile` are not modelled. These are flag parsing, directory creation, file open/stat, `io.Copy`, `fmt.Fprintf` of the surrounding text and package lookup.
- `RegisterFile` is not part of this model. Trees are built directly as datatype values.
- `filepath.Rel`, `filepath.Match` and `strconv.Quote` are library code and are not part of this model. Each is a function parameter instead: `rel`, `matches` and `quote`.
- The sibling order of Go map iteration is not modelled. Walks and listings choose the next key with `:|`, and their contracts quantify over the order taken.
- A Go `nil` map and an empty map are not distinguished, because they look up identically.
- MemFS.File.Read: `bytes.Reader` is modelled only as content plus an offset. Its `Seek`, `ReadAt`, `UnreadByte` and the other methods are left out.
- `Close`, `Sys` and `Stat` on a directory return constants or the receiver. They are not separate members.
- `time.Time` values are opaque. The process start time is a parameter.
- `Base.IsNotExist`: an error is a PathError wrapping a sentinel, or a bare sentinel. A PathError that wraps another wrapper is not modelled: another `*os.PathError`, an `*os.SyscallError` or an `*os.LinkError` around not-exist. For such an error `os.IsNotExist` answers false for the outer error but true for the inner one, so the branch at vfs.go:97-105 is live for it. `Vfs.PathBranchIsDead` covers only the one-level errors modelled.
- `Vfs.RootNotFound` recognises the root under two names: as given, and cleaned with its leading separator removed. A backend that names the root some other way is not recognised, for example nativeFS, whose `os.Lstat` error names the host path joined onto the root.
- BindataCmd.Unquote does not decode `\u` and `\U` escapes, or raw bytes outside ASCII (UTF-8). The encoder never produces either.
- BindataCmd.BufWriter does not model the buffer size or when bytes reach the wrapped writer. Whether the wrapped writer fails is chosen with `:|`.
- Vfs.FallbackWalk takes the visitor calls each backend makes from the backend's walk result. Visitor side effects beyond those calls are not modelled.
- The doc comment of the fallback chain's Walk (vfs.go:82-84) lets a walk move on only after a not-exist failure at the root itself. The code moves on after any not-exist failure, because `os.IsNotExist` unwraps the PathError. The model follows the code, and the discrepancy is listed under Findings.

## Findings

| source | as written | input that shows it | evidently intended | confidence | as-written member | corrected member |
|---|---|---|---|---|---|---|
| vfs.go:93 | `os.IsNotExist(err)` continues to the next backend for any not-exist error, including a `*os.PathError` for a path below the root. This makes the `pe.Path == root` test at lines 97-105 dead. | Backend A calls the visitor on "dir", then fails with PathError("lstat", "dir/b.txt", NotExist). Backend B walks "dir" and "dir/a.txt" and returns nil. The visitor sees "dir", "dir", "dir/a.txt" and the chain returns nil. | Continue only when a not-exist PathError names the root itself, as given or in its cleaned form (the in-memory filesystem reports "/x" as "x"). Any other error is returned, including a not-exist below the root or a bare not-exist, so that no file is walked twice, as the doc comment at lines 82-84 and the comment at lines 99-103 say. | medium, not executed | Vfs.RewalkAsWritten | Vfs.IntendedWalksOneBackend |
