/** The in-memory filesystem that compiled-in assets are served from.

    A directory node holds a map of files and a map of subdirectories. A Go
    `nil` map looks up exactly like an empty one, so both are an empty `map`
    here. Opening a path cleans it, strips its leading separator and follows
    its elements through the directory maps; walking visits a directory, then
    its files, then recurses into its subdirectories. Go visits map entries in
    no fixed order; the walks and listings below pick their next key with
    `:|`, so nothing is assumed about the order of siblings.
 */
module MemFS {
  import opened Base
  import Paths

  /** A stored file: its name, modification time and content. */
  datatype FileRecord = FileRecord(name: string, mod: Time, data: seq<byte>)

  /** A directory node. */
  datatype Dir = Dir(name: string, files: map<string, FileRecord>, dirs: map<string, Dir>)

  /** What a path resolves to; also the os.FileInfo a visitor or a listing
      receives (a directory reports itself, a file its opened handle). */
  datatype Entry = DirEntry(dir: Dir) | FileEntry(file: FileRecord)

  /** An opened http.File: the directory node itself, or a fresh file handle. */
  datatype Handle = DirHandle(dir: Dir) | FileHandle(file: File)

  /** One call of the walk visitor: the path and the FileInfo it was given
      (the error argument is always nil in this backend). */
  datatype Visit = Visit(path: string, info: Entry)

  // ---------------------------------------------------------------------------
  // os.FileInfo

  const ModeDir: bv32 := 0x8000_0000   // os.ModeDir
  const ModePerm: bv32 := 0x1FF        // os.ModePerm
  const ReadOnly: bv32 := 0x100        // 0400

  function Name(e: Entry): string
  {
    if e.DirEntry? then e.dir.name else e.file.name
  }

  /** A directory reports 0; a file the length of its content (the
      bytes.Reader's Size, which does not depend on the read offset). */
  function Size(e: Entry): int
  {
    if e.DirEntry? then 0 else |e.file.data|
  }

  /** Directories carry no time of their own and report the process start. */
  function ModTime(e: Entry, startup: Time): Time
  {
    if e.DirEntry? then startup else e.file.mod
  }

  function IsDir(e: Entry): bool
  {
    e.DirEntry?
  }

  /** The mode's directory bit agrees with IsDir, the permission bits are
      always 0400, and no other bit is set. */
  function Mode(e: Entry): (m: bv32)
    ensures (m & ModeDir != 0) == IsDir(e)
    ensures m & ModePerm == ReadOnly
    ensures m & !(ModeDir | ModePerm) == 0
  {
    if e.DirEntry? then ModeDir | ReadOnly else ReadOnly
  }

  /** (*dir).Read: a directory has no content to read. */
  function DirRead(d: Dir): (int, Error)
  {
    (0, PathError("read", d.name, IsDirectory))
  }

  /** (*dir).Seek */
  function DirSeek(d: Dir, offset: int, whence: int): (int, Error)
  {
    (0, PathError("seek", d.name, IsDirectory))
  }

  /** What a directory handle reports: it cannot be read or sought, it is a
      directory of size 0 with mode ModeDir|0400, and its time is the
      process start. */
  lemma DirHandleContract(d: Dir, offset: int, whence: int, startup: Time)
    ensures DirRead(d).0 == 0 && DirRead(d).1 == PathError("read", d.name, IsDirectory)
    ensures DirSeek(d, offset, whence).0 == 0
    ensures DirSeek(d, offset, whence).1 == PathError("seek", d.name, IsDirectory)
    ensures Size(DirEntry(d)) == 0 && IsDir(DirEntry(d)) && Mode(DirEntry(d)) == ModeDir | ReadOnly
    ensures ModTime(DirEntry(d), startup) == startup && Name(DirEntry(d)) == d.name
  {
  }

  // ---------------------------------------------------------------------------
  // File handles

  /** An opened file: the stored name, time and content, and a bytes.Reader
      cursor of its own. */
  class File {
    const name: string
    const mod: Time
    const data: seq<byte>
    var offset: nat

    constructor (rec: FileRecord)
      ensures name == rec.name && mod == rec.mod && data == rec.data && offset == 0
    {
      name, mod, data := rec.name, rec.mod, rec.data;
      offset := 0;
    }

    function Record(): FileRecord
    {
      FileRecord(name, mod, data)
    }

    /** (*file).Stat: the handle describes itself. */
    function Stat(): (e: Entry)
      ensures e.FileEntry? && Size(e) == |data| && Mode(e) == ReadOnly && !IsDir(e)
      ensures Name(e) == name && forall startup :: ModTime(e, startup) == mod
    {
      FileEntry(Record())
    }

    /** Read into a buffer of n bytes: at or past the end it reports io.EOF;
        otherwise it delivers the next min(n, remaining) bytes and advances. */
    method Read(n: nat) returns (chunk: seq<byte>, err: Option<Error>)
      modifies this
      ensures old(offset) >= |data| ==> chunk == [] && err == Some(Plain(EOF)) && offset == old(offset)
      ensures old(offset) < |data| ==>
        && err == None
        && |chunk| == (if n < |data| - old(offset) then n else |data| - old(offset))
        && chunk == data[old(offset)..old(offset) + |chunk|]
        && offset == old(offset) + |chunk|
    {
      if offset >= |data| {
        return [], Some(Plain(EOF));
      }
      var k := if n < |data| - offset then n else |data| - offset;
      chunk := data[offset..offset + k];
      offset := offset + k;
      err := None;
    }

    /** (*file).Readdir: a file cannot be listed. */
    method Readdir(count: int) returns (entries: seq<Entry>, err: Option<Error>)
      ensures entries == [] && err == Some(PathError("readdir", name, IsFile))
    {
      return [], Some(PathError("readdir", name, IsFile));
    }
  }

  /** (*dir).file: a fresh handle over the stored file, or nil when there is
      no file of that name. */
  method OpenFile(d: Dir, name: string) returns (f: File?)
    ensures (f == null) == (name !in d.files)
    ensures f != null ==> fresh(f) && f.Record() == d.files[name] && f.offset == 0
  {
    if name !in d.files {
      return null;
    }
    f := new File(d.files[name]);
  }

  // ---------------------------------------------------------------------------
  // Open

  /** strings.TrimLeft(filepath.Clean(path), "/") */
  function Normalize(path: string): string
  {
    Paths.TrimLeftSep(Paths.Clean(path))
  }

  /** The last element: the file map first, then the directory map. */
  function Child(x: Dir, c: string): Option<Entry>
  {
    if c in x.files then Some(FileEntry(x.files[c]))
    else if c in x.dirs then Some(DirEntry(x.dirs[c]))
    else None
  }

  /** Resolution of a non-empty element list, element by element. */
  function Lookup(d: Dir, cs: seq<string>): Option<Entry>
    requires |cs| >= 1
    decreases |cs|
  {
    if |cs| == 1 then Child(d, cs[0])
    else if cs[0] in d.dirs then Lookup(d.dirs[cs[0]], cs[1..])
    else None
  }

  /** What (*dir).Open yields for a path. */
  function Resolve(d: Dir, path: string): Result<Entry>
  {
    var q := Normalize(path);
    if q == "" || q == ".." then Failure(PathError("open", q, NotExist))
    else if q == "." then Success(DirEntry(d))
    else
      match Lookup(d, Paths.Split(q))
      case None => Failure(PathError("open", q, NotExist))
      case Some(e) => Success(e)
  }

  /** (*dir).Open */
  method Open(d: Dir, path: string) returns (r: Result<Handle>)
    ensures match Resolve(d, path)
      case Failure(e) => r == Failure(e)
      case Success(DirEntry(x)) => r == Success(DirHandle(x))
      case Success(FileEntry(f)) =>
        && r.Success? && r.value.FileHandle? && fresh(r.value.file)
        && r.value.file.Record() == f && r.value.file.offset == 0
  {
    var q := Normalize(path);
    if q == "" || q == ".." {
      return Failure(PathError("open", q, NotExist));
    }
    if q == "." {
      return Success(DirHandle(d));
    }
    var components := Paths.Split(q);
    var current := d;
    var i := 0;
    while i < |components|
      invariant i < |components|
      invariant Lookup(d, components) == Lookup(current, components[i..])
    {
      var c := components[i];
      assert components[i..][0] == c;
      if i < |components| - 1 {
        if c in current.dirs {
          assert components[i..][1..] == components[i + 1..];
          current := current.dirs[c];
        } else {
          return Failure(PathError("open", q, NotExist));
        }
      } else {
        var f := OpenFile(current, c);
        if f != null {
          return Success(FileHandle(f));
        }
        if c in current.dirs {
          return Success(DirHandle(current.dirs[c]));
        }
        return Failure(PathError("open", q, NotExist));
      }
      i := i + 1;
    }
    // binfs.go:70 is unreachable: strings.Split never returns an empty list.
    assert false;
    r := Failure(Plain(NotExist));
  }

  /** How a path resolves in terms of its cleaned elements: a rooted path
      with no element left (it cleans to "/") and the single element ".."
      are not found; a relative path with no element left (including "")
      is the directory itself; any other path resolves exactly as its
      cleaned elements do. Every failure is a not-exist error. */
  lemma ResolveByElements(d: Dir, path: string)
    ensures var cs := Paths.CleanParts(path);
      && (cs == [] && Paths.IsRooted(path) ==> Resolve(d, path) == Failure(PathError("open", "", NotExist)))
      && (cs == [] && !Paths.IsRooted(path) ==> Resolve(d, path) == Success(DirEntry(d)))
      && (cs == [".."] ==> Resolve(d, path) == Failure(PathError("open", "..", NotExist)))
      && (cs != [] && cs != [".."] ==>
            (Resolve(d, path).Success? <==> Lookup(d, cs).Some?)
            && (Lookup(d, cs).Some? ==> Resolve(d, path).value == Lookup(d, cs).value))
      && (Resolve(d, path).Failure? ==> IsNotExist(Resolve(d, path).error))
  {
    Paths.TrimmedClean(path);
  }

  /** The special cases of Open: "" and "." are the directory itself, "/"
      and ".." are not found. */
  lemma OpenSpecialPaths(d: Dir)
    ensures Resolve(d, "") == Success(DirEntry(d))
    ensures Resolve(d, ".") == Success(DirEntry(d))
    ensures Resolve(d, "/") == Failure(PathError("open", "", NotExist))
    ensures Resolve(d, "..") == Failure(PathError("open", "..", NotExist))
  {
    assert Paths.Split("") == [""];
    assert Paths.CleanParts("") == [];
    Paths.SplitNoSep(".");
    assert Paths.CleanParts(".") == [];
    assert Paths.Split("/") == ["", ""];
    assert Paths.CleanParts("/") == [];
    Paths.SplitNoSep("..");
    assert Paths.CleanParts("..") == [".."];
    ResolveByElements(d, "");
    ResolveByElements(d, ".");
    ResolveByElements(d, "/");
    ResolveByElements(d, "..");
  }

  /** Following a list of elements through directory maps only. */
  function Descend(d: Dir, cs: seq<string>): Option<Dir>
    decreases |cs|
  {
    if cs == [] then Some(d)
    else if cs[0] in d.dirs then Descend(d.dirs[cs[0]], cs[1..])
    else None
  }

  /** Lookup follows every element but the last through the directory maps
      (a file of that name is never entered) and resolves the last one
      with Child, files first. */
  lemma {:induction false} LookupIsDescendThenChild(d: Dir, cs: seq<string>)
    requires |cs| >= 1
    ensures Lookup(d, cs) == match Descend(d, cs[..|cs| - 1])
                             case None => None
                             case Some(x) => Child(x, cs[|cs| - 1])
    decreases |cs|
  {
    if |cs| > 1 && cs[0] in d.dirs {
      LookupIsDescendThenChild(d.dirs[cs[0]], cs[1..]);
      assert cs[1..][..|cs| - 2] == cs[..|cs| - 1][1..];
    }
  }

  /** Open, element by element: every element before the last must name a
      subdirectory (the first one missing makes the path not found, even
      when a file has that name); the last one opens the file of that name
      if there is one, even when a subdirectory has the same name, and
      otherwise the subdirectory. */
  lemma ResolveByDescent(d: Dir, path: string)
    requires var cs := Paths.CleanParts(path); cs != [] && cs != [".."]
    ensures var cs := Paths.CleanParts(path); var last := cs[|cs| - 1];
      match Descend(d, cs[..|cs| - 1])
      case None => Resolve(d, path).Failure? && IsNotExist(Resolve(d, path).error)
      case Some(x) =>
        && (last in x.files ==> Resolve(d, path) == Success(FileEntry(x.files[last])))
        && (last !in x.files && last in x.dirs ==> Resolve(d, path) == Success(DirEntry(x.dirs[last])))
        && (last !in x.files && last !in x.dirs ==>
              Resolve(d, path).Failure? && IsNotExist(Resolve(d, path).error))
  {
    ResolveByElements(d, path);
    LookupIsDescendThenChild(d, Paths.CleanParts(path));
  }

  // ---------------------------------------------------------------------------
  // Walk

  /** `names` lists every key of `keys` exactly once. */
  ghost predicate Enumerates(names: seq<string>, keys: set<string>)
  {
    && (forall i, j :: 0 <= i < j < |names| ==> names[i] != names[j])
    && (forall n :: n in names <==> n in keys)
  }

  lemma {:induction false} EnumerationSize(names: seq<string>, keys: set<string>)
    requires Enumerates(names, keys)
    ensures |names| == |keys|
    decreases |names|
  {
    if names != [] {
      var rest := keys - {names[0]};
      assert Enumerates(names[1..], rest) by {
        forall n ensures n in names[1..] <==> n in rest {
          if n in names[1..] {
            var j :| 0 <= j < |names[1..]| && names[1..][j] == n;
            assert names[j + 1] == n;
          }
          if n in rest {
            var j :| 0 <= j < |names| && names[j] == n;
            assert j != 0;
            assert names[1..][j - 1] == n;
          }
        }
      }
      EnumerationSize(names[1..], rest);
    }
  }

  /** Part way through a loop over the keys: `names` lists, each once, the
      keys already taken, and `pending` holds the others. */
  ghost predicate Progress(names: seq<string>, pending: set<string>, keys: set<string>)
  {
    && pending <= keys
    && (forall i :: 0 <= i < |names| ==> names[i] in keys && names[i] !in pending)
    && (forall i, j :: 0 <= i < j < |names| ==> names[i] != names[j])
    && (forall n :: n in keys && n !in pending ==> n in names)
  }

  lemma ProgressStep(names: seq<string>, pending: set<string>, keys: set<string>, n: string)
    requires Progress(names, pending, keys) && n in pending
    ensures Progress(names + [n], pending - {n}, keys)
  {
    var names' := names + [n];
    forall m | m in keys && m !in pending - {n} ensures m in names' {
      if m != n {
        assert m in names;
        var i :| 0 <= i < |names| && names[i] == m;
        assert names'[i] == m;
      } else {
        assert names'[|names|] == m;
      }
    }
  }

  lemma ProgressDone(names: seq<string>, keys: set<string>)
    requires Progress(names, {}, keys)
    ensures Enumerates(names, keys) && |names| == |keys|
  {
    forall m ensures m in names <==> m in keys {
      if m in names {
        var i :| 0 <= i < |names| && names[i] == m;
      }
    }
    EnumerationSize(names, keys);
  }

  /** The number of directories and files in the tree rooted at d, d included. */
  ghost function Count(d: Dir): nat
    decreases d, 1
  {
    1 + |d.files| + CountIn(d, d.dirs.Keys)
  }

  /** The sizes of the subtrees of the named subdirectories. */
  ghost function CountIn(d: Dir, names: set<string>): nat
    requires names <= d.dirs.Keys
    decreases d, 0, names
  {
    if names == {} then 0
    else
      var n :| n in names;
      Count(d.dirs[n]) + CountIn(d, names - {n})
  }

  /** The same sizes added up in a given order. */
  ghost function CountSeq(d: Dir, names: seq<string>): nat
    requires forall i :: 0 <= i < |names| ==> names[i] in d.dirs
  {
    if names == [] then 0
    else CountSeq(d, names[..|names| - 1]) + Count(d.dirs[names[|names| - 1]])
  }

  /** CountIn does not depend on which key it takes first. */
  lemma {:induction false} CountInRemove(d: Dir, names: set<string>, n: string)
    requires names <= d.dirs.Keys && n in names
    ensures CountIn(d, names) == Count(d.dirs[n]) + CountIn(d, names - {n})
    decreases names
  {
    var m :| m in names && CountIn(d, names) == Count(d.dirs[m]) + CountIn(d, names - {m});
    if m != n {
      CountInRemove(d, names - {m}, n);
      CountInRemove(d, names - {n}, m);
      assert names - {m} - {n} == names - {n} - {m};
    }
  }

  lemma {:induction false} CountSeqIsCountIn(d: Dir, names: seq<string>, keys: set<string>)
    requires keys <= d.dirs.Keys && Enumerates(names, keys)
    ensures forall i :: 0 <= i < |names| ==> names[i] in d.dirs
    ensures CountSeq(d, names) == CountIn(d, keys)
    decreases |names|
  {
    assert forall i :: 0 <= i < |names| ==> names[i] in keys;
    if names != [] {
      var last, init := names[|names| - 1], names[..|names| - 1];
      var rest := keys - {last};
      assert Enumerates(init, rest) by {
        forall n ensures n in init <==> n in rest {
          if n in init {
            var j :| 0 <= j < |init| && init[j] == n;
            assert names[j] == n;
          }
          if n in rest {
            var j :| 0 <= j < |names| && names[j] == n;
            assert j != |names| - 1;
            assert init[j] == n;
          }
        }
      }
      CountSeqIsCountIn(d, init, rest);
      CountInRemove(d, keys, last);
    }
  }

  /** The visits of the named files of d, in the order given. */
  function FileVisits(d: Dir, path: string, names: seq<string>): (vs: seq<Visit>)
    requires forall i :: 0 <= i < |names| ==> names[i] in d.files
    ensures |vs| == |names|
  {
    seq(|names|, i requires 0 <= i < |names| =>
      Visit(Paths.JoinPath([path, names[i]]), FileEntry(d.files[names[i]])))
  }

  lemma FileVisitsSnoc(d: Dir, path: string, names: seq<string>, n: string)
    requires forall i :: 0 <= i < |names| ==> names[i] in d.files
    requires n in d.files
    ensures FileVisits(d, path, names + [n])
         == FileVisits(d, path, names) + [Visit(Paths.JoinPath([path, n]), FileEntry(d.files[n]))]
  {
  }

  /** The walks in ws, one after the other. */
  function Flatten(ws: seq<seq<Visit>>): (t: seq<Visit>)
  {
    if ws == [] then [] else Flatten(ws[..|ws| - 1]) + ws[|ws| - 1]
  }

  /** Walks of the sizes of the named subtrees add up to CountSeq. */
  lemma {:induction false} FlattenLength(d: Dir, names: seq<string>, ws: seq<seq<Visit>>)
    requires |ws| == |names|
    requires forall i :: 0 <= i < |names| ==> names[i] in d.dirs && |ws[i]| == Count(d.dirs[names[i]])
    ensures |Flatten(ws)| == CountSeq(d, names)
    decreases |names|
  {
    if names != [] {
      FlattenLength(d, names[..|names| - 1], ws[..|ws| - 1]);
    }
  }

  /** t is a preorder walk of d at path: the visit of d itself, then one
      visit of each file of d at Join(path, name) in some order, then a
      walk of each subdirectory at Join(path, name), one after the other in
      some order. */
  ghost predicate IsWalk(d: Dir, path: string, t: seq<Visit>)
    decreases d, 1
  {
    && |t| >= 1 + |d.files|
    && t[0] == Visit(path, DirEntry(d))
    && (exists names :: Enumerates(names, d.files.Keys) && t[1..1 + |d.files|] == FileVisits(d, path, names))
    && (exists names, ws :: Enumerates(names, d.dirs.Keys) && WalksOf(d, path, names, ws) && t[1 + |d.files|..] == Flatten(ws))
  }

  /** ws holds, in the order of names, a walk of each named subdirectory of
      d at Join(path, name). */
  ghost predicate WalksOf(d: Dir, path: string, names: seq<string>, ws: seq<seq<Visit>>)
    decreases d, 0
  {
    && |ws| == |names|
    && forall i :: 0 <= i < |names| ==>
         names[i] in d.dirs && IsWalk(d.dirs[names[i]], Paths.JoinPath([path, names[i]]), ws[i])
  }

  lemma WalksOfSnoc(d: Dir, path: string, names: seq<string>, ws: seq<seq<Visit>>, n: string, w: seq<Visit>)
    requires WalksOf(d, path, names, ws)
    requires n in d.dirs && IsWalk(d.dirs[n], Paths.JoinPath([path, n]), w)
    ensures WalksOf(d, path, names + [n], ws + [w])
  {
    var names', ws' := names + [n], ws + [w];
    forall i | 0 <= i < |names'|
      ensures names'[i] in d.dirs && IsWalk(d.dirs[names'[i]], Paths.JoinPath([path, names'[i]]), ws'[i])
    {
      if i < |names| {
        assert names'[i] == names[i] && ws'[i] == ws[i];
      }
    }
  }

  /** A walk of d at path makes exactly one visitor call per directory and
      per file of the tree. */
  lemma {:induction false} WalkCount(d: Dir, path: string, t: seq<Visit>)
    requires IsWalk(d, path, t)
    ensures |t| == Count(d)
    decreases d
  {
    var names, ws :| Enumerates(names, d.dirs.Keys) && WalksOf(d, path, names, ws) && t[1 + |d.files|..] == Flatten(ws);
    forall i | 0 <= i < |names| ensures names[i] in d.dirs && |ws[i]| == Count(d.dirs[names[i]]) {
      WalkCount(d.dirs[names[i]], Paths.JoinPath([path, names[i]]), ws[i]);
    }
    FlattenLength(d, names, ws);
    CountSeqIsCountIn(d, names, d.dirs.Keys);
  }

  /** The path a walk at `path` reports for the entry reached by `cs`. */
  function JoinAll(path: string, cs: seq<string>): string
    decreases |cs|
  {
    if cs == [] then path else JoinAll(Paths.JoinPath([path, cs[0]]), cs[1..])
  }

  lemma SuffixMember<T>(s: seq<T>, lo: nat, x: T)
    requires lo <= |s| && x in s[lo..]
    ensures x in s
  {
    var i :| 0 <= i < |s| - lo && s[lo..][i] == x;
    assert s[lo + i] == x;
  }

  /** Each file of d is visited at Join(path, name). */
  lemma FileVisited(d: Dir, path: string, t: seq<Visit>, c: string)
    requires IsWalk(d, path, t) && c in d.files
    ensures Visit(Paths.JoinPath([path, c]), FileEntry(d.files[c])) in t
  {
    var fnames :| Enumerates(fnames, d.files.Keys) && t[1..1 + |d.files|] == FileVisits(d, path, fnames);
    var j :| 0 <= j < |fnames| && fnames[j] == c;
    assert t[1 + j] == t[1..1 + |d.files|][j];
  }

  /** The subdirectory walks inside a walk, with the order they were taken in. */
  lemma WalkSplit(d: Dir, path: string, t: seq<Visit>) returns (names: seq<string>, ws: seq<seq<Visit>>)
    requires IsWalk(d, path, t)
    ensures 1 + |d.files| <= |t|
    ensures Enumerates(names, d.dirs.Keys) && WalksOf(d, path, names, ws) && t[1 + |d.files|..] == Flatten(ws)
  {
    names, ws :| Enumerates(names, d.dirs.Keys) && WalksOf(d, path, names, ws) && t[1 + |d.files|..] == Flatten(ws);
  }

  /** Each subdirectory of d is walked at Join(path, name) within t. */
  lemma SubWalk(d: Dir, path: string, t: seq<Visit>, c: string) returns (w: seq<Visit>)
    requires IsWalk(d, path, t) && c in d.dirs
    ensures IsWalk(d.dirs[c], Paths.JoinPath([path, c]), w)
    ensures forall x :: x in w ==> x in t
  {
    var off := 1 + |d.files|;
    var names, ws := WalkSplit(d, path, t);
    assert c in names;
    var j :| 0 <= j < |names| && names[j] == c;
    w := ws[j];
    forall x | x in w ensures x in t {
      FlattenMember(ws, j, x);
      SuffixMember(t, off, x);
    }
  }

  lemma {:induction false} FlattenMember(ws: seq<seq<Visit>>, j: nat, x: Visit)
    requires j < |ws| && x in ws[j]
    ensures x in Flatten(ws)
    decreases |ws|
  {
    if j < |ws| - 1 {
      FlattenMember(ws[..|ws| - 1], j, x);
      assert ws[..|ws| - 1][j] == ws[j];
    }
  }

  /** A walk visits everything Open can reach from its root: the entry that
      an element list resolves to is visited at the walk's root joined with
      those elements. */
  lemma {:induction false} WalkVisitsLookup(d: Dir, path: string, t: seq<Visit>, cs: seq<string>)
    requires IsWalk(d, path, t)
    requires |cs| >= 1 && Lookup(d, cs).Some?
    ensures Visit(JoinAll(path, cs), Lookup(d, cs).value) in t
    decreases |cs|
  {
    var c := cs[0];
    var sub := Paths.JoinPath([path, c]);
    if |cs| == 1 && c in d.files {
      FileVisited(d, path, t, c);
    } else {
      var w := SubWalk(d, path, t, c);
      if |cs| == 1 {
        assert w[0] in w;
      } else {
        WalkVisitsLookup(d.dirs[c], sub, w, cs[1..]);
      }
    }
  }

  /** (*dir).walk: the visitor on the directory, on each file, then the
      recursion into each subdirectory; visitor results are ignored and
      nothing can fail. Returns the visitor calls made, in order. */
  method WalkDir(d: Dir, path: string) returns (t: seq<Visit>)
    ensures IsWalk(d, path, t)
    decreases d, 1
  {
    t := [Visit(path, DirEntry(d))];
    ghost var fnames: seq<string> := [];
    var pending := d.files.Keys;
    while pending != {}
      invariant Progress(fnames, pending, d.files.Keys)
      invariant t == [Visit(path, DirEntry(d))] + FileVisits(d, path, fnames)
      decreases pending
    {
      var name :| name in pending;
      ProgressStep(fnames, pending, d.files.Keys, name);
      FileVisitsSnoc(d, path, fnames, name);
      t := t + [Visit(Paths.JoinPath([path, name]), FileEntry(d.files[name]))];
      fnames := fnames + [name];
      pending := pending - {name};
    }
    ProgressDone(fnames, d.files.Keys);
    var rest, dnames, ws := WalkSubdirs(d, path);
    t := t + rest;
    assert t[1..1 + |d.files|] == FileVisits(d, path, fnames);
    assert t[1 + |d.files|..] == Flatten(ws);
  }

  /** The second loop of (*dir).walk: the walk of each subdirectory of d,
      in some order, one after the other. */
  method WalkSubdirs(d: Dir, path: string) returns (rest: seq<Visit>, ghost dnames: seq<string>, ghost ws: seq<seq<Visit>>)
    ensures Enumerates(dnames, d.dirs.Keys) && WalksOf(d, path, dnames, ws) && rest == Flatten(ws)
    decreases d, 0
  {
    rest, dnames, ws := [], [], [];
    var subdirs := d.dirs.Keys;
    while subdirs != {}
      invariant Progress(dnames, subdirs, d.dirs.Keys)
      invariant WalksOf(d, path, dnames, ws)
      invariant rest == Flatten(ws)
      decreases subdirs
    {
      var name :| name in subdirs;
      ProgressStep(dnames, subdirs, d.dirs.Keys, name);
      var sub := WalkDir(d.dirs[name], Paths.JoinPath([path, name]));
      WalksOfSnoc(d, path, dnames, ws, name, sub);
      assert (ws + [sub])[..|ws|] == ws;
      rest, dnames, ws := rest + sub, dnames + [name], ws + [sub];
      subdirs := subdirs - {name};
    }
    ProgressDone(dnames, d.dirs.Keys);
  }

  /** (*dir).Walk: an Open error is returned unchanged and a file cannot be
      walked; in both cases the visitor is never called. A directory is
      walked at the path as given and the result is nil. */
  method Walk(d: Dir, path: string) returns (t: seq<Visit>, err: Option<Error>)
    ensures Resolve(d, path).Failure? ==> t == [] && err == Some(Resolve(d, path).error)
    ensures Resolve(d, path).Success? && Resolve(d, path).value.FileEntry? ==>
      t == [] && err == Some(PathError("walk", path, IsFile))
    ensures Resolve(d, path).Success? && Resolve(d, path).value.DirEntry? ==>
      err == None && IsWalk(Resolve(d, path).value.dir, path, t) && |t| == Count(Resolve(d, path).value.dir)
  {
    var target := Open(d, path);
    if target.Failure? {
      return [], Some(target.error);
    }
    if target.value.DirHandle? {
      t := WalkDir(target.value.dir, path);
      WalkCount(target.value.dir, path, t);
      return t, None;
    }
    return [], Some(PathError("walk", path, IsFile));
  }

  // ---------------------------------------------------------------------------
  // Readdir

  function FileEntries(d: Dir, names: seq<string>): (es: seq<Entry>)
    requires forall i :: 0 <= i < |names| ==> names[i] in d.files
    ensures |es| == |names|
  {
    seq(|names|, i requires 0 <= i < |names| => FileEntry(d.files[names[i]]))
  }

  function DirEntries(d: Dir, names: seq<string>): (es: seq<Entry>)
    requires forall i :: 0 <= i < |names| ==> names[i] in d.dirs
    ensures |es| == |names|
  {
    seq(|names|, i requires 0 <= i < |names| => DirEntry(d.dirs[names[i]]))
  }

  /** (*dir).Readdir ignores count and lists every file (in some order),
      then every subdirectory (in some order), and never fails. The ghost
      results name the order that was taken. */
  method Readdir(d: Dir, count: int)
    returns (entries: seq<Entry>, err: Option<Error>, ghost fileOrder: seq<string>, ghost dirOrder: seq<string>)
    ensures err == None
    ensures Enumerates(fileOrder, d.files.Keys) && Enumerates(dirOrder, d.dirs.Keys)
    ensures entries == FileEntries(d, fileOrder) + DirEntries(d, dirOrder)
    ensures |entries| == |d.files| + |d.dirs|
  {
    entries := [];
    fileOrder := [];
    var pending := d.files.Keys;
    while pending != {}
      invariant Progress(fileOrder, pending, d.files.Keys)
      invariant entries == FileEntries(d, fileOrder)
      decreases pending
    {
      var name :| name in pending;
      ProgressStep(fileOrder, pending, d.files.Keys, name);
      entries := entries + [FileEntry(d.files[name])];
      fileOrder := fileOrder + [name];
      pending := pending - {name};
    }
    ProgressDone(fileOrder, d.files.Keys);
    ghost var head := entries;
    dirOrder := [];
    var subdirs := d.dirs.Keys;
    while subdirs != {}
      invariant Progress(dirOrder, subdirs, d.dirs.Keys)
      invariant entries == head + DirEntries(d, dirOrder)
      decreases subdirs
    {
      var name :| name in subdirs;
      ProgressStep(dirOrder, subdirs, d.dirs.Keys, name);
      entries := entries + [DirEntry(d.dirs[name])];
      dirOrder := dirOrder + [name];
      subdirs := subdirs - {name};
    }
    ProgressDone(dirOrder, d.dirs.Keys);
    err := None;
  }
}
