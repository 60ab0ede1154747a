/** The composition wrappers of package vfs: a fallback chain over an ordered
    list of backends, a view of a backend rooted at a sub-path, and the
    visitor wrapper that strips a root prefix from the paths a walk reports.

    A backend is abstracted to what these wrappers can observe of it: what its
    `Open` returns for a name, and, for a walk from a root with a given
    visitor, the paths it handed to the visitor (in order) and the error it
    returned. `F` stands for an opened file, `V` for a visitor.
 */
module Vfs {
  import opened Base
  import Paths
  import MemFS

  /** The (http.File, error) pair returned by Open; `file` is None for nil. */
  datatype Opened<F> = Opened(file: Option<F>, err: Option<Error>)

  /** What one Walk call did: the visitor calls it made, by path, and its result. */
  datatype Walked = Walked(visited: seq<string>, err: Option<Error>)

  /** The FileSystem interface: Open and Walk. */
  datatype FileSystem<F, !V> = FileSystem(open: string -> Opened<F>, walk: (string, V) -> Walked)

  // ---------------------------------------------------------------------------
  // fallbackFS.Open

  /** fallbackFS.Open as a function of the backend list: the first result with
      a nil error, else the last result; (nil, nil) for an empty list. */
  function FallbackOpenResult<F, V>(fss: seq<FileSystem<F, V>>, name: string): Opened<F>
  {
    if fss == [] then Opened(None, None)
    else
      var o := fss[0].open(name);
      if o.err.None? || |fss| == 1 then o else FallbackOpenResult(fss[1..], name)
  }

  /** fallbackFS.Open: tries each backend in ascending index order and stops
      at the first that opens without error. */
  method FallbackOpen<F, V>(fss: seq<FileSystem<F, V>>, name: string) returns (r: Opened<F>)
    ensures r == FallbackOpenResult(fss, name)
  {
    r := Opened(None, None);
    var i := 0;
    while i < |fss|
      invariant 0 <= i <= |fss|
      invariant i == 0 ==> r == Opened(None, None)
      invariant 0 < i ==> r == fss[i - 1].open(name) && r.err.Some?
      invariant 0 < i < |fss| ==> FallbackOpenResult(fss, name) == FallbackOpenResult(fss[i..], name)
      invariant 0 < i == |fss| ==> FallbackOpenResult(fss, name) == r
    {
      ghost var tail := FallbackOpenResult(fss[i..], name);
      r := fss[i].open(name);
      if r.err == None {
        assert tail == r;
        break;
      }
      if i + 1 < |fss| {
        assert fss[i..][1..] == fss[i + 1..];
      }
      i := i + 1;
    }
  }

  /** The outcome of the fallback Open: when some backend opens the name, the
      first such backend's result (earlier backends all failed); otherwise
      the last backend's failure; and (nil, nil) for no backends. */
  lemma {:induction false} FallbackOpenOutcome<F, V>(fss: seq<FileSystem<F, V>>, name: string, k: nat)
    requires k <= |fss|
    requires forall j :: 0 <= j < k ==> fss[j].open(name).err.Some?
    ensures k < |fss| && fss[k].open(name).err.None? ==> FallbackOpenResult(fss, name) == fss[k].open(name)
    ensures k == |fss| ==> FallbackOpenResult(fss, name) == if fss == [] then Opened(None, None) else fss[|fss| - 1].open(name)
    decreases k
  {
    if k > 0 {
      if |fss| > 1 {
        forall j | 0 <= j < k - 1 ensures fss[1..][j].open(name).err.Some? {
          assert fss[1..][j] == fss[j + 1];
        }
        FallbackOpenOutcome(fss[1..], name, k - 1);
      }
    }
  }

  // ---------------------------------------------------------------------------
  // fallbackFS.Walk

  /** fallbackFS.Walk as a function of the backend list, branch for branch:
      nil ends the chain; an error that os.IsNotExist accepts moves on to the
      next backend; a *os.PathError whose wrapped error is not-exist at the
      root itself moves on too; anything else is returned. The visitor calls
      of every backend tried accumulate. An exhausted list gives nil. */
  function FallbackWalkResult<F, V>(fss: seq<FileSystem<F, V>>, root: string, v: V): (r: Walked)
  {
    if fss == [] then Walked([], None)
    else
      var w := fss[0].walk(root, v);
      if w.err.None? then Walked(w.visited, None)
      else
        var e := w.err.value;
        var rootMissing := match e
          case PathError(_, path, kind) => kind == NotExist && path == root
          case Plain(_) => false;
        if IsNotExist(e) || rootMissing then
          var rest := FallbackWalkResult(fss[1..], root, v);
          Walked(w.visited + rest.visited, rest.err)
        else Walked(w.visited, w.err)
  }

  /** fallbackFS.Walk: tries each backend's Walk in ascending index order
      with the same root and visitor. */
  method FallbackWalk<F, V>(fss: seq<FileSystem<F, V>>, root: string, v: V) returns (err: Option<Error>, ghost visited: seq<string>)
    ensures Walked(visited, err) == FallbackWalkResult(fss, root, v)
  {
    visited := [];
    var i := 0;
    while i < |fss|
      invariant 0 <= i <= |fss|
      invariant FallbackWalkResult(fss, root, v)
             == var rest := FallbackWalkResult(fss[i..], root, v); Walked(visited + rest.visited, rest.err)
    {
      var w := fss[i].walk(root, v);
      visited := visited + w.visited;
      assert fss[i..][1..] == fss[i + 1..];
      if w.err == None {
        return None, visited;
      }
      if IsNotExist(w.err.value) {
        i := i + 1;
        continue;
      }
      match w.err.value {
        case PathError(_, path, kind) =>
          if kind == NotExist && path == root {
            // Unreachable: os.IsNotExist has already accepted this error.
            assert false;
            i := i + 1;
            continue;
          }
        case Plain(_) =>
      }
      return w.err, visited;
    }
    assert fss[i..] == [];
    return None, visited;
  }

  /** The visitor calls of the first k backends' walks, one after the other. */
  function Visits<F, V>(fss: seq<FileSystem<F, V>>, root: string, v: V, k: nat): seq<string>
    requires k <= |fss|
  {
    if k == 0 then [] else Visits(fss, root, v, k - 1) + fss[k - 1].walk(root, v).visited
  }

  /** Without the `pe.Path == root` test: an error os.IsNotExist accepts moves
      on, anything else non-nil is returned. */
  function FallbackWalkPlain<F, V>(fss: seq<FileSystem<F, V>>, root: string, v: V): Walked
  {
    if fss == [] then Walked([], None)
    else
      var w := fss[0].walk(root, v);
      if IsNotExistErr(w.err) then
        var rest := FallbackWalkPlain(fss[1..], root, v);
        Walked(w.visited + rest.visited, rest.err)
      else w
  }

  /** The *os.PathError branch never changes the outcome: os.IsNotExist
      already accepts a PathError wrapping not-exist, whatever its path. */
  lemma {:induction false} PathBranchIsDead<F, V>(fss: seq<FileSystem<F, V>>, root: string, v: V)
    ensures FallbackWalkResult(fss, root, v) == FallbackWalkPlain(fss, root, v)
    decreases |fss|
  {
    if fss != [] {
      PathBranchIsDead(fss[1..], root, v);
    }
  }

  /** Suppose the first k backends all returned a not-exist error. If backend
      k returns nil or any other error, the chain returns exactly that, after
      the visitor calls of backends 0..k; if k is the end of the list, the
      chain returns nil after all of them. */
  lemma {:induction false} FallbackWalkOutcome<F, V>(fss: seq<FileSystem<F, V>>, root: string, v: V, k: nat)
    requires k <= |fss|
    requires forall j :: 0 <= j < k ==> IsNotExistErr(fss[j].walk(root, v).err)
    ensures k < |fss| && !IsNotExistErr(fss[k].walk(root, v).err)
      ==> FallbackWalkResult(fss, root, v) == Walked(Visits(fss, root, v, k + 1), fss[k].walk(root, v).err)
    ensures k == |fss| ==> FallbackWalkResult(fss, root, v) == Walked(Visits(fss, root, v, k), None)
  {
    PathBranchIsDead(fss, root, v);
    PlainOutcome(fss, root, v, k);
  }

  lemma {:induction false} PlainOutcome<F, V>(fss: seq<FileSystem<F, V>>, root: string, v: V, k: nat)
    requires k <= |fss|
    requires forall j :: 0 <= j < k ==> IsNotExistErr(fss[j].walk(root, v).err)
    ensures k < |fss| && !IsNotExistErr(fss[k].walk(root, v).err)
      ==> FallbackWalkPlain(fss, root, v) == Walked(Visits(fss, root, v, k + 1), fss[k].walk(root, v).err)
    ensures k == |fss| ==> FallbackWalkPlain(fss, root, v) == Walked(Visits(fss, root, v, k), None)
    decreases k
  {
    if fss != [] && k > 0 {
      var w := fss[0].walk(root, v);
      forall j | 0 <= j < k - 1 ensures IsNotExistErr(fss[1..][j].walk(root, v).err) {
        assert fss[1..][j] == fss[j + 1];
      }
      PlainOutcome(fss[1..], root, v, k - 1);
      VisitsShift(fss, root, v, k - 1);
      if k < |fss| {
        VisitsShift(fss, root, v, k);
      }
    }
  }

  /** The visits of backends 0..k+1 are those of backend 0, then those of
      backends 1..k+1. */
  lemma {:induction false} VisitsShift<F, V>(fss: seq<FileSystem<F, V>>, root: string, v: V, k: nat)
    requires k < |fss|
    ensures Visits(fss, root, v, k + 1) == fss[0].walk(root, v).visited + Visits(fss[1..], root, v, k)
    decreases k
  {
    if k > 0 {
      VisitsShift(fss, root, v, k - 1);
      assert fss[1..][k - 1] == fss[k];
    }
  }

  // ---------------------------------------------------------------------------
  // The rule stated by the doc comment of fallbackFS.Walk

  /** The spellings under which a backend may report its root: as given,
      or cleaned with the leading separator removed, which is how the
      in-memory filesystem names it (MemFS.Normalize). */
  predicate NamesRoot(p: string, root: string)
  {
    p == root || p == Paths.TrimLeftSep(Paths.Clean(root))
  }

  /** "root not found" in the sense of the comments: a PathError reporting
      that the root path itself does not exist. A bare not-exist error says
      nothing about where the walk stopped, so it is passed down. */
  predicate RootNotFound(e: Option<Error>, root: string)
  {
    e.Some? && e.value.PathError? && e.value.kind == NotExist && NamesRoot(e.value.path, root)
  }

  /** Every failure of the in-memory filesystem to open a walk root is
      recognised as the root not being found. */
  lemma MemRootMissingRecognised(d: MemFS.Dir, root: string)
    requires MemFS.Resolve(d, root).Failure?
    ensures RootNotFound(Some(MemFS.Resolve(d, root).error), root)
  {
  }

  /** fallbackFS.Walk as its doc comment describes it: move on to the next
      backend only when the root was not found; return every other error
      immediately. */
  function FallbackWalkIntended<F, V>(fss: seq<FileSystem<F, V>>, root: string, v: V): (r: Walked)
  {
    if fss == [] then Walked([], None)
    else
      var w := fss[0].walk(root, v);
      if RootNotFound(w.err, root) then
        var rest := FallbackWalkIntended(fss[1..], root, v);
        Walked(w.visited + rest.visited, rest.err)
      else w
  }

  /** With the intended rule, and backends that call the visitor nothing
      before reporting that the root is missing (a failed open of the root
      means nothing was walked yet), the visitor sees the calls
      of exactly one backend (or none at all): nothing is walked twice. */
  lemma {:induction false} IntendedWalksOneBackend<F, V>(fss: seq<FileSystem<F, V>>, root: string, v: V)
    requires forall i :: 0 <= i < |fss| && RootNotFound(fss[i].walk(root, v).err, root) ==> fss[i].walk(root, v).visited == []
    ensures var r := FallbackWalkIntended(fss, root, v);
      r.visited == [] || exists i :: 0 <= i < |fss| && r == fss[i].walk(root, v)
    decreases |fss|
  {
    if fss != [] {
      var w := fss[0].walk(root, v);
      if RootNotFound(w.err, root) {
        forall i | 0 <= i < |fss[1..]| && RootNotFound(fss[1..][i].walk(root, v).err, root)
          ensures fss[1..][i].walk(root, v).visited == []
        {
          assert fss[1..][i] == fss[i + 1];
        }
        IntendedWalksOneBackend(fss[1..], root, v);
        var r := FallbackWalkIntended(fss[1..], root, v);
        assert w.visited + r.visited == r.visited;
        if r.visited != [] {
          var i :| 0 <= i < |fss[1..]| && r == fss[1..][i].walk(root, v);
          assert fss[1..][i] == fss[i + 1];
        }
      } else {
        assert FallbackWalkIntended(fss, root, v) == fss[0].walk(root, v);
      }
    }
  }

  /** Under the intended rule a PathError naming another path (a not-exist
      error below the root, say) is returned and no later backend is
      walked. */
  lemma IntendedStopsBelowRoot<F, V>(fss: seq<FileSystem<F, V>>, root: string, v: V)
    requires fss != []
    requires var e := fss[0].walk(root, v).err; e.Some? && e.value.PathError? && !NamesRoot(e.value.path, root)
    ensures FallbackWalkIntended(fss, root, v) == fss[0].walk(root, v)
  {
  }

  /** Under the intended rule a bare error, not-exist included, is returned
      and no later backend is walked. */
  lemma IntendedStopsOnBareError<F, V>(fss: seq<FileSystem<F, V>>, root: string, v: V)
    requires fss != []
    requires fss[0].walk(root, v).err.Some? && fss[0].walk(root, v).err.value.Plain?
    ensures FallbackWalkIntended(fss, root, v) == fss[0].walk(root, v)
  {
  }

  /** As written, the same situation falls back: backend A calls the visitor
      on "dir" and then fails with not-exist on "dir/b.txt"; backend B then
      walks "dir" again, so the visitor sees "dir" twice. */
  lemma RewalkAsWritten()
    ensures var a: FileSystem<int, int> := FileSystem(
              _ => Opened(None, None),
              (root, v) => Walked(["dir"], Some(PathError("lstat", "dir/b.txt", NotExist))));
            var b: FileSystem<int, int> := FileSystem(
              _ => Opened(None, None),
              (root, v) => Walked(["dir", "dir/a.txt"], None));
            && FallbackWalkResult([a, b], "dir", 0) == Walked(["dir", "dir", "dir/a.txt"], None)
            && FallbackWalkIntended([a, b], "dir", 0) == Walked(["dir"], Some(PathError("lstat", "dir/b.txt", NotExist)))
  {
    var a: FileSystem<int, int> := FileSystem(
      _ => Opened(None, None),
      (root, v) => Walked(["dir"], Some(PathError("lstat", "dir/b.txt", NotExist))));
    var b: FileSystem<int, int> := FileSystem(
      _ => Opened(None, None),
      (root, v) => Walked(["dir", "dir/a.txt"], None));
    assert [a, b][1..] == [b];
    assert [b][1..] == [];
  }

  /** The intended rule falls back when the in-memory filesystem reports its
      root missing under the cleaned name: the root "/x" is opened as "x". */
  lemma IntendedFallsBackOnCleanedRoot()
    ensures var a: FileSystem<int, int> := FileSystem(
              _ => Opened(None, None),
              (root, v) => Walked([], Some(PathError("open", "x", NotExist))));
            var b: FileSystem<int, int> := FileSystem(
              _ => Opened(None, None),
              (root, v) => Walked(["/x"], None));
            FallbackWalkIntended([a, b], "/x", 0) == Walked(["/x"], None)
  {
    var a: FileSystem<int, int> := FileSystem(
      _ => Opened(None, None),
      (root, v) => Walked([], Some(PathError("open", "x", NotExist))));
    var b: FileSystem<int, int> := FileSystem(
      _ => Opened(None, None),
      (root, v) => Walked(["/x"], None));
    assert Paths.Split("x") == ["x"] by {
      assert "x"[1..] == "" && Paths.Split("") == [""];
      assert ['x'] + "" == "x";
    }
    assert Paths.Split("/x") == ["", "x"] by { assert "/x"[1..] == "x"; }
    assert Paths.CleanParts("/x") == ["x"] by {
      assert ["", "x"][1..] == ["x"] && ["x"][1..] == [];
    }
    assert Paths.Clean("/x") == "/x";
    assert Paths.TrimLeftSep("/x") == "x" by { assert "/x"[1..] == "x"; }
    assert [a, b][1..] == [b];
    assert [b][1..] == [];
  }

  // ---------------------------------------------------------------------------
  // Fallback

  /** Fallback(fs...): the chain as a FileSystem value. */
  function Fallback<F, V(!new)>(fss: seq<FileSystem<F, V>>): (fs: FileSystem<F, V>)
    ensures forall name :: fs.open(name) == FallbackOpenResult(fss, name)
    ensures forall root, v :: fs.walk(root, v) == FallbackWalkResult(fss, root, v)
  {
    FileSystem(name => FallbackOpenResult(fss, name), (root, v) => FallbackWalkResult(fss, root, v))
  }

  /** A chain of one backend opens as that backend does. */
  lemma FallbackOfOne<F, V(!new)>(fs: FileSystem<F, V>, name: string)
    ensures Fallback([fs]).open(name) == fs.open(name)
  {
  }

  /** Nesting chains flattens them for Open, as long as the inner chain in
      front is not empty (an empty chain opens to (nil, nil), which ends the
      outer chain). */
  lemma {:induction false} FallbackOpenFlattens<F, V(!new)>(a: seq<FileSystem<F, V>>, b: seq<FileSystem<F, V>>, name: string)
    requires a != [] && b != []
    ensures FallbackOpenResult([Fallback(a), Fallback(b)], name) == FallbackOpenResult(a + b, name)
    decreases |a|
  {
    var o := a[0].open(name);
    assert (a + b)[0] == a[0];
    if |a| == 1 {
      assert (a + b)[1..] == b;
    } else {
      assert (a + b)[1..] == a[1..] + b;
      FallbackOpenFlattens(a[1..], b, name);
    }
  }

  // ---------------------------------------------------------------------------
  // Subdir

  /** Subdir(fs, path): Open and Walk join the name onto path with
      filepath.Join and delegate; construction checks nothing. */
  function Subdir<F, V(!new)>(fs: FileSystem<F, V>, path: string): (sub: FileSystem<F, V>)
    ensures forall name :: sub.open(name) == fs.open(Paths.JoinPath([path, name]))
    ensures forall root, v :: sub.walk(root, v) == fs.walk(Paths.JoinPath([path, root]), v)
  {
    FileSystem(name => fs.open(Paths.JoinPath([path, name])), (root, v) => fs.walk(Paths.JoinPath([path, root]), v))
  }

  /** With a clean relative prefix and a clean relative name (both made of
      ordinary elements), the subdir view opens exactly the joined elements,
      without any rewriting. */
  lemma SubdirOpensJoined<F, V(!new)>(fs: FileSystem<F, V>, ps: seq<string>, ns: seq<string>, v: V)
    requires ps != [] && ns != []
    requires forall i :: 0 <= i < |ps| ==> Paths.Proper(ps[i]) && ps[i] != ".."
    requires forall i :: 0 <= i < |ns| ==> Paths.Proper(ns[i]) && ns[i] != ".."
    ensures Subdir(fs, Paths.Join(ps, "/")).open(Paths.Join(ns, "/")) == fs.open(Paths.Join(ps + ns, "/"))
    ensures Subdir(fs, Paths.Join(ps, "/")).walk(Paths.Join(ns, "/"), v) == fs.walk(Paths.Join(ps + ns, "/"), v)
  {
    var p, n := Paths.Join(ps, "/"), Paths.Join(ns, "/");
    Paths.JoinHead(ps, "/");
    assert Paths.Join([p, n], "/") == p + "/" + n;
    Paths.JoinConcat(ps, ns, "/");
    Paths.CleanJoined(ps + ns);
  }

  /** The subdir view at "" delegates the cleaned name. */
  lemma SubdirOfEmpty<F, V(!new)>(fs: FileSystem<F, V>, name: string)
    requires name != ""
    ensures Subdir(fs, "").open(name) == fs.open(Paths.Clean(name))
  {
    assert ["", name][1..] == [name];
    assert Paths.JoinPath(["", name]) == Paths.JoinPath([name]) == Paths.Clean(name);
  }

  // ---------------------------------------------------------------------------
  // stripPrefixWalkFunc

  /** One call of the wrapped visitor: the path handed to the inner visitor
      (None when it was not called) and the error returned. */
  datatype Step = Step(forwarded: Option<string>, result: Option<Error>)

  /** stripPrefixWalkFunc(f, prefix) applied to (path, info, err). `rel` is
      filepath.Rel, which is not part of this model; `f` is the inner visitor
      as a function of (path, info, err). */
  function StripPrefixWalkFunc<I>(f: (string, I, Option<Error>) -> Option<Error>, rel: (string, string) -> Result<string>,
                                  prefix: string, path: string, info: I, err: Option<Error>): (s: Step)
    ensures err.Some? ==> s == Step(None, err)
    ensures s.forwarded.Some? <==> err.None? && rel(prefix, Paths.Clean(path)).Success?
    ensures s.forwarded.Some? ==> s.forwarded.value == rel(prefix, Paths.Clean(path)).value && s.result == f(s.forwarded.value, info, None)
    ensures err.None? && rel(prefix, Paths.Clean(path)).Failure? ==> s.result == Some(rel(prefix, Paths.Clean(path)).error)
  {
    if err.Some? then Step(None, err)
    else
      match rel(prefix, Paths.Clean(path))
      case Failure(e) => Step(None, Some(e))
      case Success(p) => Step(Some(p), f(p, info, None))
  }
}
