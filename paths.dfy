/** Slash-separated path strings, with the separator fixed to '/'.

    `Split` and `Join` are Go's `strings.Split(s, "/")` and `strings.Join`;
    `Clean` and `JoinPath` follow the lexical rules documented for Go's
    `path/filepath.Clean` and `filepath.Join`:
      1. replace multiple separators by one;
      2. eliminate each `.` element;
      3. eliminate each inner `..` together with the non-`..` element before it;
      4. eliminate `..` elements that begin a rooted path;
    and return "." (or "/" for a rooted path) when nothing is left.
 */
module Paths {

  const Sep: char := '/'

  /** strings.Join(elems, sep) */
  function Join(elems: seq<string>, sep: string): string
  {
    if elems == [] then ""
    else if |elems| == 1 then elems[0]
    else elems[0] + sep + Join(elems[1..], sep)
  }

  /** strings.Split(s, "/"): the text between separators; never empty. */
  function Split(s: string): (parts: seq<string>)
    ensures |parts| >= 1
    ensures forall i :: 0 <= i < |parts| ==> Sep !in parts[i]
    decreases |s|
  {
    if s == [] then [""]
    else
      var rest := Split(s[1..]);
      if s[0] == Sep then [""] + rest
      else [[s[0]] + rest[0]] + rest[1..]
  }

  /** Splitting and re-joining with the separator gives the string back. */
  lemma {:induction false} SplitJoin(s: string)
    ensures Join(Split(s), [Sep]) == s
    decreases |s|
  {
    if s != [] {
      var rest := Split(s[1..]);
      SplitJoin(s[1..]);
      if s[0] == Sep {
        assert ([""] + rest)[1..] == rest;
      } else {
        var parts := [[s[0]] + rest[0]] + rest[1..];
        assert parts[1..] == rest[1..];
        if |rest| > 1 {
          assert Join(rest, [Sep]) == rest[0] + [Sep] + Join(rest[1..], [Sep]);
        }
      }
    }
  }

  lemma {:induction false} SplitNoSep(a: string)
    requires Sep !in a
    ensures Split(a) == [a]
    decreases |a|
  {
    if a != [] {
      SplitNoSep(a[1..]);
      assert [a[0]] + a[1..] == a;
    }
  }

  lemma {:induction false} SplitAtSep(a: string, r: string)
    requires Sep !in a
    ensures Split(a + [Sep] + r) == [a] + Split(r)
    decreases |a|
  {
    var s := a + [Sep] + r;
    if a == [] {
      assert s[1..] == r;
    } else {
      assert s[1..] == a[1..] + [Sep] + r;
      SplitAtSep(a[1..], r);
      assert [a[0]] + a[1..] == a;
    }
  }

  /** Joining separator-free components and splitting again gives them back. */
  lemma {:induction false} JoinSplit(cs: seq<string>)
    requires |cs| >= 1
    requires forall i :: 0 <= i < |cs| ==> Sep !in cs[i]
    ensures Split(Join(cs, [Sep])) == cs
    decreases |cs|
  {
    if |cs| == 1 {
      SplitNoSep(cs[0]);
    } else {
      JoinSplit(cs[1..]);
      SplitAtSep(cs[0], Join(cs[1..], [Sep]));
    }
  }

  /** A joined list starts with the first character of its first element. */
  lemma {:induction false} JoinHead(cs: seq<string>, sep: string)
    requires |cs| >= 1 && cs[0] != ""
    ensures Join(cs, sep) != "" && Join(cs, sep)[0] == cs[0][0]
  {
  }

  /** A component left by Clean: non-empty, not ".", no separator. */
  predicate Proper(c: string)
  {
    c != "" && c != "." && Sep !in c
  }

  predicate IsRooted(p: string)
  {
    |p| > 0 && p[0] == Sep
  }

  /** Rules 1-4 over the split components, with a stack of kept elements.
      A `..` pops the last kept element unless there is none or it is itself
      a `..`; then it is dropped in a rooted path and kept otherwise. */
  function Eliminate(rooted: bool, stack: seq<string>, parts: seq<string>): seq<string>
    decreases |parts|
  {
    if parts == [] then stack
    else
      var c, rest := parts[0], parts[1..];
      if c == "" || c == "." then Eliminate(rooted, stack, rest)
      else if c == ".." then
        if stack != [] && stack[|stack| - 1] != ".." then Eliminate(rooted, stack[..|stack| - 1], rest)
        else if rooted then Eliminate(rooted, stack, rest)
        else Eliminate(rooted, stack + [".."], rest)
      else Eliminate(rooted, stack + [c], rest)
  }

  /** Every kept element is proper, and a rooted path keeps no `..`. */
  predicate Kept(rooted: bool, cs: seq<string>)
  {
    forall i :: 0 <= i < |cs| ==> Proper(cs[i]) && (rooted ==> cs[i] != "..")
  }

  lemma {:induction false} EliminateProper(rooted: bool, stack: seq<string>, parts: seq<string>)
    requires Kept(rooted, stack)
    requires forall i :: 0 <= i < |parts| ==> Sep !in parts[i]
    ensures Kept(rooted, Eliminate(rooted, stack, parts))
    decreases |parts|
  {
    if parts != [] {
      var c, rest := parts[0], parts[1..];
      assert forall i :: 0 <= i < |rest| ==> Sep !in rest[i] by {
        forall i | 0 <= i < |rest| ensures Sep !in rest[i] { assert rest[i] == parts[i + 1]; }
      }
      if c == "" || c == "." {
        EliminateProper(rooted, stack, rest);
      } else if c == ".." {
        if stack != [] && stack[|stack| - 1] != ".." {
          EliminateProper(rooted, stack[..|stack| - 1], rest);
        } else if rooted {
          EliminateProper(rooted, stack, rest);
        } else {
          EliminateProper(rooted, stack + [".."], rest);
        }
      } else {
        assert Sep !in parts[0];
        EliminateProper(rooted, stack + [c], rest);
      }
    }
  }

  /** The elements of the cleaned path. */
  function CleanParts(p: string): (cs: seq<string>)
    ensures forall i :: 0 <= i < |cs| ==> Proper(cs[i]) && (IsRooted(p) ==> cs[i] != "..")
  {
    EliminateProper(IsRooted(p), [], Split(p));
    Eliminate(IsRooted(p), [], Split(p))
  }

  /** filepath.Clean */
  function Clean(p: string): (c: string)
    ensures c != ""
  {
    var cs := CleanParts(p);
    if IsRooted(p) then [Sep] + Join(cs, [Sep])
    else if cs == [] then "."
    else
      JoinHead(cs, [Sep]);
      Join(cs, [Sep])
  }

  /** strings.TrimLeft(s, "/") */
  function TrimLeftSep(s: string): (t: string)
    ensures t == [] || t[0] != Sep
    decreases |s|
  {
    if s != [] && s[0] == Sep then TrimLeftSep(s[1..]) else s
  }

  /** filepath.Join: the elements from the first non-empty one on, joined
      with the separator and cleaned; "" when every element is empty. */
  function JoinPath(elems: seq<string>): (r: string)
    ensures r == "" <==> forall i :: 0 <= i < |elems| ==> elems[i] == ""
  {
    if elems == [] then ""
    else if elems[0] != "" then Clean(Join(elems, [Sep]))
    else JoinPath(elems[1..])
  }

  /** What `strings.TrimLeft(filepath.Clean(p), "/")` leaves: "" exactly for a
      path that cleans to "/", "." exactly for a relative path with no
      element left, and otherwise the cleaned elements joined, which split
      back into exactly those elements. */
  lemma TrimmedClean(p: string)
    ensures var cs, q := CleanParts(p), TrimLeftSep(Clean(p));
      && (q == "" <==> Clean(p) == [Sep])
      && (q == "" <==> IsRooted(p) && cs == [])
      && (q == "." <==> !IsRooted(p) && cs == [])
      && (q == ".." <==> cs == [".."])
      && (cs != [] ==> q == Join(cs, [Sep]) && Split(q) == cs)
  {
    var cs := CleanParts(p);
    if cs != [] {
      var j := Join(cs, [Sep]);
      JoinHead(cs, [Sep]);
      JoinSplit(cs);
      if IsRooted(p) {
        assert Clean(p) == [Sep] + j;
        assert ([Sep] + j)[1..] == j;
      }
      assert TrimLeftSep(Clean(p)) == j;
      SplitNoSep(".");
      SplitNoSep("..");
    }
  }

  /** Joining two non-empty lists is joining each and putting a separator between. */
  lemma {:induction false} JoinConcat(a: seq<string>, b: seq<string>, sep: string)
    requires a != [] && b != []
    ensures Join(a + b, sep) == Join(a, sep) + sep + Join(b, sep)
    decreases |a|
  {
    if |a| == 1 {
      assert (a + b)[1..] == b;
    } else {
      assert (a + b)[1..] == a[1..] + b;
      JoinConcat(a[1..], b, sep);
    }
  }

  /** No ordinary element comes before a "..": the shape of a cleaned
      relative path. */
  predicate DotDotFirst(cs: seq<string>)
  {
    forall i, j :: 0 <= i < j < |cs| && cs[j] == ".." ==> cs[i] == ".."
  }

  lemma {:induction false} EliminateDotDotFirst(rooted: bool, stack: seq<string>, parts: seq<string>)
    requires DotDotFirst(stack)
    ensures DotDotFirst(Eliminate(rooted, stack, parts))
    decreases |parts|
  {
    if parts != [] {
      var c, rest := parts[0], parts[1..];
      if c == "" || c == "." {
        EliminateDotDotFirst(rooted, stack, rest);
      } else if c == ".." {
        if stack != [] && stack[|stack| - 1] != ".." {
          EliminateDotDotFirst(rooted, stack[..|stack| - 1], rest);
        } else if rooted {
          EliminateDotDotFirst(rooted, stack, rest);
        } else {
          EliminateDotDotFirst(rooted, stack + [".."], rest);
        }
      } else {
        EliminateDotDotFirst(rooted, stack + [c], rest);
      }
    }
  }

  /** Elements already in cleaned shape pass through the elimination unchanged. */
  lemma {:induction false} EliminateNormal(stack: seq<string>, parts: seq<string>)
    requires forall i :: 0 <= i < |parts| ==> Proper(parts[i])
    requires DotDotFirst(stack + parts)
    ensures Eliminate(false, stack, parts) == stack + parts
    decreases |parts|
  {
    if parts != [] {
      var c := parts[0];
      if c == ".." {
        assert forall i :: 0 <= i < |stack| ==> stack[i] == (stack + parts)[i];
        assert (stack + parts)[|stack|] == "..";
      }
      assert stack + [c] + parts[1..] == stack + parts;
      EliminateNormal(stack + [c], parts[1..]);
    }
  }

  /** The elements Clean keeps are in cleaned shape. */
  lemma CleanPartsDotDotFirst(p: string)
    ensures DotDotFirst(CleanParts(p))
  {
    EliminateDotDotFirst(IsRooted(p), [], Split(p));
  }

  /** A relative path whose elements are in cleaned shape is already clean. */
  lemma CleanJoined(cs: seq<string>)
    requires cs != []
    requires forall i :: 0 <= i < |cs| ==> Proper(cs[i])
    requires DotDotFirst(cs)
    ensures Clean(Join(cs, [Sep])) == Join(cs, [Sep])
  {
    var p := Join(cs, [Sep]);
    JoinHead(cs, [Sep]);
    assert !IsRooted(p);
    JoinSplit(cs);
    assert [] + cs == cs;
    EliminateNormal([], cs);
    assert CleanParts(p) == cs;
  }
}
