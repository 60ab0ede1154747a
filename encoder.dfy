/** The generator command of package bindata: it emits Go source that
    registers each asset file, with the file's bytes written as the body of
    a Go interpreted string literal ("String literals" and "Rune literals"
    in The Go Programming Language Specification).

    Modelled here: the byte escaper behind `stringEncoder.Write`, the
    pattern list check `matchList`, and the `filepath.Join(...)` expression
    built from the components of the cleaned path. A decoder of interpreted
    string-literal bodies is defined so that the escaper can be proved
    against it.
 */
module BindataCmd {
  import opened Base
  import Paths

  const Newline: byte := 10
  const Quote: byte := 34
  const Backslash: byte := 92

  /** The bytes written unescaped: 0x20 up to and excluding 0x7F. */
  predicate Printable(b: int)
  {
    0x20 <= b < 0x7F
  }

  predicate IsLowerHex(c: byte)
  {
    '0' as byte <= c <= '9' as byte || 'a' as byte <= c <= 'f' as byte
  }

  /** The value of a hexadecimal digit of either case, -1 for any other byte. */
  function HexValue(c: byte): int
  {
    if '0' as byte <= c <= '9' as byte then c - '0' as byte
    else if 'a' as byte <= c <= 'f' as byte then c - 'a' as byte + 10
    else if 'A' as byte <= c <= 'F' as byte then c - 'A' as byte + 10
    else -1
  }

  /** The lowercase digit %x prints for d. */
  function HexDigit(d: int): (c: byte)
    requires 0 <= d < 16
    ensures IsLowerHex(c) && HexValue(c) == d
  {
    if d < 10 then '0' as byte + d else 'a' as byte + d - 10
  }

  // ---------------------------------------------------------------------------
  // Escaping

  /** The text the loop body of stringEncoder.Write writes for one byte. */
  function EscapeByte(b: byte): (r: seq<byte>)
    ensures b == Newline ==> r == [Backslash, 'n' as byte]
    ensures b == Backslash ==> r == [Backslash, Backslash]
    ensures b == Quote ==> r == [Backslash, Quote]
    ensures b != Backslash && b != Quote && Printable(b) ==> r == [b]
    ensures b != Newline && !Printable(b) ==>
      && |r| == 4 && r[0] == Backslash && r[1] == 'x' as byte
      && IsLowerHex(r[2]) && IsLowerHex(r[3]) && HexValue(r[2]) * 16 + HexValue(r[3]) == b
    ensures forall i :: 0 <= i < |r| ==> Printable(r[i])
  {
    if b == Newline then [Backslash, 'n' as byte]
    else if b == Backslash then [Backslash, Backslash]
    else if b == Quote then [Backslash, Quote]
    else if Printable(b) then [b]
    else [Backslash, 'x' as byte, HexDigit(b / 16), HexDigit(b % 16)]
  }

  /** What stringEncoder.Write writes for p, byte after byte: only printable
      bytes, at least one and at most four per input byte. */
  function Encode(p: seq<byte>): (r: seq<byte>)
    ensures forall i :: 0 <= i < |r| ==> Printable(r[i])
    ensures |p| <= |r| <= 4 * |p|
  {
    if p == [] then [] else EscapeByte(p[0]) + Encode(p[1..])
  }

  /** Encoding works byte by byte, so a write split anywhere (at a buffer
      boundary, say) produces the same text. */
  lemma {:induction false} EncodeAppend(a: seq<byte>, b: seq<byte>)
    ensures Encode(a + b) == Encode(a) + Encode(b)
    decreases |a|
  {
    if a != [] {
      assert (a + b)[0] == a[0] && (a + b)[1..] == a[1..] + b;
      EncodeAppend(a[1..], b);
      assert Encode(a + b) == EscapeByte(a[0]) + (Encode(a[1..]) + Encode(b));
    } else {
      assert a + b == b;
    }
  }

  /** One more input byte adds its own escape at the end. */
  lemma EncodeSnoc(p: seq<byte>, i: nat)
    requires i < |p|
    ensures Encode(p[..i + 1]) == Encode(p[..i]) + EscapeByte(p[i])
  {
    EncodeAppend(p[..i], [p[i]]);
    assert p[..i + 1] == p[..i] + [p[i]];
    assert Encode([p[i]]) == EscapeByte(p[i]);
  }

  // ---------------------------------------------------------------------------
  // Decoding an interpreted string-literal body

  /** The byte a single-character escape \c stands for. */
  function SimpleEscape(c: byte): Option<byte>
  {
    if c == 'a' as byte then Some(7)
    else if c == 'b' as byte then Some(8)
    else if c == 'f' as byte then Some(12)
    else if c == 'n' as byte then Some(10)
    else if c == 'r' as byte then Some(13)
    else if c == 't' as byte then Some(9)
    else if c == 'v' as byte then Some(11)
    else if c == Backslash then Some(Backslash)
    else if c == Quote then Some(Quote)
    else None
  }

  predicate IsOctal(c: byte)
  {
    '0' as byte <= c <= '7' as byte
  }

  /** The first character of a literal body (not its closing quote) as the
      byte it stands for and the number of source bytes it spans. None for a
      raw newline, a byte outside ASCII, or a malformed escape. */
  function DecodeUnit(s: seq<byte>): (u: Option<(byte, nat)>)
    ensures u.Some? ==> 1 <= u.value.1 <= |s|
  {
    if s == [] || s[0] == Quote || s[0] == Newline || s[0] >= 0x80 then None
    else if s[0] != Backslash then Some((s[0], 1))
    else if |s| < 2 then None
    else
      var c := s[1];
      if SimpleEscape(c).Some? then Some((SimpleEscape(c).value, 2))
      else if |s| < 4 then None
      else if c == 'x' as byte then
        if HexValue(s[2]) >= 0 && HexValue(s[3]) >= 0 then Some((HexValue(s[2]) * 16 + HexValue(s[3]), 4)) else None
      else if IsOctal(c) && IsOctal(s[2]) && IsOctal(s[3]) then
        var v := (c - '0' as byte) * 64 + (s[2] - '0' as byte) * 8 + (s[3] - '0' as byte);
        if v < 256 then Some((v, 4)) else None
      else None
  }

  /** Reads a literal body up to its closing quote: the bytes it stands for
      and the position of that quote; None when the body is malformed or
      never closed. */
  function Unquote(s: seq<byte>): (r: Option<(seq<byte>, nat)>)
    ensures r.Some? ==> r.value.1 < |s| && s[r.value.1] == Quote
    decreases |s|
  {
    if s == [] then None
    else if s[0] == Quote then Some(([], 0))
    else
      match DecodeUnit(s)
      case None => None
      case Some((b, k)) =>
        match Unquote(s[k..])
        case None => None
        case Some((rest, end)) => Some(([b] + rest, k + end))
  }

  /** The escape of one byte reads back as that byte. */
  lemma EscapeDecodes(b: byte, rest: seq<byte>)
    ensures DecodeUnit(EscapeByte(b) + rest) == Some((b, |EscapeByte(b)|))
  {
    var s := EscapeByte(b) + rest;
    if b != Newline && b != Backslash && b != Quote && !Printable(b) {
      assert s[1] == 'x' as byte && s[2] == HexDigit(b / 16) && s[3] == HexDigit(b % 16);
    }
  }

  /** Unquote reads one unit, then the rest after it. */
  lemma UnquoteStep(s: seq<byte>, b: byte, k: nat, rest: seq<byte>, end: nat)
    requires s != [] && s[0] != Quote && DecodeUnit(s) == Some((b, k))
    requires Unquote(s[k..]) == Some((rest, end))
    ensures Unquote(s) == Some(([b] + rest, k + end))
  {
  }

  /** Round trip: the emitted literal body, followed by the closing quote
      that addFile writes, reads back as exactly the input bytes and ends at
      that quote, so no input can end the literal early or break it. */
  lemma {:induction false} EncodeRoundTrip(p: seq<byte>, tail: seq<byte>)
    ensures Unquote(Encode(p) + [Quote] + tail) == Some((p, |Encode(p)|))
    decreases |p|
  {
    var s := Encode(p) + [Quote] + tail;
    if p != [] {
      var e := EscapeByte(p[0]);
      var rest := Encode(p[1..]) + [Quote] + tail;
      assert s == e + rest;
      EscapeDecodes(p[0], rest);
      assert s[|e|..] == rest;
      EncodeRoundTrip(p[1..], tail);
      assert s[0] == e[0] && e[0] != Quote;
      UnquoteStep(s, p[0], |e|, p[1..], |Encode(p[1..])|);
      assert [p[0]] + p[1..] == p;
    }
  }

  // ---------------------------------------------------------------------------
  // The writers

  /** A bufio.Writer: the bytes it has accepted (buffered or passed on) and
      its sticky error. Whether the wrapped io.Writer fails is outside the
      model, so every write and flush may fail, once. */
  class BufWriter {
    var written: seq<byte>
    var err: Option<Error>

    constructor ()
      ensures written == [] && err == None
    {
      written, err := [], None;
    }

    /** Write/WriteString/WriteByte: after an earlier failure, nothing is
        accepted and that failure is returned again; otherwise all of s is
        accepted, or only a prefix of it when the wrapped writer fails. */
    method WriteBytes(s: seq<byte>) returns (e: Option<Error>, ghost accepted: nat)
      modifies this
      ensures e == err && accepted <= |s| && written == old(written) + s[..accepted]
      ensures old(err).Some? ==> e == old(err) && accepted == 0
      ensures e.None? ==> accepted == |s|
    {
      if err.Some? {
        return err, 0;
      }
      var fails: bool :| true;
      if fails {
        var taken: nat :| taken <= |s|;
        var code: int :| true;
        written, accepted := written + s[..taken], taken;
        err := Some(Plain(Other(code)));
      } else {
        accepted := |s|;
        written := written + s;
      }
      return err, accepted;
    }

    /** Flush passes the buffered bytes on; it fails with the sticky error,
        or with a new failure of the wrapped writer. */
    method Flush() returns (e: Option<Error>)
      modifies this
      ensures written == old(written) && e == err
      ensures old(err).Some? ==> e == old(err)
    {
      if err.None? {
        var fails: bool :| true;
        if fails {
          var code: int :| true;
          err := Some(Plain(Other(code)));
        }
      }
      return err;
    }
  }

  /** stringEncoder: an io.Writer that escapes what it is given into w. */
  class StringEncoder {
    const w: BufWriter

    constructor (w: BufWriter)
      ensures this.w == w
    {
      this.w := w;
    }

    /** stringEncoder.Write: writes the escape of each byte in turn. When
        every write succeeds it returns len(p) and the error of the final
        Flush, having written Encode(p). At the first failed write (the
        ghost k says which byte) it returns 0 and that error, having
        written the escapes of the bytes before it and the first m bytes of
        its own. */
    method Write(p: seq<byte>) returns (n: int, err: Option<Error>, ghost k: nat, ghost m: nat)
      modifies w
      ensures k <= |p|
      ensures k == |p| ==> n == |p| && w.written == old(w.written) + Encode(p) && err == w.err
      ensures k < |p| ==> n == 0 && err.Some? && err == w.err
      ensures k < |p| ==> m <= |EscapeByte(p[k])| && w.written == old(w.written) + Encode(p[..k]) + EscapeByte(p[k])[..m]
      ensures old(w.err).Some? ==> err == old(w.err) && w.written == old(w.written)
    {
      var i := 0;
      while i < |p|
        invariant i <= |p|
        invariant w.written == old(w.written) + Encode(p[..i])
        invariant 0 < i ==> w.err.None? && old(w.err).None?
        invariant i == 0 ==> w.err == old(w.err)
      {
        EncodeSnoc(p, i);
        var e;
        e, m := w.WriteBytes(EscapeByte(p[i]));
        if e.Some? {
          return 0, e, i, m;
        }
        i := i + 1;
      }
      assert p[..i] == p;
      k, m := i, 0;
      err := w.Flush();
      n := |p|;
    }
  }

  // ---------------------------------------------------------------------------
  // matchList

  /** matchList: whether some pattern matches the name. `matches` is
      filepath.Match, which is not part of this model; a malformed pattern
      (an error result) counts as no match. */
  method MatchList(name: string, patterns: seq<string>, matches: (string, string) -> Result<bool>) returns (matched: bool)
    ensures matched <==> exists i :: 0 <= i < |patterns| && matches(patterns[i], name) == Success(true)
  {
    if |patterns| == 0 {
      return false;
    }
    for i := 0 to |patterns|
      invariant forall j :: 0 <= j < i ==> matches(patterns[j], name) != Success(true)
    {
      var m := matches(patterns[i], name);
      if m.Success? && m.value {
        return true;
      }
    }
    return false;
  }

  // ---------------------------------------------------------------------------
  // The path expression of addFile

  /** Each component quoted. */
  function QuoteAll(cs: seq<string>, quote: string -> string): (qs: seq<string>)
    ensures |qs| == |cs| && forall i :: 0 <= i < |cs| ==> qs[i] == quote(cs[i])
  {
    seq(|cs|, i requires 0 <= i < |cs| => quote(cs[i]))
  }

  /** The `filepath.Join(...)` expression addFile emits for p: the
      components of the cleaned path, each quoted (`quote` is strconv.Quote,
      which is not part of this model), in order, separated by ", ". The
      components are overwritten in place, as in the source. */
  method JoinExpr(p: string, quote: string -> string) returns (expr: string)
    ensures expr == "filepath.Join(" + Paths.Join(QuoteAll(Paths.Split(Paths.Clean(p)), quote), ", ") + ")"
  {
    var parts := Paths.Split(Paths.Clean(p));
    var pc := new string[|parts|](i requires 0 <= i < |parts| => parts[i]);
    for i := 0 to pc.Length
      invariant forall j :: 0 <= j < i ==> pc[j] == quote(parts[j])
      invariant forall j :: i <= j < pc.Length ==> pc[j] == parts[j]
    {
      pc[i] := quote(pc[i]);
    }
    assert pc[..] == QuoteAll(parts, quote);
    expr := "filepath.Join(" + Paths.Join(pc[..], ", ") + ")";
  }

  /** The components quoted into the expression are the cleaned path's own:
      joined with the separator they give the cleaned path back, and
      filepath.Join over them (what the emitted expression evaluates to)
      gives the cleaned path without its leading separator, which is the
      form the in-memory filesystem looks paths up by. */
  lemma JoinExprComponents(p: string)
    ensures Paths.Join(Paths.Split(Paths.Clean(p)), "/") == Paths.Clean(p)
    ensures Paths.JoinPath(Paths.Split(Paths.Clean(p))) == Paths.TrimLeftSep(Paths.Clean(p))
  {
    Paths.SplitJoin(Paths.Clean(p));
    Paths.TrimmedClean(p);
    var cs := Paths.CleanParts(p);
    Paths.CleanPartsDotDotFirst(p);
    if Paths.IsRooted(p) {
      var j := Paths.Join(cs, "/");
      Paths.SplitAtSep("", j);
      assert Paths.Clean(p) == "" + "/" + j;
      if cs == [] {
        assert Paths.Split("") == [""];
        assert Paths.Split(Paths.Clean(p)) == ["", ""];
        assert ["", ""][1..] == [""];
        assert [""][1..] == [];
      } else {
        Paths.JoinSplit(cs);
        assert Paths.Split(Paths.Clean(p)) == [""] + cs;
        assert ([""] + cs)[1..] == cs;
        Paths.JoinHead(cs, "/");
        Paths.CleanJoined(cs);
      }
    } else if cs == [] {
      Paths.SplitNoSep(".");
      assert Paths.Join(["."], "/") == ".";
      assert Paths.CleanParts(".") == [];
    } else {
      Paths.JoinSplit(cs);
      Paths.JoinHead(cs, "/");
      Paths.CleanJoined(cs);
    }
  }
}
