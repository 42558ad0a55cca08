/** Netpbm (PGM) readers and writers over whole file contents: the ASCII
    and binary layouts, the magic-number classification and the PGMIO
    dispatch. A file is its text; a file that cannot be opened is None. */
module NetpbmIO {
  import opened Wrappers
  import opened Grid
  import opened Decimal
  import opened NetpbmHeader

  /** The class a reader or writer belongs to decides its exception type:
      NetpbmIOBase throws NetpbmIOException, PGMIO throws IOException. */
  datatype Family = NetpbmBase | PgmClass

  function OpenError(family: Family, msg: string): Error {
    if family == NetpbmBase then NetpbmIOException(msg) else IOException(msg)
  }

  const WriteFailMsg := "Could not open file for writing binary"
  const AsciiOpenMsg := "Could not open ascii file for reading"
  const BinaryOpenMsg := "Could not open binary file for reading"

  datatype PType = BINARY | ASCII | UNKNOWN

  /** The first token of the file, read into an empty word. */
  function Magic(text: string): string {
    Extract(text, "").0
  }

  /** PGMIO::determine_file_type (PgmIO.cpp lines 9-25). */
  function PgmType(file: Option<string>): (r: Result<PType>)
    ensures file.None? <==> r.Failure?
    ensures file.None? ==> r.error == IOException("Could not open file to determine file type")
    ensures file.Some? ==> r.value == (if Magic(file.value) == "P5" then BINARY
                                       else if Magic(file.value) == "P2" then ASCII else UNKNOWN)
  {
    match file
    case None => Failure(IOException("Could not open file to determine file type"))
    case Some(text) =>
      var t := Magic(text);
      Success(if "P5" == t then BINARY else if "P2" == t then ASCII else UNKNOWN)
  }

  /** PpmIO::determine_file_type (PpmIO.cpp lines 9-25). */
  function PpmType(file: Option<string>): (r: Result<PType>)
    ensures file.None? <==> r.Failure?
    ensures file.None? ==> r.error == NetpbmIOException("Could not open file to determine file type")
    ensures file.Some? ==> r.value == (if Magic(file.value) == "P6" then BINARY
                                       else if Magic(file.value) == "P3" then ASCII else UNKNOWN)
  {
    match file
    case None => Failure(NetpbmIOException("Could not open file to determine file type"))
    case Some(text) =>
      var t := Magic(text);
      Success(if "P6" == t then BINARY else if "P3" == t then ASCII else UNKNOWN)
  }

  /** The magic is read as a whole token t after leading whitespace: "P5"
      is binary, "P2" ASCII for a PGM file ("P6" and "P3" for PPM), and any
      other token, such as "P55", neither. */
  lemma MagicClassified(ws: string, t: string, rest: string)
    requires AllSpace(ws) && t != [] && NoSpace(t) && (rest == [] || IsSpace(rest[0]))
    ensures PgmType(Some(ws + t + rest)) == Success(if t == "P5" then BINARY else if t == "P2" then ASCII else UNKNOWN)
    ensures PpmType(Some(ws + t + rest)) == Success(if t == "P6" then BINARY else if t == "P3" then ASCII else UNKNOWN)
  {
    ExtractToken(ws, t, rest, "");
  }

  function CellText(v: nat): string {
    IntToString(v) + " "
  }

  /** Values as write_ascii prints them, each followed by a space. */
  function Spaced(vals: seq<nat>): string {
    if vals == [] then "" else CellText(vals[0]) + Spaced(vals[1..])
  }

  /** Rows printed one per line. */
  function Block(rs: seq<seq<nat>>): string {
    if rs == [] then "" else Spaced(rs[0]) + "\n" + Block(rs[1..])
  }

  /** The rows run together, as the row-major buffer holds them. */
  function Flatten(rs: seq<seq<nat>>): seq<nat> {
    if rs == [] then [] else rs[0] + Flatten(rs[1..])
  }

  /** Row i of a matrix. */
  function RowOf(mat: Matrix<nat>, i: nat): (r: seq<nat>)
    requires mat.Valid() && i < mat.rows
    ensures |r| == mat.cols && forall j :: 0 <= j < mat.cols ==> r[j] == mat.At(i, j)
  {
    MulStep(i, mat.cols);
    MulLeq(i + 1, mat.rows, mat.cols);
    mat.data[i * mat.cols .. i * mat.cols + mat.cols]
  }

  /** The rows of a matrix, top to bottom. */
  function Rows(mat: Matrix<nat>): (rs: seq<seq<nat>>)
    requires mat.Valid()
    ensures |rs| == mat.rows && forall i :: 0 <= i < mat.rows ==> rs[i] == RowOf(mat, i)
  {
    seq(mat.rows, i requires 0 <= i < mat.rows => RowOf(mat, i))
  }

  /** The whole file write_ascii produces for a matrix of a type whose
      largest value is maxT: the header, then each row on a line of its
      own, each value followed by a space. */
  function AsciiText(mat: Matrix<nat>, maxT: nat): string
    requires mat.Valid()
  {
    HeaderText("P2", mat.rows, mat.cols, maxT) + Block(Rows(mat))
  }

  lemma TakeMore<T>(s: seq<T>, i: nat)
    requires i < |s|
    ensures s[..i + 1] == s[..i] + [s[i]]
  {
  }

  lemma StoreMore<T>(s: seq<T>, i: nat, x: T)
    requires i < |s|
    ensures s[i := x][..i + 1] == s[..i] + [x]
  {
  }

  lemma Associate(a: string, b: string, c: string)
    ensures a + (b + c) == a + b + c
  {
  }

  lemma {:induction false} SpacedSnoc(vals: seq<nat>, v: nat)
    ensures Spaced(vals + [v]) == Spaced(vals) + CellText(v)
    decreases |vals|
  {
    if vals == [] {
      assert [] + [v] == [v];
    } else {
      assert (vals + [v])[1..] == vals[1..] + [v];
      SpacedSnoc(vals[1..], v);
      Associate(CellText(vals[0]), Spaced(vals[1..]), CellText(v));
    }
  }

  lemma {:induction false} BlockSnoc(rs: seq<seq<nat>>, r: seq<nat>)
    ensures Block(rs + [r]) == Block(rs) + (Spaced(r) + "\n")
    decreases |rs|
  {
    if rs == [] {
      assert [] + [r] == [r];
    } else {
      var line, more, last := Spaced(rs[0]) + "\n", rs[1..], Spaced(r) + "\n";
      assert Block(rs + [r]) == line + Block(more + [r]) by {
        assert (rs + [r])[0] == rs[0] && (rs + [r])[1..] == more + [r];
      }
      BlockSnoc(more, r);
      Associate(line, Block(more), last);
    }
  }

  /** One row of write_ascii's output. */
  method WriteRow(mat: Matrix<nat>, i: nat) returns (line: string)
    requires mat.Valid() && i < mat.rows
    ensures line == Spaced(RowOf(mat, i))
  {
    line := "";
    ghost var row := RowOf(mat, i);
    for j := 0 to mat.cols
      invariant line == Spaced(row[..j])
    {
      var v := mat.At(i, j);
      TakeMore(row, j);
      SpacedSnoc(row[..j], v);
      line := line + CellText(v);
    }
    assert row[..mat.cols] == row;
  }

  /** write_ascii (NetpbmIOBase.hpp lines 114-134, PGMIO.hpp lines
      163-183): the header, then the values row by row. */
  method WriteAscii(mat: Matrix<nat>, maxT: nat, canOpen: bool, family: Family) returns (r: Result<string>)
    requires mat.Valid()
    ensures r == if canOpen then Success(AsciiText(mat, maxT)) else Failure(OpenError(family, WriteFailMsg))
  {
    if !canOpen {
      return Failure(OpenError(family, WriteFailMsg));
    }
    var header := HeaderText("P2", mat.rows, mat.cols, maxT);
    var body := "";
    ghost var rows := Rows(mat);
    for i := 0 to mat.rows
      invariant body == Block(rows[..i])
    {
      var line := WriteRow(mat, i);
      TakeMore(rows, i);
      BlockSnoc(rows[..i], rows[i]);
      body := body + (line + "\n");
    }
    assert rows[..mat.rows] == rows;
    r := Success(header + body);
  }

  /** The conversion T(v) of an unsigned long to an unsigned T whose largest
      value is maxT: the value modulo maxT + 1. */
  function Narrow(v: nat, maxT: nat): (t: nat)
    ensures t <= maxT
    ensures v <= maxT ==> t == v
  {
    v % (maxT + 1)
  }

  /** read_ascii's loop as a function: n tokens, each converted by stoul
      and narrowed to T. */
  function AsciiValues(s: string, word: string, n: nat, maxT: nat): (r: Result<seq<nat>>)
    ensures r.Success? ==> |r.value| == n
  {
    if n == 0 then Success([])
    else
      var next := Extract(s, word);
      var v := Stoul(next.0);
      if v.Failure? then Failure(v.error)
      else
        var vs := AsciiValues(next.1, next.0, n - 1, maxT);
        if vs.Failure? then vs else Success([Narrow(v.value, maxT)] + vs.value)
  }

  /** Values read before a read that goes on with r. */
  function Prepend(done: seq<nat>, r: Result<seq<nat>>): Result<seq<nat>> {
    if r.Failure? then r else Success(done + r.value)
  }

  lemma PrependNothing(r: Result<seq<nat>>)
    ensures Prepend([], r) == r
  {
    if r.Success? {
      assert [] + r.value == r.value;
    }
  }

  lemma PrependTwice(a: seq<nat>, b: seq<nat>, r: Result<seq<nat>>)
    ensures Prepend(a, Prepend(b, r)) == Prepend(a + b, r)
  {
    if r.Success? {
      assert a + (b + r.value) == a + b + r.value;
    }
  }

  /** One round of read_ascii's loop: a token stoul rejects ends the read
      with its error, ... */
  lemma AsciiStepFails(s: string, word: string, n: nat, maxT: nat, next: (string, string), v: Result<nat>)
    requires n > 0 && next == Extract(s, word) && v == Stoul(next.0) && v.Failure?
    ensures AsciiValues(s, word, n, maxT) == Failure(v.error)
  {
  }

  /** ... and a token it accepts gives the next value. */
  lemma AsciiStepReads(s: string, word: string, n: nat, maxT: nat, next: (string, string), v: Result<nat>)
    requires n > 0 && next == Extract(s, word) && v == Stoul(next.0) && v.Success?
    ensures AsciiValues(s, word, n, maxT) == Prepend([Narrow(v.value, maxT)], AsciiValues(next.1, next.0, n - 1, maxT))
  {
  }

  /** The element count of the matrix a header describes. */
  function Area(h: Header): nat {
    h.height * h.width
  }

  /** What read_ascii returns. */
  function ReadAsciiSpec(file: Option<string>, maxT: nat, family: Family): (r: Result<Matrix<nat>>)
    ensures r.Success? ==> r.value.Valid()
  {
    if file.None? then Failure(OpenError(family, AsciiOpenMsg))
    else
      var header := HeaderSpec(file.value);
      if header.Failure? then Failure(header.error)
      else
        var h := header.value.0;
        var vs := AsciiValues(header.value.1, "", Area(h), maxT);
        if vs.Failure? then Failure(vs.error) else Success(Matrix(h.height, h.width, vs.value))
  }

  /** read_ascii (NetpbmIOBase.hpp lines 70-90, PGMIO.hpp lines 119-139). */
  method ReadAscii(file: Option<string>, maxT: nat, family: Family) returns (r: Result<Matrix<nat>>)
    ensures r == ReadAsciiSpec(file, maxT, family)
  {
    if file.None? {
      return Failure(OpenError(family, AsciiOpenMsg));
    }
    var header := ProcessHeader(file.value);
    if header.Failure? {
      return Failure(header.error);
    }
    var h, rest := header.value.0, header.value.1;
    var vs := ReadValues(rest, Area(h), maxT);
    if vs.Failure? {
      return Failure(vs.error);
    }
    r := Success(Matrix(h.height, h.width, vs.value));
  }

  /** read_ascii's loop: n tokens into the matrix buffer. */
  method ReadValues(s: string, n: nat, maxT: nat) returns (r: Result<seq<nat>>)
    ensures r == AsciiValues(s, "", n, maxT)
  {
    ghost var all := AsciiValues(s, "", n, maxT);
    var data := new nat[n];
    var rest, pixval := s, "";
    PrependNothing(all);
    for i := 0 to n
      invariant all == Prepend(data[..i], AsciiValues(rest, pixval, n - i, maxT))
    {
      var v, next := ReadToken(rest, pixval, n - i, maxT);
      if v.Failure? {
        return Failure(v.error);
      }
      PrependTwice(data[..i], [v.value], AsciiValues(next.1, next.0, n - i - 1, maxT));
      StoreMore(data[..], i, v.value);
      data[i] := v.value;
      pixval, rest := next.0, next.1;
    }
    assert data[..n] + [] == data[..];
    r := Success(data[..]);
  }

  /** One round of read_ascii's loop: the next token, converted by stoul
      and narrowed to T. */
  method ReadToken(s: string, word: string, k: nat, maxT: nat) returns (v: Result<nat>, next: (string, string))
    requires k > 0
    ensures v.Failure? ==> AsciiValues(s, word, k, maxT) == Failure(v.error)
    ensures v.Success? ==> AsciiValues(s, word, k, maxT) == Prepend([v.value], AsciiValues(next.1, next.0, k - 1, maxT))
  {
    next := Extract(s, word);
    var u := Stoul(next.0);
    if u.Failure? {
      AsciiStepFails(s, word, k, maxT, next, u);
      return Failure(u.error), next;
    }
    AsciiStepReads(s, word, k, maxT, next, u);
    v := Success(Narrow(u.value, maxT));
  }

  // ------------------------------------------------- ASCII round trip

  /** Values all of which fit in T. */
  predicate Fits(vals: seq<nat>, maxT: nat) {
    forall k :: 0 <= k < |vals| ==> vals[k] <= maxT
  }

  /** The values as write_ascii prints them, one token each. */
  function Tokens(vals: seq<nat>): (toks: seq<string>)
    ensures |toks| == |vals|
  {
    seq(|vals|, i requires 0 <= i < |vals| => IntToString(vals[i]))
  }

  /** Tokens, each followed by its own separator. */
  function Layout(toks: seq<string>, seps: seq<string>): string
    requires |toks| == |seps|
  {
    if toks == [] then "" else toks[0] + seps[0] + Layout(toks[1..], seps[1..])
  }

  /** t is one token that stoul reads as v, a value that fits in T. */
  predicate ReadsAs(t: string, v: nat, maxT: nat) {
    t != [] && NoSpace(t) && Stoul(t) == Success(v) && v <= maxT
  }

  /** Every separator is whitespace, and not empty. */
  predicate Separators(seps: seq<string>) {
    forall i :: 0 <= i < |seps| ==> seps[i] != [] && AllSpace(seps[i])
  }

  /** A printed value that fits in T reads back as itself. */
  lemma PrintedReadsAs(v: nat, maxT: nat)
    requires v <= maxT <= ULongMax
    ensures ReadsAs(IntToString(v), v, maxT)
  {
    DigitsNoSpace(v);
    StoulOfDigits(v, []);
    assert Digits(v) + [] == Digits(v);
  }

  /** One token after whitespace, with whitespace after it, is the next value read. */
  lemma TokenReadBack(ws: string, t: string, v: nat, after: string, word: string, k: nat, maxT: nat)
    requires AllSpace(ws) && ReadsAs(t, v, maxT) && after != [] && IsSpace(after[0])
    ensures AsciiValues(ws + t + after, word, k + 1, maxT) == Prepend([v], AsciiValues(after, t, k, maxT))
  {
    ExtractToken(ws, t, after, word);
    AsciiStepReads(ws + t + after, word, k + 1, maxT, (t, after), Success(v));
  }

  lemma Uncons<T>(s: seq<T>)
    requires s != []
    ensures s == [s[0]] + s[1..]
  {
  }

  /** read_ascii, asked for as many values as there are tokens, reads the
      tokens of a layout back one by one. */
  lemma {:induction false} LayoutReadBack(toks: seq<string>, seps: seq<string>, vals: seq<nat>, ws: string, word: string, maxT: nat)
    requires |toks| == |seps| == |vals| && AllSpace(ws) && Separators(seps)
    requires forall i :: 0 <= i < |vals| ==> ReadsAs(toks[i], vals[i], maxT)
    ensures AsciiValues(ws + Layout(toks, seps), word, |vals|, maxT) == Success(vals)
    decreases |vals|
  {
    if vals != [] {
      var after := seps[0] + Layout(toks[1..], seps[1..]);
      ghost var whole := AsciiValues(ws + Layout(toks, seps), word, |vals|, maxT);
      ghost var others := AsciiValues(after, toks[0], |vals| - 1, maxT);
      assert whole == Prepend([vals[0]], others) by {
        assert ws + Layout(toks, seps) == ws + toks[0] + after;
        TokenReadBack(ws, toks[0], vals[0], after, word, |vals| - 1, maxT);
      }
      assert others == Success(vals[1..]) by {
        forall i | 0 <= i < |vals| - 1 ensures ReadsAs(toks[1..][i], vals[1..][i], maxT) {
          assert toks[1..][i] == toks[i + 1] && vals[1..][i] == vals[i + 1];
        }
        assert Separators(seps[1..]) by {
          forall i | 0 <= i < |seps| - 1 ensures seps[1..][i] != [] && AllSpace(seps[1..][i]) {
            assert seps[1..][i] == seps[i + 1];
          }
        }
        LayoutReadBack(toks[1..], seps[1..], vals[1..], seps[0], toks[0], maxT);
      }
      Uncons(vals);
    }
  }

  /** The separators after the values of a row of n values: a space after
      each, and the newline after the last. */
  function RowSeps(n: nat): (seps: seq<string>)
    ensures |seps| == n
  {
    if n == 0 then [] else if n == 1 then [" \n"] else [" "] + RowSeps(n - 1)
  }

  /** The separators of rows printed one per line. */
  function BlockSeps(rs: seq<seq<nat>>): (seps: seq<string>)
    ensures |seps| == |Flatten(rs)|
  {
    if rs == [] then [] else RowSeps(|rs[0]|) + BlockSeps(rs[1..])
  }

  lemma {:induction false} RowSepsSpace(n: nat)
    ensures Separators(RowSeps(n))
  {
    if n > 1 {
      RowSepsSpace(n - 1);
      assert forall i :: 1 <= i < n ==> RowSeps(n)[i] == RowSeps(n - 1)[i - 1];
    }
  }

  lemma {:induction false} BlockSepsSpace(rs: seq<seq<nat>>)
    ensures Separators(BlockSeps(rs))
    decreases |rs|
  {
    if rs != [] {
      RowSepsSpace(|rs[0]|);
      BlockSepsSpace(rs[1..]);
      var a, b := RowSeps(|rs[0]|), BlockSeps(rs[1..]);
      assert forall i :: |a| <= i < |a| + |b| ==> (a + b)[i] == b[i - |a|];
    }
  }

  lemma TokensAppend(a: seq<nat>, b: seq<nat>)
    ensures Tokens(a + b) == Tokens(a) + Tokens(b)
  {
  }

  lemma TokensTail(a: seq<nat>)
    requires a != []
    ensures Tokens(a)[0] == IntToString(a[0]) && Tokens(a)[1..] == Tokens(a[1..])
  {
    var t, u := Tokens(a)[1..], Tokens(a[1..]);
    assert |t| == |u|;
    forall i | 0 <= i < |t| ensures t[i] == u[i] {
      assert t[i] == Tokens(a)[i + 1] == IntToString(a[i + 1]);
    }
  }

  /** Layout of two runs of tokens, one after the other. */
  lemma {:induction false} LayoutAppend(a: seq<string>, sa: seq<string>, b: seq<string>, sb: seq<string>)
    requires |a| == |sa| && |b| == |sb|
    ensures Layout(a + b, sa + sb) == Layout(a, sa) + Layout(b, sb)
    decreases |a|
  {
    if a == [] {
      assert a + b == b && sa + sb == sb;
    } else {
      assert (a + b)[1..] == a[1..] + b && (sa + sb)[1..] == sa[1..] + sb;
      LayoutAppend(a[1..], sa[1..], b, sb);
    }
  }

  /** A row as write_ascii prints it, line end included, is its layout. */
  lemma {:induction false} RowLayout(r: seq<nat>)
    requires r != []
    ensures Spaced(r) + "\n" == Layout(Tokens(r), RowSeps(|r|))
    decreases |r|
  {
    TokensTail(r);
    if |r| == 1 {
      assert Spaced(r) == IntToString(r[0]) + " ";
    } else {
      RowLayout(r[1..]);
      assert RowSeps(|r|)[1..] == RowSeps(|r| - 1);
    }
  }

  /** Rows of values, none of them empty, as write_ascii prints them are
      the layout of the buffer. */
  lemma {:induction false} BlockLayout(rs: seq<seq<nat>>)
    requires forall i :: 0 <= i < |rs| ==> rs[i] != []
    ensures Block(rs) == Layout(Tokens(Flatten(rs)), BlockSeps(rs))
    decreases |rs|
  {
    if rs == [] {
    } else {
      RowLayout(rs[0]);
      assert forall i :: 0 <= i < |rs| - 1 ==> rs[1..][i] == rs[i + 1];
      BlockLayout(rs[1..]);
      TokensAppend(rs[0], Flatten(rs[1..]));
      LayoutAppend(Tokens(rs[0]), RowSeps(|rs[0]|), Tokens(Flatten(rs[1..])), BlockSeps(rs[1..]));
    }
  }

  /** The rows, run together, are the buffer. */
  lemma {:induction false} RowsFlatten(mat: Matrix<nat>, i: nat, base: nat)
    requires mat.Valid() && i <= mat.rows && base == i * mat.cols
    ensures base <= |mat.data| && Flatten(Rows(mat)[i..]) == mat.data[base..]
    decreases mat.rows - i
  {
    MulLeq(i, mat.rows, mat.cols);
    if i < mat.rows {
      MulStep(i, mat.cols);
      RowsFlatten(mat, i + 1, base + mat.cols);
      assert Rows(mat)[i..][1..] == Rows(mat)[i + 1..];
      assert mat.data[base..] == mat.data[base..base + mat.cols] + mat.data[base + mat.cols..];
    } else {
      assert mat.data[base..] == [];
    }
  }

  /** read_ascii's loop reads the rows write_ascii printed back as the buffer. */
  lemma BodyReadBack(mat: Matrix<nat>, maxT: nat)
    requires mat.Valid() && maxT <= ULongMax
    requires forall e :: 0 <= e < |mat.data| ==> mat.data[e] <= maxT
    ensures AsciiValues("\n" + Block(Rows(mat)), "", |mat.data|, maxT) == Success(mat.data)
  {
    var rs := Rows(mat);
    RowsFlatten(mat, 0, 0);
    assert rs[0..] == rs && mat.data[0..] == mat.data;
    if |mat.data| > 0 {
      assert mat.cols > 0;
      BlockLayout(rs);
      BlockSepsSpace(rs);
      forall e | 0 <= e < |mat.data| ensures ReadsAs(Tokens(mat.data)[e], mat.data[e], maxT) {
        PrintedReadsAs(mat.data[e], maxT);
      }
      LayoutReadBack(Tokens(mat.data), BlockSeps(rs), mat.data, "\n", "", maxT);
    }
  }

  /** Round trip: read_ascii on the file write_ascii wrote gives back the
      matrix, for values that fit in T and dims that fit in unsigned long. */
  lemma AsciiRoundTrip(mat: Matrix<nat>, maxT: nat, family: Family)
    requires mat.Valid() && maxT <= ULongMax && mat.rows <= ULongMax && mat.cols <= ULongMax
    requires forall e :: 0 <= e < |mat.data| ==> mat.data[e] <= maxT
    ensures ReadAsciiSpec(Some(AsciiText(mat, maxT)), maxT, family) == Success(mat)
  {
    HeaderRoundTrip("P2", mat.rows, mat.cols, maxT, Block(Rows(mat)));
    assert Area(Header(mat.rows, mat.cols, maxT)) == |mat.data|;
    BodyReadBack(mat, maxT);
  }

  // ------------------------------------------------- binary layout
  // Binary bodies are modelled for one-byte unsigned element types (maxT at
  // most 255): each element is one byte of the file, a character whose code
  // is that byte.

  /** A file character as the byte it stands for. */
  function ByteOf(c: char): nat {
    (c as int) % 256
  }

  /** The element bytes write_binary appends after the header. */
  function RawBytes(vals: seq<nat>, maxT: nat): (s: string)
    requires maxT <= 255 && Fits(vals, maxT)
    ensures |s| == |vals| && forall k :: 0 <= k < |vals| ==> ByteOf(s[k]) == vals[k]
  {
    seq(|vals|, k requires 0 <= k < |vals| => vals[k] as char)
  }

  /** The whole file write_binary produces. */
  function BinaryText(mat: Matrix<nat>, maxT: nat): string
    requires mat.Valid() && maxT <= 255 && Fits(mat.data, maxT)
  {
    HeaderText("P5", mat.rows, mat.cols, maxT) + RawBytes(mat.data, maxT)
  }

  /** write_binary (NetpbmIOBase.hpp lines 94-111, PGMIO.hpp lines 143-160):
      the P5 header, then exactly one byte per element in buffer order. */
  function WriteBinary(mat: Matrix<nat>, maxT: nat, canOpen: bool, family: Family): (r: Result<string>)
    requires mat.Valid() && maxT <= 255 && Fits(mat.data, maxT)
    ensures canOpen <==> r.Success?
    ensures r.Failure? ==> r.error == OpenError(family, WriteFailMsg)
    ensures r.Success? ==> var h := HeaderText("P5", mat.rows, mat.cols, maxT);
      |r.value| == |h| + |mat.data| && r.value[..|h|] == h &&
      forall k :: 0 <= k < |mat.data| ==> ByteOf(r.value[|h| + k]) == mat.data[k]
  {
    if canOpen then Success(BinaryText(mat, maxT)) else Failure(OpenError(family, WriteFailMsg))
  }

  const WrongTypeMsg := "wrong type for matrix"

  /** stream.read of n bytes into a new buffer: byte k of s where the file
      reaches, and past its end whatever the buffer held, stale(k). */
  function ReadBytes(s: string, n: nat, stale: nat -> nat): (vals: seq<nat>)
    ensures |vals| == n
  {
    seq(n, k requires 0 <= k < n => BufferByte(s, k, stale))
  }

  function BufferByte(s: string, k: nat, stale: nat -> nat): nat {
    if k < |s| then ByteOf(s[k]) else stale(k)
  }

  /** read_binary as written (NetpbmIOBase.hpp lines 48-67, PGMIO.hpp lines
      97-116): the bytes are read from where process_header stopped, which
      is the whitespace character that ends maxval. */
  function ReadBinarySpec(file: Option<string>, maxT: nat, family: Family, stale: nat -> nat): (r: Result<Matrix<nat>>)
    ensures r.Success? ==> r.value.Valid()
  {
    if file.None? then Failure(OpenError(family, BinaryOpenMsg))
    else
      var header := HeaderSpec(file.value);
      if header.Failure? then Failure(header.error)
      else
        var h := header.value.0;
        if h.maxval > maxT then Failure(AssertionFailure(WrongTypeMsg))
        else Success(Matrix(h.height, h.width, ReadBytes(header.value.1, Area(h), stale)))
  }

  /** The single whitespace character the Netpbm format puts between maxval
      and the raster, skipped. */
  function SkipRasterSeparator(s: string): (t: string)
    ensures s != [] && IsSpace(s[0]) ==> s == [s[0]] + t
    ensures (s == [] || !IsSpace(s[0])) ==> t == s
  {
    if s != [] && IsSpace(s[0]) then s[1..] else s
  }

  /** read_binary with the separator after maxval skipped before the bytes
      are read: the reader the dispatch below uses. */
  function ReadBinary(file: Option<string>, maxT: nat, family: Family, stale: nat -> nat): (r: Result<Matrix<nat>>)
    ensures r.Success? ==> r.value.Valid()
  {
    if file.None? then Failure(OpenError(family, BinaryOpenMsg))
    else
      var header := HeaderSpec(file.value);
      if header.Failure? then Failure(header.error)
      else
        var h := header.value.0;
        if h.maxval > maxT then Failure(AssertionFailure(WrongTypeMsg))
        else Success(Matrix(h.height, h.width, ReadBytes(SkipRasterSeparator(header.value.1), Area(h), stale)))
  }

  /** The bytes of a buffer are read back as the buffer. */
  lemma ReadRawBytes(vals: seq<nat>, maxT: nat, stale: nat -> nat)
    requires maxT <= 255 && Fits(vals, maxT)
    ensures ReadBytes(RawBytes(vals, maxT), |vals|, stale) == vals
  {
  }

  /** Reading from one character early gives that character first and
      drops the last byte. */
  lemma ReadShifted(vals: seq<nat>, maxT: nat, stale: nat -> nat)
    requires |vals| > 0 && maxT <= 255 && Fits(vals, maxT)
    ensures ReadBytes("\n" + RawBytes(vals, maxT), |vals|, stale) == [10] + vals[..|vals| - 1]
  {
    var raw := RawBytes(vals, maxT);
    var got := ReadBytes("\n" + raw, |vals|, stale);
    forall k | 0 <= k < |vals| ensures got[k] == ([10] + vals[..|vals| - 1])[k] {
      if k > 0 {
        assert ("\n" + raw)[k] == raw[k - 1];
      }
    }
  }

  /** process_header on a file write_binary wrote. */
  lemma BinaryHeader(mat: Matrix<nat>, maxT: nat)
    requires mat.Valid() && maxT <= 255 && Fits(mat.data, maxT)
    requires mat.rows <= ULongMax && mat.cols <= ULongMax
    ensures HeaderSpec(BinaryText(mat, maxT)) ==
      Success((Header(mat.rows, mat.cols, maxT), "\n" + RawBytes(mat.data, maxT)))
    ensures Area(Header(mat.rows, mat.cols, maxT)) == |mat.data|
  {
    HeaderRoundTrip("P5", mat.rows, mat.cols, maxT, RawBytes(mat.data, maxT));
  }

  /** The reader as written sees the newline after maxval as the first
      element: the buffer comes back shifted by one place, led by 10. */
  lemma BinaryReadAsWritten(mat: Matrix<nat>, maxT: nat, family: Family, stale: nat -> nat)
    requires mat.Valid() && |mat.data| > 0 && maxT <= 255 && Fits(mat.data, maxT)
    requires mat.rows <= ULongMax && mat.cols <= ULongMax
    ensures ReadBinarySpec(Some(BinaryText(mat, maxT)), maxT, family, stale) ==
      Success(Matrix(mat.rows, mat.cols, [10] + mat.data[..|mat.data| - 1]))
  {
    BinaryHeader(mat, maxT);
    ReadShifted(mat.data, maxT, stale);
  }

  /** A 1 x 1 image holding 0 is read back as 10, the code of a newline. */
  lemma BinaryReadAsWrittenExample(family: Family, stale: nat -> nat)
    ensures ReadBinarySpec(Some(BinaryText(Matrix(1, 1, [0]), 255)), 255, family, stale) ==
      Success(Matrix(1, 1, [10]))
  {
    BinaryReadAsWritten(Matrix(1, 1, [0]), 255, family, stale);
    assert [10] + [0][..0] == [10];
  }

  /** ReadBinary on any text whose header parses. */
  lemma ReadBinaryOf(text: string, h: Header, rest: string, maxT: nat, family: Family, stale: nat -> nat)
    requires HeaderSpec(text) == Success((h, rest)) && h.maxval <= maxT
    ensures ReadBinary(Some(text), maxT, family, stale) ==
      Success(Matrix(h.height, h.width, ReadBytes(SkipRasterSeparator(rest), Area(h), stale)))
  {
  }

  /** Round trip: the corrected read_binary on the file write_binary wrote
      gives back the matrix. */
  lemma BinaryRoundTrip(mat: Matrix<nat>, maxT: nat, family: Family, stale: nat -> nat)
    requires mat.Valid() && maxT <= 255 && Fits(mat.data, maxT)
    requires mat.rows <= ULongMax && mat.cols <= ULongMax
    ensures ReadBinary(Some(BinaryText(mat, maxT)), maxT, family, stale) == Success(mat)
  {
    var text := BinaryText(mat, maxT);
    var raw := RawBytes(mat.data, maxT);
    var h := Header(mat.rows, mat.cols, maxT);
    assert HeaderSpec(text) == Success((h, "\n" + raw)) && Area(h) == |mat.data| by {
      BinaryHeader(mat, maxT);
    }
    ReadBinaryOf(text, h, "\n" + raw, maxT, family, stale);
    assert SkipRasterSeparator("\n" + raw) == raw;
    assert ReadBytes(raw, |mat.data|, stale) == mat.data by {
      ReadRawBytes(mat.data, maxT, stale);
    }
  }

  const UnknownReadMsg := "Unknown file type, check magic number"
  const UnknownWriteMsg := "Unknown file type"

  /** PGMIO::read (PGMIO.hpp lines 47-58) as written: the magic decides the
      reader, and a binary file goes to read_binary as written. */
  function PgmRead(file: Option<string>, maxT: nat, stale: nat -> nat): (r: Result<Matrix<nat>>)
    ensures file.None? ==> r == Failure(IOException("Could not open file to determine file type"))
    ensures PgmType(file) == Success(BINARY) ==> r == ReadBinarySpec(file, maxT, PgmClass, stale)
    ensures PgmType(file) == Success(ASCII) ==> r == ReadAsciiSpec(file, maxT, PgmClass)
    ensures PgmType(file) == Success(UNKNOWN) ==> r == Failure(IOException(UnknownReadMsg))
  {
    var t := PgmType(file);
    if t.Failure? then Failure(t.error)
    else
      match t.value
      case BINARY => ReadBinarySpec(file, maxT, PgmClass, stale)
      case ASCII => ReadAsciiSpec(file, maxT, PgmClass)
      case UNKNOWN => Failure(IOException(UnknownReadMsg))
  }

  /** PGMIO::read with the corrected binary reader: the same dispatch, and a
      binary file goes to ReadBinary, which skips the separator after maxval. */
  function PgmReadIntended(file: Option<string>, maxT: nat, stale: nat -> nat): (r: Result<Matrix<nat>>)
    ensures file.None? ==> r == Failure(IOException("Could not open file to determine file type"))
    ensures PgmType(file) == Success(BINARY) ==> r == ReadBinary(file, maxT, PgmClass, stale)
    ensures PgmType(file) != Success(BINARY) ==> r == PgmRead(file, maxT, stale)
  {
    var t := PgmType(file);
    if t == Success(BINARY) then ReadBinary(file, maxT, PgmClass, stale)
    else PgmRead(file, maxT, stale)
  }

  /** PGMIO::write (PGMIO.hpp lines 70-85): the requested type decides the
      writer; UNKNOWN fails without opening the file. */
  method PgmWrite(mat: Matrix<nat>, maxT: nat, canOpen: bool, ptype: PType) returns (r: Result<string>)
    requires mat.Valid()
    requires ptype == BINARY ==> maxT <= 255 && Fits(mat.data, maxT)
    ensures ptype == ASCII ==> r == if canOpen then Success(AsciiText(mat, maxT)) else Failure(IOException(WriteFailMsg))
    ensures ptype == BINARY ==> r == WriteBinary(mat, maxT, canOpen, PgmClass)
    ensures ptype == UNKNOWN ==> r == Failure(IOException(UnknownWriteMsg))
  {
    match ptype
    case ASCII => r := WriteAscii(mat, maxT, canOpen, PgmClass);
    case BINARY => r := WriteBinary(mat, maxT, canOpen, PgmClass);
    case UNKNOWN => r := Failure(IOException(UnknownWriteMsg));
  }

  /** The magic of a written file is the one its header starts with. */
  lemma StartsWithMagic(magic: string, rows: nat, cols: nat, maxval: nat, body: string)
    requires magic != [] && NoSpace(magic)
    ensures Magic(HeaderText(magic, rows, cols, maxval) + body) == magic
  {
    var r0 := "\n" + Digits(cols) + (" " + Digits(rows) + ("\n" + Digits(maxval) + ("\n" + body)));
    ghost var s := HeaderText(magic, rows, cols, maxval) + body;
    assert s == [] + magic + r0 by {
      HeaderTextShape(magic, rows, cols, maxval, body);
    }
    ExtractToken([], magic, r0, "");
  }

  /** A file starting with the ASCII magic is routed to read_ascii, and what
      write_ascii wrote is read back. */
  lemma PgmAsciiRoundTrip(mat: Matrix<nat>, maxT: nat, stale: nat -> nat)
    requires mat.Valid() && maxT <= ULongMax && mat.rows <= ULongMax && mat.cols <= ULongMax
    requires Fits(mat.data, maxT)
    ensures PgmRead(Some(AsciiText(mat, maxT)), maxT, stale) == Success(mat)
  {
    var text := AsciiText(mat, maxT);
    assert PgmType(Some(text)) == Success(ASCII) by {
      StartsWithMagic("P2", mat.rows, mat.cols, maxT, Block(Rows(mat)));
    }
    assert ReadAsciiSpec(Some(text), maxT, PgmClass) == Success(mat) by {
      AsciiRoundTrip(mat, maxT, PgmClass);
    }
  }

  /** A file starting with the binary magic is routed to read_binary; as
      written, what write_binary wrote comes back shifted by one byte, with
      the newline after maxval first. */
  lemma PgmBinaryReadAsWritten(mat: Matrix<nat>, maxT: nat, stale: nat -> nat)
    requires mat.Valid() && |mat.data| > 0 && maxT <= 255 && Fits(mat.data, maxT)
    requires mat.rows <= ULongMax && mat.cols <= ULongMax
    ensures PgmRead(Some(BinaryText(mat, maxT)), maxT, stale) ==
      Success(Matrix(mat.rows, mat.cols, [10] + mat.data[..|mat.data| - 1]))
  {
    var text := BinaryText(mat, maxT);
    assert PgmType(Some(text)) == Success(BINARY) by {
      StartsWithMagic("P5", mat.rows, mat.cols, maxT, RawBytes(mat.data, maxT));
    }
    BinaryReadAsWritten(mat, maxT, PgmClass, stale);
  }

  /** With the corrected binary reader, what write_binary wrote is read
      back. */
  lemma PgmBinaryRoundTrip(mat: Matrix<nat>, maxT: nat, stale: nat -> nat)
    requires mat.Valid() && maxT <= 255 && Fits(mat.data, maxT)
    requires mat.rows <= ULongMax && mat.cols <= ULongMax
    ensures PgmReadIntended(Some(BinaryText(mat, maxT)), maxT, stale) == Success(mat)
  {
    var text := BinaryText(mat, maxT);
    assert PgmType(Some(text)) == Success(BINARY) by {
      StartsWithMagic("P5", mat.rows, mat.cols, maxT, RawBytes(mat.data, maxT));
    }
    assert ReadBinary(Some(text), maxT, PgmClass, stale) == Success(mat) by {
      BinaryRoundTrip(mat, maxT, PgmClass, stale);
    }
  }
}
