/** The Netpbm header reader: whitespace-separated tokens read with
    `stream >> word`, comment lines skipped with std::getline, and the
    numbers converted with std::stoul. A stream is the text not yet read. */
module NetpbmHeader {
  import opened Wrappers
  import opened Decimal

  /** isspace in the "C" locale. */
  predicate IsSpace(c: char) {
    c == ' ' || c == '\t' || c == '\n' || c == '\r' || c as int == 11 || c as int == 12
  }

  predicate AllSpace(s: string) {
    forall i :: 0 <= i < |s| ==> IsSpace(s[i])
  }

  predicate NoSpace(s: string) {
    forall i :: 0 <= i < |s| ==> !IsSpace(s[i])
  }

  /** The position of the first non-whitespace character at or after i. */
  function SkipFrom(s: string, i: nat): (k: nat)
    requires i <= |s|
    ensures i <= k <= |s| && (k < |s| ==> !IsSpace(s[k]))
    decreases |s| - i
  {
    if i < |s| && IsSpace(s[i]) then SkipFrom(s, i + 1) else i
  }

  /** The input after its leading whitespace. */
  function SkipSpace(s: string): (r: string)
    ensures |r| <= |s|
    ensures r != [] ==> !IsSpace(r[0])
  {
    s[SkipFrom(s, 0)..]
  }

  /** The position of the first whitespace character at or after i. */
  function TokenEnd(s: string, i: nat): (k: nat)
    requires i <= |s|
    ensures i <= k <= |s|
    decreases |s| - i
  {
    if i < |s| && !IsSpace(s[i]) then TokenEnd(s, i + 1) else i
  }

  /** The scan passes only non-whitespace and stops at whitespace or at the
      end. */
  lemma {:induction false} TokenEndStops(s: string, i: nat)
    requires i <= |s|
    ensures TokenEnd(s, i) < |s| ==> IsSpace(s[TokenEnd(s, i)])
    ensures forall j :: i <= j < TokenEnd(s, i) ==> !IsSpace(s[j])
    decreases |s| - i
  {
    if i < |s| && !IsSpace(s[i]) {
      TokenEndStops(s, i + 1);
    }
  }

  /** The length of the leading run of non-whitespace characters. */
  function TokenLength(s: string): (n: nat)
    ensures n <= |s|
  {
    TokenEnd(s, 0)
  }

  /** `stream >> word`: skip whitespace, then read one token. At the end of
      the input nothing is read and word keeps its old value. The result
      is the word and the unread input. */
  function Extract(s: string, word: string): (r: (string, string))
    ensures |r.1| <= |s|
    ensures SkipSpace(s) == [] ==> r == (word, [])
    ensures SkipSpace(s) != [] ==> (r.0 != [] && NoSpace(r.0) && SkipSpace(s) == r.0 + r.1 &&
      (r.1 != [] ==> IsSpace(r.1[0])))
  {
    var t := SkipSpace(s);
    if t == [] then (word, t)
    else
      var n := TokenLength(t);
      TokenEndStops(t, 0);
      assert t == t[..n] + t[n..];
      (t[..n], t[n..])
  }

  /** std::getline: drops everything up to and including the next '\n'. */
  function GetLine(s: string): (r: string)
    ensures |r| <= |s| && (s != [] ==> |r| < |s|)
  {
    if s == [] then [] else if s[0] == '\n' then s[1..] else GetLine(s[1..])
  }

  /** `'#' == word[0]`; the empty std::string holds '\0' at index 0. */
  predicate IsComment(word: string) {
    word != [] && word[0] == '#'
  }

  /** What the comment loop leads to when a comment token is the last
      thing in the input: the read fails, word keeps its '#', and the loop
      goes round for ever. */
  const Diverges: Error := RuntimeError("comment loop does not terminate")

  /** The comment loop: while word is a comment, drop the rest of its line
      and read the next word. */
  function SkipComments(s: string, word: string): (r: Result<(string, string)>)
    ensures r.Success? ==> !IsComment(r.value.0) && |r.value.1| <= |s|
    ensures r.Failure? ==> r.error == Diverges
    decreases |s|
  {
    if !IsComment(word) then Success((word, s))
    else if s == [] then Failure(Diverges)
    else
      var (w, rest) := Extract(GetLine(s), word);
      SkipComments(rest, w)
  }

  predicate IsDigit(c: char) {
    '0' <= c <= '9'
  }

  /** The position of the first non-digit at or after i. */
  function DigitEnd(s: string, i: nat): (k: nat)
    requires i <= |s|
    ensures i <= k <= |s|
    decreases |s| - i
  {
    if i < |s| && IsDigit(s[i]) then DigitEnd(s, i + 1) else i
  }

  /** The scan passes only digits and stops at a non-digit or at the end. */
  lemma {:induction false} DigitEndStops(s: string, i: nat)
    requires i <= |s|
    ensures DigitEnd(s, i) < |s| ==> !IsDigit(s[DigitEnd(s, i)])
    ensures forall j :: i <= j < DigitEnd(s, i) ==> IsDigit(s[j])
    decreases |s| - i
  {
    if i < |s| && IsDigit(s[i]) {
      DigitEndStops(s, i + 1);
    }
  }

  /** The length of the leading run of decimal digits. */
  function DigitRun(s: string): (n: nat)
    ensures n <= |s|
  {
    DigitEnd(s, 0)
  }

  /** ULONG_MAX on an LP64 platform. */
  const ULongMax: nat := 0x1_0000_0000_0000_0000 - 1

  /** std::stoul(word) in base 10: an optional sign, then the leading
      digits; no digits is std::invalid_argument, a value above ULONG_MAX
      std::out_of_range, and a '-' negates modulo 2^64 as strtoul does. */
  function Stoul(word: string): (r: Result<nat>)
    ensures r.Success? ==> r.value <= ULongMax
    ensures r.Failure? ==> r.error == InvalidArgument("stoul") || r.error == OutOfRange("stoul")
  {
    var signed := word != [] && (word[0] == '+' || word[0] == '-');
    var body := if signed then word[1..] else word;
    var n := DigitRun(body);
    DigitEndStops(body, 0);
    if n == 0 then Failure(InvalidArgument("stoul"))
    else
      var v := ParseDigits(body[..n]);
      if v > ULongMax then Failure(OutOfRange("stoul"))
      else if word[0] == '-' && v > 0 then Success(ULongMax + 1 - v)
      else Success(v)
  }

  /** Printed numbers convert back; reading stops at the first non-digit. */
  lemma StoulOfDigits(n: nat, tail: string)
    requires n <= ULongMax && (tail == [] || !IsDigit(tail[0]))
    ensures Stoul(Digits(n) + tail) == Success(n)
  {
    var w := Digits(n) + tail;
    DigitsRoundTrip(n);
    assert DigitRun(w) == |Digits(n)| by {
      DigitRunPrefix(Digits(n), tail);
    }
    assert w[..|Digits(n)|] == Digits(n);
  }

  lemma DigitRunPrefix(d: string, tail: string)
    requires forall i :: 0 <= i < |d| ==> IsDigit(d[i])
    requires tail == [] || !IsDigit(tail[0])
    ensures DigitRun(d + tail) == |d|
  {
    DigitEndAt(d + tail, 0, |d|);
  }

  /** A scan for the first non-digit from i stops at k when s[i..k] are
      digits and s[k] is not. */
  lemma {:induction false} DigitEndAt(s: string, i: nat, k: nat)
    requires i <= k <= |s| && (forall j :: i <= j < k ==> IsDigit(s[j])) && (k < |s| ==> !IsDigit(s[k]))
    ensures DigitEnd(s, i) == k
    decreases k - i
  {
    if i < k {
      DigitEndAt(s, i + 1, k);
    }
  }

  /** A word without digits, such as a stale comment, is rejected. */
  lemma StoulRejects()
    ensures Stoul("") == Failure(InvalidArgument("stoul"))
    ensures Stoul("#") == Failure(InvalidArgument("stoul"))
    ensures Stoul("-") == Failure(InvalidArgument("stoul"))
  {
    assert "-"[1..] == "";
  }

  /** int32_t(v): the low 32 bits read as two's complement. */
  function Int32(v: nat): (r: int)
    ensures -0x8000_0000 <= r < 0x8000_0000
    ensures r % 0x1_0000_0000 == v % 0x1_0000_0000
    ensures v < 0x8000_0000 ==> r == v
  {
    var m := v % 0x1_0000_0000;
    if m >= 0x8000_0000 then m - 0x1_0000_0000 else m
  }

  /** One header number and the state after it: the current word (shared
      by all three fields) and the unread input. */
  datatype Field = Field(value: nat, word: string, rest: string)

  /** One field: `stream >> word`, the comment loop, then std::stoul. */
  function FieldSpec(s: string, word: string): (r: Result<Field>)
    ensures r.Success? ==> !IsComment(r.value.word) && |r.value.rest| <= |s| && r.value.value <= ULongMax
  {
    var (w, rest) := Extract(s, word);
    match SkipComments(rest, w)
    case Failure(e) => Failure(e)
    case Success((w', rest')) =>
      match Stoul(w')
      case Failure(e) => Failure(e)
      case Success(v) => Success(Field(v, w', rest'))
  }

  /** One field as the source reads it (lines 16-22 of
      NetpbmIOBase.cpp, repeated for each field). */
  method ReadField(s: string, word: string) returns (r: Result<Field>)
    ensures r == FieldSpec(s, word)
  {
    var w, rest := Extract(s, word).0, Extract(s, word).1;
    ghost var w0, rest0 := w, rest;
    while IsComment(w)
      invariant |rest| <= |s|
      invariant SkipComments(rest, w) == SkipComments(rest0, w0)
      decreases |rest|
    {
      if rest == [] {
        return Failure(Diverges);
      }
      var next := Extract(GetLine(rest), w);
      w, rest := next.0, next.1;
    }
    var v := Stoul(w);
    if v.Failure? {
      return Failure(v.error);
    }
    r := Success(Field(v.value, w, rest));
  }

  /** The header fields in the order the source returns them. */
  datatype Header = Header(height: nat, width: nat, maxval: nat)

  /** process_header: drop the magic token, then read width, height and
      maxval; the result also holds the unread input. */
  function HeaderSpec(s: string): (r: Result<(Header, string)>)
  {
    var rest := Extract(s, "").1;
    match FieldSpec(rest, "")
    case Failure(e) => Failure(e)
    case Success(width) =>
      match FieldSpec(width.rest, width.word)
      case Failure(e) => Failure(e)
      case Success(height) =>
        match FieldSpec(height.rest, height.word)
        case Failure(e) => Failure(e)
        case Success(maxval) => Success((Header(height.value, width.value, maxval.value), maxval.rest))
  }

  /** PgmIO::process_header (PgmIO.cpp lines 28-62): the values are kept
      as size_t. */
  method ProcessHeader(s: string) returns (r: Result<(Header, string)>)
    ensures r == HeaderSpec(s)
  {
    var rest := Extract(s, "").1;
    var width := ReadField(rest, "");
    if width.Failure? {
      return Failure(width.error);
    }
    var height := ReadField(width.value.rest, width.value.word);
    if height.Failure? {
      return Failure(height.error);
    }
    var maxval := ReadField(height.value.rest, height.value.word);
    if maxval.Failure? {
      return Failure(maxval.error);
    }
    r := Success((Header(height.value.value, width.value.value, maxval.value.value), maxval.value.rest));
  }

  /** NetpbmIOBase::process_header (NetpbmIOBase.cpp lines 7-41): the same
      reads, each value narrowed to int32_t. */
  method ProcessHeaderInt32(s: string) returns (r: Result<(int, int, int)>)
    ensures r.Success? <==> HeaderSpec(s).Success?
    ensures r.Failure? ==> r.error == HeaderSpec(s).error
    ensures r.Success? ==> var h := HeaderSpec(s).value.0;
      r.value == (Int32(h.height), Int32(h.width), Int32(h.maxval))
  {
    var header := ProcessHeader(s);
    if header.Failure? {
      return Failure(header.error);
    }
    var h := header.value.0;
    r := Success((Int32(h.height), Int32(h.width), Int32(h.maxval)));
  }

  /** The header the writers emit: the magic, "width height", and maxval,
      one per line. */
  function HeaderText(magic: string, rows: nat, cols: nat, maxval: nat): string {
    magic + "\n" + IntToString(cols) + " " + IntToString(rows) + "\n" + IntToString(maxval) + "\n"
  }

  /** Skipping whitespace in front of a token. */
  lemma SkipSpaceOver(ws: string, t: string)
    requires AllSpace(ws) && (t == [] || !IsSpace(t[0]))
    ensures SkipSpace(ws + t) == t
  {
    SkipFromAt(ws + t, 0, |ws|);
    assert (ws + t)[|ws|..] == t;
  }

  /** A scan for the first non-space from i stops at k when s[i..k] are
      spaces and s[k] is not. */
  lemma {:induction false} SkipFromAt(s: string, i: nat, k: nat)
    requires i <= k <= |s| && (forall j :: i <= j < k ==> IsSpace(s[j])) && (k < |s| ==> !IsSpace(s[k]))
    ensures SkipFrom(s, i) == k
    decreases k - i
  {
    if i < k {
      SkipFromAt(s, i + 1, k);
    }
  }

  lemma TokenLengthOver(t: string, rest: string)
    requires NoSpace(t) && (rest == [] || IsSpace(rest[0]))
    ensures TokenLength(t + rest) == |t|
  {
    TokenEndAt(t + rest, 0, |t|);
  }

  /** A scan for the first space from i stops at k when s[i..k] are not
      spaces and s[k] is one. */
  lemma {:induction false} TokenEndAt(s: string, i: nat, k: nat)
    requires i <= k <= |s| && (forall j :: i <= j < k ==> !IsSpace(s[j])) && (k < |s| ==> IsSpace(s[k]))
    ensures TokenEnd(s, i) == k
    decreases k - i
  {
    if i < k {
      TokenEndAt(s, i + 1, k);
    }
  }

  /** Extract reads the token that follows the whitespace. */
  lemma ExtractToken(ws: string, t: string, rest: string, word: string)
    requires AllSpace(ws) && t != [] && NoSpace(t) && (rest == [] || IsSpace(rest[0]))
    ensures Extract(ws + t + rest, word) == (t, rest)
  {
    SkipSpaceOver(ws, t + rest);
    assert ws + t + rest == ws + (t + rest);
    TokenLengthOver(t, rest);
    assert (t + rest)[..|t|] == t && (t + rest)[|t|..] == rest;
  }

  lemma DigitsNoSpace(n: nat)
    ensures Digits(n) != [] && NoSpace(Digits(n)) && !IsComment(Digits(n))
  {
  }

  /** A field written as a number after whitespace reads back as that
      number. */
  lemma FieldOfDigits(ws: string, n: nat, rest: string, word: string)
    requires AllSpace(ws) && rest != [] && IsSpace(rest[0]) && n <= ULongMax
    ensures FieldSpec(ws + Digits(n) + rest, word) == Success(Field(n, Digits(n), rest))
  {
    DigitsNoSpace(n);
    ExtractToken(ws, Digits(n), rest, word);
    StoulOfDigits(n, []);
    assert Digits(n) + [] == Digits(n);
  }

  /** Header round trip: what the writers emit reads back as
      (height, width, maxval), leaving the input just after the maxval
      token, at its newline. */
  lemma HeaderRoundTrip(magic: string, rows: nat, cols: nat, maxval: nat, body: string)
    requires magic != [] && NoSpace(magic)
    requires rows <= ULongMax && cols <= ULongMax && maxval <= ULongMax
    ensures HeaderSpec(HeaderText(magic, rows, cols, maxval) + body) ==
      Success((Header(rows, cols, maxval), "\n" + body))
  {
    var r3 := "\n" + body;
    var r2 := "\n" + Digits(maxval) + r3;
    var r1 := " " + Digits(rows) + r2;
    var r0 := "\n" + Digits(cols) + r1;
    ghost var s := HeaderText(magic, rows, cols, maxval) + body;
    assert s == [] + magic + r0 by {
      HeaderTextShape(magic, rows, cols, maxval, body);
    }
    HeaderFromTokens(s, magic, rows, cols, maxval, r0, r1, r2, r3);
  }

  lemma HeaderFromTokens(s: string, magic: string, rows: nat, cols: nat, maxval: nat,
                          r0: string, r1: string, r2: string, r3: string)
    requires magic != [] && NoSpace(magic)
    requires rows <= ULongMax && cols <= ULongMax && maxval <= ULongMax
    requires s == [] + magic + r0
    requires r0 == "\n" + Digits(cols) + r1
    requires r1 == " " + Digits(rows) + r2
    requires r2 == "\n" + Digits(maxval) + r3
    requires r3 != [] && IsSpace(r3[0])
    ensures HeaderSpec(s) == Success((Header(rows, cols, maxval), r3))
  {
    ExtractToken([], magic, r0, "");
    FieldOfDigits("\n", cols, r1, "");
    FieldOfDigits(" ", rows, r2, Digits(cols));
    FieldOfDigits("\n", maxval, r3, Digits(rows));
    HeaderSpecSteps(s, r0, Field(cols, Digits(cols), r1), Field(rows, Digits(rows), r2),
      Field(maxval, Digits(maxval), r3));
  }

  /** s with a comment line put in front of it, after whitespace ws. */
  function WithComment(ws: string, comment: string, s: string): string {
    ws + "#" + comment + "\n" + s
  }

  /** A comment line in front of a field is skipped: the field reads as if
      the line were not there. */
  lemma CommentLineSkipped(ws: string, comment: string, s: string, word: string)
    requires AllSpace(ws) && SkipSpace(s) != []
    requires forall i :: 0 <= i < |comment| ==> comment[i] != '\n'
    ensures FieldSpec(WithComment(ws, comment, s), word) == FieldSpec(s, word)
  {
    var t := "#" + comment + "\n" + s;
    assert t[0] == '#' && t[1 + |comment|] == '\n';
    assert forall i :: 0 <= i < 1 + |comment| ==> t[i] != '\n' by {
      forall i | 0 <= i < 1 + |comment| ensures t[i] != '\n' {
        if i > 0 {
          assert t[i] == comment[i - 1];
        }
      }
    }
    assert t[1 + |comment| + 1..] == s;
    assert WithComment(ws, comment, s) == ws + t;
    CommentSkippedAt(WithComment(ws, comment, s), ws, t, 1 + |comment|, word);
  }

  lemma CommentSkippedAt(u: string, ws: string, t: string, eol: nat, word: string)
    requires u == ws + t && AllSpace(ws) && eol < |t| && t[0] == '#' && t[eol] == '\n'
    requires forall i :: 0 <= i < eol ==> t[i] != '\n'
    requires SkipSpace(t[eol + 1..]) != []
    ensures FieldSpec(u, word) == FieldSpec(t[eol + 1..], word)
  {
    CommentToken(ws, t, eol, word);
    var (w, rest) := Extract(u, word);
    FieldAfterComment(u, word, w, rest, t[eol + 1..]);
  }

  /** A token starting with '#' is read, and getline then drops the rest
      of its line. */
  lemma CommentToken(ws: string, t: string, eol: nat, word: string)
    requires AllSpace(ws) && eol < |t| && t[0] == '#' && t[eol] == '\n'
    requires forall i :: 0 <= i < eol ==> t[i] != '\n'
    ensures var r := Extract(ws + t, word);
      IsComment(r.0) && r.1 != [] && GetLine(r.1) == t[eol + 1..]
  {
    SkipSpaceOver(ws, t);
    var n := TokenLength(t);
    TokenEndStops(t, 0);
    assert IsSpace(t[eol]);
    GetLineFrom(t, n, eol);
  }

  lemma {:induction false} GetLineFrom(t: string, n: nat, eol: nat)
    requires n <= eol < |t| && t[eol] == '\n'
    requires forall i :: n <= i < eol ==> t[i] != '\n'
    ensures GetLine(t[n..]) == t[eol + 1..]
    decreases eol - n
  {
    if n < eol {
      assert t[n..][1..] == t[n + 1..];
      GetLineFrom(t, n + 1, eol);
    } else {
      assert t[n..][1..] == t[eol + 1..];
    }
  }

  lemma FieldAfterComment(u: string, word: string, w: string, rest: string, s: string)
    requires Extract(u, word) == (w, rest) && IsComment(w) && rest != [] && GetLine(rest) == s
    requires SkipSpace(s) != []
    ensures FieldSpec(u, word) == FieldSpec(s, word)
  {
    assert Extract(s, w) == Extract(s, word);
    assert SkipComments(rest, w) == SkipComments(Extract(s, word).1, Extract(s, word).0);
  }

  lemma HeaderSpecSteps(s: string, r0: string, width: Field, height: Field, maxval: Field)
    requires Extract(s, "").1 == r0 && FieldSpec(r0, "") == Success(width)
    requires FieldSpec(width.rest, width.word) == Success(height)
    requires FieldSpec(height.rest, height.word) == Success(maxval)
    ensures HeaderSpec(s) == Success((Header(height.value, width.value, maxval.value), maxval.rest))
  {
  }

  lemma HeaderTextShape(magic: string, rows: nat, cols: nat, maxval: nat, body: string)
    ensures HeaderText(magic, rows, cols, maxval) + body ==
      magic + ("\n" + Digits(cols) + (" " + Digits(rows) + ("\n" + Digits(maxval) + ("\n" + body))))
  {
    Nest(magic, "\n", Digits(cols), " ", Digits(rows), "\n", Digits(maxval), "\n", body);
  }

  lemma Nest(a: string, b: string, c: string, d: string, e: string, f: string, g: string, h: string, i: string)
    ensures a + b + c + d + e + f + g + h + i == a + (b + c + (d + e + (f + g + (h + i))))
  {
  }

}
