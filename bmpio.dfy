/** BmpIO::read: an 8-bit grayscale Windows bitmap, given as the bytes of the
    whole file, into a matrix. The headers are read in place from the buffer
    (packed to 2 bytes), and the raster, stored bottom row first, is copied
    row by row into the matrix. */
module BmpIO {
  import opened Wrappers
  import opened Grid

  /** A little-endian DWORD at byte offset i. */
  function U32(b: seq<Byte>, i: nat): nat
    requires i + 4 <= |b|
  {
    var b0, b1, b2, b3: int := b[i], b[i + 1], b[i + 2], b[i + 3];
    b0 + 0x100 * b1 + 0x1_0000 * b2 + 0x100_0000 * b3
  }

  /** A little-endian LONG (two's-complement int32) at byte offset i. */
  function I32(b: seq<Byte>, i: nat): (v: int)
    requires i + 4 <= |b|
    ensures -0x8000_0000 <= v < 0x8000_0000
  {
    var u := U32(b, i);
    if u >= 0x8000_0000 then u - 0x1_0000_0000 else u
  }

  // Field offsets with the headers packed to 2 bytes: BITMAPFILEHEADER takes
  // bytes 0-13 (bfOffBits at 10), BITMAPINFOHEADER starts at 14 (biWidth at
  // 18, biHeight at 22).
  const OffBitsAt := 10
  const WidthAt := 18
  const HeightAt := 22

  function OffBits(b: seq<Byte>): nat requires |b| >= 26 { U32(b, OffBitsAt) }
  function Width(b: seq<Byte>): int requires |b| >= 26 { I32(b, WidthAt) }
  function Height(b: seq<Byte>): int requires |b| >= 26 { I32(b, HeightAt) }

  /** The reads the loop makes stay inside the file: the header fields are
      there, the dims are not negative, and the raster ends by the end of the
      file. BmpIO::read does not check this. */
  predicate Readable(b: seq<Byte>) {
    |b| >= 26 && Width(b) >= 0 && Height(b) >= 0 &&
    OffBits(b) + Height(b) * Width(b) <= |b|
  }

  /** a * b as repeated addition. The raster offsets are stated with it, which
      keeps their arithmetic linear; MulIsProduct connects it to `*`. */
  function Mul(a: nat, b: nat): nat {
    if a == 0 then 0 else Mul(a - 1, b) + b
  }

  lemma {:induction false} MulIsProduct(a: nat, b: nat)
    ensures Mul(a, b) == a * b
  {
    if a > 0 {
      MulIsProduct(a - 1, b);
      MulStep(a - 1, b);
    }
  }

  lemma {:induction false} MulMono(a: nat, a2: nat, b: nat)
    requires a <= a2
    ensures Mul(a, b) <= Mul(a2, b)
    decreases a2
  {
    if a < a2 {
      MulMono(a, a2 - 1, b);
    }
  }

  /** Stored row i of the raster: w bytes from off + i * w. */
  function StoredRow(b: seq<Byte>, off: nat, w: nat, h: nat, i: nat): (row: seq<Byte>)
    requires off + Mul(h, w) <= |b| && i < h
    ensures |row| == w
  {
    MulMono(i + 1, h, w);
    b[off + Mul(i, w) .. off + Mul(i, w) + w]
  }

  /** Stored rows h - 1 down to i, one after the other: the first h - i
      matrix rows. */
  function TopDown(b: seq<Byte>, off: nat, w: nat, h: nat, i: nat): (data: seq<Byte>)
    requires off + Mul(h, w) <= |b| && i <= h
    ensures |data| == Mul(h - i, w)
    decreases h - i
  {
    if i == h then [] else TopDown(b, off, w, h, i + 1) + StoredRow(b, off, w, h, i)
  }

  function OpenFailure(filename: string): Error {
    IOException("Could not open file '" + filename + "'for reading")
  }

  /** What BmpIO::read returns. */
  function ReadSpec(filename: string, file: Option<seq<Byte>>): (r: Result<Matrix<Byte>>)
    requires file.Some? ==> Readable(file.value)
    ensures file.None? <==> r.Failure?
    ensures r.Failure? ==> r.error == OpenFailure(filename)
    ensures r.Success? ==>
      r.value.Valid() && r.value.rows == Height(file.value) && r.value.cols == Width(file.value)
  {
    if file.None? then Failure(OpenFailure(filename))
    else
      var b := file.value;
      var h, w := Height(b), Width(b);
      MulIsProduct(h, w);
      Success(Matrix(h, w, TopDown(b, OffBits(b), w, h, 0)))
  }

  lemma StoreMore<T>(s: seq<T>, i: nat, x: T)
    requires i < |s|
    ensures s[i := x][..i + 1] == s[..i] + [x]
  {
  }

  /** std::copy of one stored row to position base of the image buffer. */
  method CopyRow(img: array<Byte>, base: nat, b: seq<Byte>, start: nat, w: nat)
    requires base + w <= img.Length && start + w <= |b|
    modifies img
    ensures img[..base + w] == old(img[..base]) + b[start..start + w]
    ensures img[base + w..] == old(img[base + w..])
  {
    for j := 0 to w
      invariant img[..base + j] == old(img[..base]) + b[start..start + j]
      invariant img[base + w..] == old(img[base + w..])
    {
      StoreMore(img[..], base + j, b[start + j]);
      img[base + j] := b[start + j];
      assert b[start..start + j + 1] == b[start..start + j] + [b[start + j]];
    }
  }

  /** BmpIO::read (BmpIO.cpp lines 13-65): rows are copied with i going from
      the last stored row down to the first, stored row i into matrix row
      dims[0] - 1 - i. */
  method Read(filename: string, file: Option<seq<Byte>>) returns (r: Result<Matrix<Byte>>)
    requires file.Some? ==> Readable(file.value)
    ensures r == ReadSpec(filename, file)
  {
    if file.None? {
      return Failure(OpenFailure(filename));
    }
    var b := file.value;
    var off, h, w: nat := OffBits(b), Height(b), Width(b);
    MulIsProduct(h, w);
    var img := new Byte[h * w];
    var i: int := h - 1;
    var base: nat := 0;
    while i >= 0
      invariant -1 <= i < h
      invariant base == Mul(h - 1 - i, w) <= Mul(h, w)
      invariant img[..base] == TopDown(b, off, w, h, i + 1)
      decreases i + 1
    {
      CopyStoredRow(img, b, off, w, h, i, base);
      base := base + w;
      i := i - 1;
    }
    assert img[..] == img[..base];
    r := Success(Matrix(h, w, img[..]));
  }

  /** One round of the row loop: stored row i goes after the rows already
      copied. */
  method CopyStoredRow(img: array<Byte>, b: seq<Byte>, off: nat, w: nat, h: nat, i: nat, base: nat)
    requires off + Mul(h, w) <= |b| && i < h && img.Length == Mul(h, w)
    requires base == Mul(h - 1 - i, w) <= Mul(h, w) && img[..base] == TopDown(b, off, w, h, i + 1)
    modifies img
    ensures base + w == Mul(h - i, w) <= Mul(h, w)
    ensures img[..base + w] == TopDown(b, off, w, h, i)
  {
    MulMono(i + 1, h, w);
    MulMono(h - i, h, w);
    CopyRow(img, base, b, off + Mul(i, w), w);
  }

  /** Stored row r lands in TopDown(..., i) at matrix row h - 1 - r. */
  lemma {:induction false} TopDownAt(b: seq<Byte>, off: nat, w: nat, h: nat, i: nat, r: nat, c: nat)
    requires off + Mul(h, w) <= |b| && i <= r < h && c < w
    ensures off + Mul(r, w) + c < |b|
    ensures Mul(h - 1 - r, w) + c < Mul(h - i, w)
    ensures TopDown(b, off, w, h, i)[Mul(h - 1 - r, w) + c] == b[off + Mul(r, w) + c]
    decreases h - i
  {
    MulMono(r + 1, h, w);
    MulMono(h - r, h - i, w);
    var prefix := TopDown(b, off, w, h, i + 1);
    assert TopDown(b, off, w, h, i) == prefix + StoredRow(b, off, w, h, i);
    if r > i {
      MulMono(h - r, h - i - 1, w);
      TopDownAt(b, off, w, h, i + 1, r, c);
      assert Mul(h - 1 - r, w) + c < |prefix|;
    } else {
      assert Mul(h - 1 - r, w) + c == |prefix| + c;
    }
  }

  /** Bottom-up row reversal: matrix element (dims[0] - 1 - i, j) is byte
      j of stored row i, bfOffBits + i * dims[1] + j. */
  lemma RowReversal(filename: string, b: seq<Byte>, i: nat, j: nat)
    requires Readable(b) && i < Height(b) && j < Width(b)
    ensures 0 <= OffBits(b) + i * Width(b) + j < |b|
    ensures var img := ReadSpec(filename, Some(b)).value;
      img.At(Height(b) - 1 - i, j) == b[OffBits(b) + i * Width(b) + j]
  {
    var h, w := Height(b), Width(b);
    MulIsProduct(h, w);
    MulIsProduct(i, w);
    MulIsProduct(h - 1 - i, w);
    TopDownAt(b, OffBits(b), w, h, 0, i, j);
  }
}
