/** PngIO: RGB images to and from the 8-bit RGB byte buffer lodepng decodes
    to and encodes from. lodepng itself is not modelled: decoding is an input
    (the buffer and dims, or nothing on error) and encoding is the call made
    plus a flag saying whether the encoder reported an error. */
module PngIO {
  import opened Wrappers
  import opened Grid

  /** An RgbPixel: three uint8 channels. */
  datatype Rgb = Rgb(r: Byte, g: Byte, b: Byte) {
    /** pixel[c]. */
    function Channel(c: nat): Byte
      requires c < 3
    {
      if c == 0 then r else if c == 1 then g else b
    }
  }

  /** What lodepng::decode hands back on success. */
  datatype Decoded = Decoded(raw: seq<Byte>, width: nat, height: nat)

  /** The arguments PngIO::write passes to lodepng::encode. */
  datatype EncodeCall = EncodeCall(pixels: seq<Byte>, width: nat, height: nat)

  const LoadFailMsg := "could not load png file"
  const SaveFailMsg := "could not save png"

  /** Every three bytes make one pixel. */
  function Unpack(raw: seq<Byte>): (px: seq<Rgb>)
    ensures |px| == |raw| / 3
  {
    seq(|raw| / 3, i requires 0 <= i < |raw| / 3 => Rgb(raw[3 * i], raw[3 * i + 1], raw[3 * i + 2]))
  }

  /** The channels of every pixel, one after the other. */
  function Pack(px: seq<Rgb>): (out: seq<Byte>)
    ensures |out| == 3 * |px|
    ensures forall i, c :: 0 <= i < |px| && 0 <= c < 3 ==> out[3 * i + c] == px[i].Channel(c)
  {
    if px == [] then []
    else
      var p := px[|px| - 1];
      var out := Pack(px[..|px| - 1]) + [p.r, p.g, p.b];
      assert forall i, c :: 0 <= i < |px| && 0 <= c < 3 ==> out[3 * i + c] == px[i].Channel(c) by {
        forall i, c | 0 <= i < |px| && 0 <= c < 3 ensures out[3 * i + c] == px[i].Channel(c) {
          if i < |px| - 1 {
            assert px[i] == px[..|px| - 1][i];
          }
        }
      }
      out
  }

  /** What PngIO::read returns: a height x width matrix whose element i is
      made of bytes 3i, 3i + 1 and 3i + 2. */
  function ReadSpec(decoded: Option<Decoded>): (r: Result<Matrix<Rgb>>)
    requires decoded.Some? ==> |decoded.value.raw| == 3 * (decoded.value.height * decoded.value.width)
    ensures decoded.None? <==> r.Failure?
    ensures r.Failure? ==> r.error == IOException(LoadFailMsg)
    ensures r.Success? ==> var d := decoded.value;
      r.value.Valid() && r.value.rows == d.height && r.value.cols == d.width &&
      forall i :: 0 <= i < |r.value.data| ==> r.value.data[i] == Rgb(d.raw[3 * i], d.raw[3 * i + 1], d.raw[3 * i + 2])
  {
    if decoded.None? then Failure(IOException(LoadFailMsg))
    else
      var d := decoded.value;
      Success(Matrix(d.height, d.width, Unpack(d.raw)))
  }

  /** PngIO::read (PngIO.cpp lines 13-31) after lodepng::decode. */
  method Read(decoded: Option<Decoded>) returns (r: Result<Matrix<Rgb>>)
    requires decoded.Some? ==> |decoded.value.raw| == 3 * (decoded.value.height * decoded.value.width)
    ensures r == ReadSpec(decoded)
  {
    if decoded.None? {
      return Failure(IOException(LoadFailMsg));
    }
    var raw, width, height := decoded.value.raw, decoded.value.width, decoded.value.height;
    var mat := new Rgb[height * width](_ => Rgb(0, 0, 0));
    for i := 0 to |raw| / 3
      invariant forall k :: 0 <= k < i ==> mat[k] == Unpack(raw)[k]
    {
      mat[i] := Rgb(raw[i * 3 + 0], raw[i * 3 + 1], raw[i * 3 + 2]);
    }
    assert mat[..] == Unpack(raw);
    r := Success(Matrix(height, width, mat[..]));
  }

  /** The push_back loop of PngIO::write (PngIO.cpp lines 40-45). */
  method PackPixels(px: seq<Rgb>) returns (pixels: seq<Byte>)
    ensures pixels == Pack(px)
  {
    pixels := [];
    for i := 0 to |px|
      invariant pixels == Pack(px[..i])
    {
      pixels := pixels + [px[i].Channel(0)];
      pixels := pixels + [px[i].Channel(1)];
      pixels := pixels + [px[i].Channel(2)];
      assert px[..i + 1][..i] == px[..i];
    }
    assert px[..|px|] == px;
  }

  /** What PngIO::write does: encode the packed buffer with width dims[1] and
      height dims[0]; an encoder error is an IOException. */
  function WriteSpec(mat: Matrix<Rgb>, encodeFails: EncodeCall -> bool): (r: Result<EncodeCall>)
    ensures r.Failure? <==> encodeFails(EncodeCall(Pack(mat.data), mat.cols, mat.rows))
    ensures r.Failure? ==> r.error == IOException(SaveFailMsg)
    ensures r.Success? ==>
      r.value.width == mat.cols && r.value.height == mat.rows &&
      |r.value.pixels| == 3 * mat.Size() &&
      forall i, c :: 0 <= i < mat.Size() && 0 <= c < 3 ==> r.value.pixels[3 * i + c] == mat.data[i].Channel(c)
  {
    var call := EncodeCall(Pack(mat.data), mat.cols, mat.rows);
    if encodeFails(call) then Failure(IOException(SaveFailMsg)) else Success(call)
  }

  /** PngIO::write (PngIO.cpp lines 38-52). */
  method Write(mat: Matrix<Rgb>, encodeFails: EncodeCall -> bool) returns (r: Result<EncodeCall>)
    ensures r == WriteSpec(mat, encodeFails)
  {
    var pixels := PackPixels(mat.data);
    var call := EncodeCall(pixels, mat.cols, mat.rows);
    if encodeFails(call) {
      return Failure(IOException(SaveFailMsg));
    }
    return Success(call);
  }

  /** Unpacking a packed buffer gives the pixels back. */
  lemma UnpackPack(px: seq<Rgb>)
    ensures Unpack(Pack(px)) == px
  {
    var out := Pack(px);
    forall i | 0 <= i < |px| ensures Unpack(out)[i] == px[i] {
      assert out[3 * i] == px[i].Channel(0);
      assert out[3 * i + 1] == px[i].Channel(1);
      assert out[3 * i + 2] == px[i].Channel(2);
    }
  }

  /** Packing the unpacked pixels of a whole number of pixels gives the
      buffer back. */
  lemma PackUnpack(raw: seq<Byte>)
    requires |raw| % 3 == 0
    ensures Pack(Unpack(raw)) == raw
  {
    var px := Unpack(raw);
    var out := Pack(px);
    forall k | 0 <= k < |raw| ensures out[k] == raw[k] {
      var i, c := k / 3, k % 3;
      assert k == 3 * i + c;
      assert out[3 * i + c] == px[i].Channel(c);
    }
  }

  /** A buffer that lodepng encodes and decodes unchanged reads back as the
      matrix that was written. */
  lemma WriteReadRoundTrip(mat: Matrix<Rgb>, encodeFails: EncodeCall -> bool)
    requires mat.Valid()
    requires WriteSpec(mat, encodeFails).Success?
    ensures var call := WriteSpec(mat, encodeFails).value;
      ReadSpec(Some(Decoded(call.pixels, call.width, call.height))) == Success(mat)
  {
    UnpackPack(mat.data);
  }
}
