/** ImageIO: choosing a reader or writer from the file name's extension. */
module ImageIO {
  import opened Wrappers

  datatype FileType = PGM | PPM | BMP | UNKNOWN

  /** std::string::rfind('.'): the index of the last '.', if any. */
  function LastDot(name: string): (k: Option<nat>)
    ensures k.None? ==> forall i :: 0 <= i < |name| ==> name[i] != '.'
    ensures k.Some? ==> (k.value < |name| && name[k.value] == '.' &&
      forall i :: k.value < i < |name| ==> name[i] != '.')
  {
    if name == [] then None
    else if name[|name| - 1] == '.' then Some(|name| - 1)
    else LastDot(name[..|name| - 1])
  }

  /** The extension's type, compared case-sensitively. */
  function ExtensionType(ext: string): FileType {
    if ext == "pgm" then PGM
    else if ext == "ppm" then PPM
    else if ext == "bmp" then BMP
    else UNKNOWN
  }

  /** file_type (lines 64-80): the text after the last '.' decides; a name
      without '.' is a bad path. */
  function FileTypeOf(filename: string): (r: Result<FileType>)
    ensures r.Failure? <==> forall i :: 0 <= i < |filename| ==> filename[i] != '.'
    ensures r.Failure? ==> r.error == IOException("Bad file path: " + filename)
    ensures r.Success? ==> exists k :: (0 <= k < |filename| && filename[k] == '.' &&
      (forall i :: k < i < |filename| ==> filename[i] != '.') &&
      r.value == ExtensionType(filename[k + 1..]))
  {
    match LastDot(filename)
    case None => Failure(IOException("Bad file path: " + filename))
    case Some(k) => Success(ExtensionType(filename[k + 1..]))
  }

  /** The type is decided by the suffix after the last dot alone: any
      prefix, dots included, can be put in front. */
  lemma FileTypeOfSuffix(stem: string, ext: string)
    requires forall i :: 0 <= i < |ext| ==> ext[i] != '.'
    ensures FileTypeOf(stem + "." + ext) == Success(ExtensionType(ext))
  {
    LastDotSkips(stem + ".", ext);
    assert (stem + "." + ext)[|stem| + 1..] == ext;
  }

  /** Dot-free text after the last dot does not move it. */
  lemma {:induction false} LastDotSkips(prefix: string, ext: string)
    requires forall i :: 0 <= i < |ext| ==> ext[i] != '.'
    ensures LastDot(prefix + ext) == LastDot(prefix)
    decreases |ext|
  {
    if ext != [] {
      var e' := ext[..|ext| - 1];
      assert (prefix + ext)[..|prefix + ext| - 1] == prefix + e';
      LastDotSkips(prefix, e');
    } else {
      assert prefix + ext == prefix;
    }
  }

  /** The comparisons are exact: "PGM" is not "pgm". */
  lemma ExtensionCaseSensitive(stem: string)
    ensures FileTypeOf(stem + ".pgm") == Success(PGM)
    ensures FileTypeOf(stem + ".PGM") == Success(UNKNOWN)
  {
    ExtensionLower(stem);
    ExtensionUpper(stem);
  }

  lemma ExtensionLower(stem: string)
    ensures FileTypeOf(stem + ".pgm") == Success(PGM)
  {
    FileTypeOfSuffix(stem, "pgm");
    assert stem + "." + "pgm" == stem + ".pgm";
  }

  lemma ExtensionUpper(stem: string)
    ensures FileTypeOf(stem + ".PGM") == Success(UNKNOWN)
  {
    FileTypeOfSuffix(stem, "PGM");
    assert stem + "." + "PGM" == stem + ".PGM";
    UpperUnknown();
  }

  lemma UpperUnknown()
    ensures ExtensionType("PGM") == UNKNOWN
  {
    assert "PGM"[0] != "pgm"[0] && "PGM"[0] != "ppm"[0] && "PGM"[0] != "bmp"[0];
  }

  /** A trailing dot gives the empty extension, which is UNKNOWN. */
  lemma EmptyExtension(stem: string)
    ensures FileTypeOf(stem + ".") == Success(UNKNOWN)
  {
    FileTypeOfSuffix(stem, "");
    assert stem + "." == stem + "." + "";
  }

  /** The per-format classes PgmIO, PpmIO and BmpIO. */
  datatype Codec = PgmCodec | PpmCodec | BmpCodec

  /** write (lines 47-62): exactly one writer per known type; UNKNOWN
      throws. */
  function Dispatch(filename: string): (r: Result<Codec>)
    ensures r.Success? <==> FileTypeOf(filename).Success? && FileTypeOf(filename).value != UNKNOWN
    ensures r.Success? ==>
      (r.value == PgmCodec <==> FileTypeOf(filename).value == PGM) &&
      (r.value == PpmCodec <==> FileTypeOf(filename).value == PPM) &&
      (r.value == BmpCodec <==> FileTypeOf(filename).value == BMP)
    ensures FileTypeOf(filename) == Success(UNKNOWN) ==> r == Failure(IOException("Unknown file type: " + filename))
  {
    match FileTypeOf(filename)
    case Failure(e) => Failure(e)
    case Success(t) =>
      match t
      case PGM => Success(PgmCodec)
      case PPM => Success(PpmCodec)
      case BMP => Success(BmpCodec)
      case UNKNOWN => Failure(IOException("Unknown file type: " + filename))
  }

  /** read (lines 26-38). The switch has no break, so the case chosen
      calls its reader and every reader after it in turn, and then falls
      into the throw of the UNKNOWN case. The readers' outcomes are
      parameters: a reader that throws ends the read with its exception. */
  function Read(filename: string, pgm: Result<()>, ppm: Result<()>, bmp: Result<()>): (r: Result<()>)
    ensures r.Failure?
    ensures FileTypeOf(filename).Failure? ==> r == Failure(FileTypeOf(filename).error)
    ensures FileTypeOf(filename).Success? && pgm.Success? && ppm.Success? && bmp.Success? ==>
      r == Failure(IOException("Unknown file type: " + filename))
  {
    var unknown := Failure(IOException("Unknown file type: " + filename));
    match FileTypeOf(filename)
    case Failure(e) => Failure(e)
    case Success(t) =>
      var fromBmp := if bmp.Failure? then bmp else unknown;
      var fromPpm := if ppm.Failure? then ppm else fromBmp;
      var fromPgm := if pgm.Failure? then pgm else fromPpm;
      match t
      case PGM => fromPgm
      case PPM => fromPpm
      case BMP => fromBmp
      case UNKNOWN => unknown
  }

  /** A .bmp file is never handed to the PGM or PPM reader, while a .pgm
      file is read by all three readers before the throw. */
  lemma ReadFallsThrough(stem: string, pgm: Result<()>, ppm: Result<()>, bmp: Result<()>)
    ensures bmp.Success? ==> Read(stem + ".bmp", pgm, ppm, bmp) == Failure(IOException("Unknown file type: " + stem + ".bmp"))
    ensures ppm.Failure? ==> Read(stem + ".pgm", Success(()), ppm, bmp) == ppm
    ensures bmp.Failure? ==> Read(stem + ".pgm", Success(()), Success(()), bmp) == bmp
  {
    ExtensionLower(stem);
    ExtensionBmp(stem);
    assert "Unknown file type: " + stem + ".bmp" == "Unknown file type: " + (stem + ".bmp");
  }

  lemma ExtensionBmp(stem: string)
    ensures FileTypeOf(stem + ".bmp") == Success(BMP)
  {
    FileTypeOfSuffix(stem, "bmp");
    assert stem + "." + "bmp" == stem + ".bmp";
  }

  /** read as evidently intended, with a break after each case: the reader
      the extension selects is the only one called, and its outcome is the
      outcome of the read. */
  function ReadIntended(filename: string, pgm: Result<()>, ppm: Result<()>, bmp: Result<()>): (r: Result<()>)
    ensures FileTypeOf(filename).Failure? ==> r == Failure(FileTypeOf(filename).error)
    ensures FileTypeOf(filename) == Success(PGM) ==> r == pgm
    ensures FileTypeOf(filename) == Success(PPM) ==> r == ppm
    ensures FileTypeOf(filename) == Success(BMP) ==> r == bmp
    ensures FileTypeOf(filename) == Success(UNKNOWN) ==> r == Failure(IOException("Unknown file type: " + filename))
  {
    match Dispatch(filename)
    case Failure(e) => Failure(e)
    case Success(PgmCodec) => pgm
    case Success(PpmCodec) => ppm
    case Success(BmpCodec) => bmp
  }

  /** With the breaks, a .pgm file whose reader succeeds is read, where the
      switch as written throws. */
  lemma ReadIntendedSucceeds(stem: string)
    requires forall i :: 0 <= i < |stem| ==> stem[i] != '.'
    ensures ReadIntended(stem + ".pgm", Success(()), Success(()), Success(())) == Success(())
    ensures Read(stem + ".pgm", Success(()), Success(()), Success(())).Failure?
  {
    FileTypeOfSuffix(stem, "pgm");
    assert stem + ".pgm" == stem + "." + "pgm";
  }
}
