/**
 * The per-image analysis of image_analyzer/analyzer.py: the aspect-ratio
 * string, the average-colour string, the face count and the assembly of
 * one image's record. What OpenCV, Pillow, the face detector and the file
 * system report about an image are inputs (`Measurements`); each may have
 * raised instead of answering.
 */
module Analyzer {
  import opened Wrappers
  import opened NumberTheory
  import opened Text
  import opened Paths
  import opened Records

  /** `DATA_HEADERS`: the keys of every record, in column order. */
  const DataHeaders: seq<string> :=
    ["filename", "filesize", "width", "height", "aspect_ratio", "average_color", "num_of_faces"]

  // ---------------------------------------------------------------------
  // Aspect ratio

  /** `calculate_aspect_ratio`: "n:d" for `Fraction(width, height)`, or
      "N/A" when the fraction cannot be formed because `height` is 0. */
  function AspectRatio(width: int, height: int): (r: string)
    ensures height == 0 <==> r == "N/A"
  {
    if height == 0 then "N/A"
    else
      var (n, d) := Reduce(width, height);
      var s := IntToString(n) + ":" + IntToString(d);
      assert s[|IntToString(n)|] == ':' && "N/A"[0] != ':' && "N/A"[1] != ':' && "N/A"[2] != ':';
      s
  }

  /** Reads "n:d" back into the pair of integers it shows. */
  function ParseAspectRatio(s: string): Option<(int, int)>
  {
    var i := IndexOf(s, ':');
    if i < 0 then None
    else match (ParseInt(s[..i]), ParseInt(s[i + 1..]))
      case (Some(n), Some(d)) => Some((n, d))
      case _ => None
  }

  lemma NoColonInNumeral(i: int)
    ensures ':' !in IntToString(i)
  {
    var s := IntToString(i);
    forall k | 0 <= k < |s| ensures s[k] != ':' {
      if k > 0 {
        assert s[k] == s[1..][k - 1];
      }
    }
  }

  /** The string is the lowest-terms fraction, written out: reading it back
      gives `Reduce(width, height)`, and "N/A" reads back as nothing. */
  lemma AspectRatioParses(width: int, height: int)
    ensures ParseAspectRatio(AspectRatio(width, height)) ==
      if height == 0 then None else Some(Reduce(width, height))
  {
    if height == 0 {
      var s := AspectRatio(width, height);
      assert s == "N/A";
      assert s[0] != ':' && s[1] != ':' && s[2] != ':';
      assert IndexOf(s, ':') < 0;
    } else {
      var (n, d) := Reduce(width, height);
      var a, b := IntToString(n), IntToString(d);
      var s := a + ":" + b;
      assert s == a + [':'] + b;
      NoColonInNumeral(n);
      IndexOfAfter(a, ':', b);
      assert s[..|a|] == a;
      assert s[|a| + 1..] == b;
      IntToStringRoundTrip(n);
      IntToStringRoundTrip(d);
    }
  }

  /** For a non-zero height the string is "n:d" for the one pair with
      `d > 0`, `gcd(|n|, d) == 1` and `n/d == width/height`. */
  lemma AspectRatioLowestTerms(width: int, height: int, n: int, d: int)
    requires height != 0 && IsLowestTerms(n, d, width, height)
    ensures AspectRatio(width, height) == IntToString(n) + ":" + IntToString(d)
  {
    var r := Reduce(width, height);
    LowestTermsUnique(r.0, r.1, n, d, width, height);
  }

  lemma AspectRatioOfReduce(width: int, height: int)
    requires height != 0
    ensures AspectRatio(width, height) ==
      IntToString(Reduce(width, height).0) + ":" + IntToString(Reduce(width, height).1)
  {
  }

  lemma NonNegativeNumeral(n: int)
    requires n >= 0
    ensures IntToString(n) == NatToString(n)
  {
  }

  /** For the sizes of an image: both sides divided by their gcd. */
  lemma AspectRatioByGcd(width: nat, height: nat)
    requires height > 0
    ensures var g := Gcd(width, height);
      g > 0 && AspectRatio(width, height) == NatToString(width / g) + ":" + NatToString(height / g)
  {
    var r := Reduce(width, height);
    ReduceNat(width, height);
    AspectRatioOfReduce(width, height);
    NonNegativeNumeral(r.0);
    NonNegativeNumeral(r.1);
  }

  /** Two sizes with non-zero heights give the same string exactly when
      they have the same ratio. */
  lemma AspectRatioSameRatio(w1: int, h1: int, w2: int, h2: int)
    requires h1 != 0 && h2 != 0
    ensures AspectRatio(w1, h1) == AspectRatio(w2, h2) <==> w1 * h2 == w2 * h1
  {
    var r1, r2 := Reduce(w1, h1), Reduce(w2, h2);
    if w1 * h2 == w2 * h1 {
      SameRatioLowestTerms(r1.0, r1.1, w1, h1, w2, h2);
      AspectRatioLowestTerms(w2, h2, r1.0, r1.1);
    }
    if AspectRatio(w1, h1) == AspectRatio(w2, h2) {
      AspectRatioParses(w1, h1);
      AspectRatioParses(w2, h2);
      assert r1 == r2;
      CommonLowestTermsSameRatio(r1.0, r1.1, w1, h1, w2, h2);
    }
  }

  /** Scaling both sides by the same positive factor changes nothing. */
  lemma AspectRatioScale(k: int, width: int, height: int)
    requires k > 0
    ensures AspectRatio(k * width, k * height) == AspectRatio(width, height)
  {
    if height != 0 {
      assert (k * width) * height == width * (k * height);
      AspectRatioSameRatio(k * width, k * height, width, height);
    }
  }

  /** Helper for `AspectRatioZeroWidth`: the numerals of 0 and 1. */
  lemma NumeralsZeroOne()
    ensures IntToString(0) == "0" && IntToString(1) == "1"
    ensures "0" + ":" + "1" == "0:1"
  {
  }

  /** A zero width over a positive height is "0:1". */
  lemma AspectRatioZeroWidth(height: int)
    requires height > 0
    ensures AspectRatio(0, height) == "0:1"
  {
    assert Gcd(0, 1) == 1;
    assert IsLowestTerms(0, 1, 0, height);
    AspectRatioLowestTerms(0, height, 0, 1);
    NumeralsZeroOne();
  }

  // ---------------------------------------------------------------------
  // Average colour

  /** One 8-bit channel of the averaged RGB pixel. */
  type Channel = x: int | 0 <= x < 256

  /** `get_average_color`'s string: '#' and two lower-case hex digits for
      each of red, green and blue. */
  function AverageColorHex(r: Channel, g: Channel, b: Channel): (s: string)
    ensures |s| == 7 && s[0] == '#'
    ensures forall k | 1 <= k < 7 :: IsLowerHexDigit(s[k])
  {
    "#" + Hex2(r) + Hex2(g) + Hex2(b)
  }

  /** Reads a "#rrggbb" string back into its three channels. */
  function ParseColor(s: string): Option<(Channel, Channel, Channel)>
  {
    if |s| == 7 && s[0] == '#' && forall k | 1 <= k < 7 :: IsLowerHexDigit(s[k]) then
      Some((HexValue(s[1]) * 16 + HexValue(s[2]),
            HexValue(s[3]) * 16 + HexValue(s[4]),
            HexValue(s[5]) * 16 + HexValue(s[6])))
    else None
  }

  /** The colour string determines the colour. */
  lemma AverageColorRoundTrip(r: Channel, g: Channel, b: Channel)
    ensures ParseColor(AverageColorHex(r, g, b)) == Some((r, g, b))
  {
    var s := AverageColorHex(r, g, b);
    assert s[1..3] == Hex2(r) && s[3..5] == Hex2(g) && s[5..] == Hex2(b);
    assert s[1] == Hex2(r)[0] && s[2] == Hex2(r)[1];
    assert s[3] == Hex2(g)[0] && s[4] == Hex2(g)[1];
    assert s[5] == Hex2(b)[0] && s[6] == Hex2(b)[1];
  }

  /** Different colours give different strings. */
  lemma AverageColorInjective(r1: Channel, g1: Channel, b1: Channel, r2: Channel, g2: Channel, b2: Channel)
    requires AverageColorHex(r1, g1, b1) == AverageColorHex(r2, g2, b2)
    ensures r1 == r2 && g1 == g2 && b1 == b2
  {
    AverageColorRoundTrip(r1, g1, b1);
    AverageColorRoundTrip(r2, g2, b2);
  }

  /** (12, 34, 56) is written "#0c2238": 56 is 0x38. */
  lemma AverageColorExample(r: Channel, g: Channel, b: Channel)
    requires r == 12 && g == 34 && b == 56
    ensures AverageColorHex(r, g, b) == "#0c2238"
    ensures AverageColorHex(r, g, b) != "#0c2236"
  {
    assert Hex2(r) == "0c" && Hex2(g) == "22" && Hex2(b) == "38";
  }

  // ---------------------------------------------------------------------
  // Faces

  /** `get_number_of_faces_in_image`: the length of the detector's second
      result, or 0 when that result is `None`. */
  function FaceCount<F>(faces: Option<seq<F>>): (n: nat)
    ensures faces.Some? ==> n == |faces.value|
    ensures n == 0 <==> faces.None? || faces.value == []
  {
    match faces
    case None => 0
    case Some(fs) => |fs|
  }

  // ---------------------------------------------------------------------
  // One image

  /** The exceptions `analyze_single_image` tells apart. */
  datatype Exception = FileNotFoundError | OtherException

  /** How a library call that may raise ended. */
  datatype Step<T> = Done(value: T) | Raised(error: Exception)

  /** The first two entries of the image array's shape. */
  datatype Shape = Shape(height: nat, width: nat)

  /** What the libraries report about one image file, in the order the
      analysis asks for it:
      `image`      `cv2.imread` and the array's shape; `None` when OpenCV
                   cannot read the file;
      `faces`      `setInputSize` and the detector's second result;
      `averageRgb` the RGB conversion, the 1x1 resize and its pixel;
      `fileSize`   `path.stat().st_size`. */
  datatype Measurements<F> = Measurements(
    image: Step<Option<Shape>>,
    faces: Step<Option<seq<F>>>,
    averageRgb: Step<(Channel, Channel, Channel)>,
    fileSize: Step<nat>)

  /** Every measurement answered and OpenCV could read the image. */
  predicate Completes<F>(m: Measurements<F>)
  {
    m.image.Done? && m.image.value.Some? && m.faces.Done? && m.averageRgb.Done? && m.fileSize.Done?
  }

  /** Why an image was skipped: OpenCV could not read it, a step raised
      `FileNotFoundError`, or a step raised anything else. */
  datatype SkipReason = Unreadable | FileMissing | UnexpectedError

  datatype Outcome = Analyzed(record: Record) | Skipped(reason: SkipReason)

  function SkipFor(e: Exception): SkipReason
  {
    match e
    case FileNotFoundError => FileMissing
    case OtherException => UnexpectedError
  }

  /** The dictionary literal: one entry per header. */
  function ImageData(path: string, size: nat, shape: Shape, rgb: (Channel, Channel, Channel), faces: nat): (rec: Record)
    ensures rec.Keys == set h | h in DataHeaders
  {
    map[
      "filename" := Str(Name(path)),
      "filesize" := Num(size),
      "width" := Num(shape.width),
      "height" := Num(shape.height),
      "aspect_ratio" := Str(AspectRatio(shape.width, shape.height)),
      "average_color" := Str(AverageColorHex(rgb.0, rgb.1, rgb.2)),
      "num_of_faces" := Num(faces)]
  }

  /** `analyze_single_image`, with the reason for a skip kept: the steps run
      in program order and the first one that raises decides the reason. */
  function Analyze<F>(path: string, m: Measurements<F>): (o: Outcome)
    ensures o.Analyzed? <==> Completes(m)
    ensures o == Skipped(Unreadable) <==> m.image == Done(None)
    ensures o.Analyzed? ==> o.record.Keys == set h | h in DataHeaders
  {
    match m.image
    case Raised(e) => Skipped(SkipFor(e))
    case Done(None) => Skipped(Unreadable)
    case Done(Some(shape)) =>
      match m.faces
      case Raised(e) => Skipped(SkipFor(e))
      case Done(faces) =>
        match m.averageRgb
        case Raised(e) => Skipped(SkipFor(e))
        case Done(rgb) =>
          match m.fileSize
          case Raised(e) => Skipped(SkipFor(e))
          case Done(size) => Analyzed(ImageData(path, size, shape, rgb, FaceCount(faces)))
  }

  /** `analyze_single_image`: the record, or `None` when the image could
      not be read or any step raised. */
  function AnalyzeSingleImage<F>(path: string, m: Measurements<F>): (r: Option<Record>)
    ensures r.Some? <==> Completes(m)
    ensures r.Some? ==> r.value.Keys == set h | h in DataHeaders
  {
    match Analyze(path, m)
    case Analyzed(rec) => Some(rec)
    case Skipped(_) => None
  }

  /** The fields of a successful record: the file's name and size, the
      image's width and height, and the three derived values. */
  lemma AnalyzedFields<F>(path: string, m: Measurements<F>)
    requires Completes(m)
    ensures var rec := AnalyzeSingleImage(path, m).value;
      var shape, rgb := m.image.value.value, m.averageRgb.value;
      rec["filename"] == Str(Name(path)) &&
      rec["filesize"] == Num(m.fileSize.value) &&
      rec["width"] == Num(shape.width) &&
      rec["height"] == Num(shape.height) &&
      rec["aspect_ratio"] == Str(AspectRatio(shape.width, shape.height)) &&
      rec["average_color"] == Str(AverageColorHex(rgb.0, rgb.1, rgb.2)) &&
      rec["num_of_faces"] == Num(FaceCount(m.faces.value))
  {
    var shape, rgb := m.image.value.value, m.averageRgb.value;
    var faces := FaceCount(m.faces.value);
    assert AnalyzeSingleImage(path, m) == Some(ImageData(path, m.fileSize.value, shape, rgb, faces));
    ImageDataFields(path, m.fileSize.value, shape, rgb, faces);
  }

  lemma ImageDataFields(path: string, size: nat, shape: Shape, rgb: (Channel, Channel, Channel), faces: nat)
    ensures var rec := ImageData(path, size, shape, rgb, faces);
      rec["filename"] == Str(Name(path)) &&
      rec["filesize"] == Num(size) &&
      rec["width"] == Num(shape.width) &&
      rec["height"] == Num(shape.height) &&
      rec["aspect_ratio"] == Str(AspectRatio(shape.width, shape.height)) &&
      rec["average_color"] == Str(AverageColorHex(rgb.0, rgb.1, rgb.2)) &&
      rec["num_of_faces"] == Num(faces)
  {
    assert "filename"[4] != "filesize"[4];
    assert "aspect_ratio"[0] != "num_of_faces"[0];
  }

  /** A step raising `FileNotFoundError` before any other step raises skips
      the image as missing; the same holds for the stat of a file that
      disappeared after it was read. */
  lemma MissingFileSkipped<F>(path: string, m: Measurements<F>)
    requires m.image.Done? && m.image.value.Some? && m.faces.Done? && m.averageRgb.Done?
    requires m.fileSize == Raised(FileNotFoundError)
    ensures Analyze(path, m) == Skipped(FileMissing)
    ensures AnalyzeSingleImage(path, m) == None
  {
  }
}
