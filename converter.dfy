/**
 * The conversion pipeline: look the Bayer order up, unpack the RAW10 stream,
 * reduce every sample to eight bits, reshape the samples into a
 * height-by-width plane and choose whether the plane goes to colour
 * conversion. Reading the input file, the colour conversion itself, saving
 * and display are outside this model.
 */
module Converter {
  import opened Wrappers
  import opened Errors
  import opened Layout
  import opened Raw10
  import opened Bayer

  /** A row-major plane of 8-bit samples: height rows of width samples. */
  type Plane = seq<seq<Byte>>

  /**
   * What the pipeline hands on: the plane itself for GREY, or the plane
   * together with the conversion the demosaicing library is to apply.
   */
  datatype Image = Grey(plane: Plane) | Demosaic(plane: Plane, code: CvtCode)

  /**
   * One sample reduced to eight bits: shifted right by two, then cast to an
   * unsigned byte, which keeps the low eight bits. For a 10-bit sample the
   * cast loses nothing.
   */
  function Reduce8(v: Word): (b: Byte)
    ensures IsPixel10(v) ==> Widen(b) == v >> 2
  {
    ((v >> 2) & 0xFF) as Byte
  }

  /** The 8-bit reduction of every sample, in order. */
  function ReduceTo8Bit(pixels: seq<Word>): (r: seq<Byte>)
    ensures |r| == |pixels|
    ensures forall k :: 0 <= k < |pixels| && IsPixel10(pixels[k]) ==> Widen(r[k]) == pixels[k] >> 2
  {
    seq(|pixels|, k requires 0 <= k < |pixels| => Reduce8(pixels[k]))
  }

  /**
   * Reshapes the flat samples into `height` rows of `width` samples, row-major.
   * Refused when height * width differs from the number of samples: nothing
   * is dropped and nothing is padded.
   */
  function AssemblePlane(pixels: seq<Byte>, height: nat, width: nat): (r: Result<Plane, Error>)
    ensures r.Success? <==> height * width == |pixels|
    ensures r.Failure? ==> r.error == ShapeMismatch(|pixels|, height, width)
    ensures r.Success? ==> RowMajor(r.value, pixels, height, width) && Flatten(r.value) == pixels
  {
    match Reshape(pixels, height, width)
    case None => Failure(ShapeMismatch(|pixels|, height, width))
    case Some(plane) => Success(plane)
  }

  /**
   * The whole conversion of one request. The checks happen in the order of
   * the pipeline: unknown Bayer order, then a byte count that is not a
   * multiple of five, then a shape that does not hold the samples exactly.
   */
  function Convert(data: seq<Byte>, width: nat, height: nat, bayerOrder: string): (r: Result<Image, Error>)
    ensures r.Success? <==>
      bayerOrder in BayerOrderNames && |data| % GroupBytes == 0 && height * width == |data| / GroupBytes * GroupPixels
    ensures bayerOrder !in BayerOrderNames ==> r == Failure(UnsupportedBayerOrder(bayerOrder))
    ensures bayerOrder in BayerOrderNames && |data| % GroupBytes != 0 ==> r == Failure(InvalidBufferLength(|data|))
    ensures bayerOrder in BayerOrderNames && |data| % GroupBytes == 0 && height * width != |data| / GroupBytes * GroupPixels ==>
      r == Failure(ShapeMismatch(|data| / GroupBytes * GroupPixels, height, width))
    ensures r.Success? ==> |r.value.plane| == height && Uniform(r.value.plane, width)
    ensures r.Success? ==> (r.value.Grey? <==> bayerOrder == "GREY")
    ensures r.Success? && r.value.Demosaic? ==> r.value.code == CvtCodeOf(ParseBayerOrder(bayerOrder).value)
  {
    var order :- ParseBayerOrder(bayerOrder).ToResult(UnsupportedBayerOrder(bayerOrder));
    var pixels :- Unpack(data);
    var plane :- AssemblePlane(ReduceTo8Bit(pixels), height, width);
    var code := CvtCodeOf(order);
    if code != NoConversion then Success(Demosaic(plane, code)) else Success(Grey(plane))
  }

  // ---------------------------------------------------------------------------
  // Properties of the 8-bit reduction and of the whole pipeline
  // ---------------------------------------------------------------------------

  /** Reducing an unpacked pixel to eight bits gives back its high byte exactly. */
  lemma ReducePixel(msb: Byte, lsb: Byte, shift: nat)
    requires shift <= 6
    ensures Reduce8(Pixel(Widen(msb), Widen(lsb), shift)) == msb
  {
  }

  /** The reduction keeps the order of 10-bit samples. */
  lemma Reduce8Monotone(v: Word, w: Word)
    requires IsPixel10(v) && IsPixel10(w) && v <= w
    ensures Reduce8(v) <= Reduce8(w)
  {
  }

  /**
   * After the reduction, sample 4i + j is byte 5i + j of the stream: the
   * 8-bit image is made of the high bytes alone.
   */
  lemma ReducedAt(data: seq<Byte>, i: nat, j: nat)
    requires |data| % GroupBytes == 0 && i < |data| / GroupBytes && j < GroupPixels
    ensures Unpack(data).Success? && 4 * i + j < |Unpack(data).value| && 5 * i + j < |data|
    ensures ReduceTo8Bit(Unpack(data).value)[4 * i + j] == data[5 * i + j]
  {
    UnpackAt(data, i, j);
    ReducePixel(data[5 * i + j], data[5 * i + 4], 2 * j);
  }

  /**
   * The fifth byte of every group has no effect on the 8-bit samples: two
   * streams that differ only in their low-bits bytes reduce to the same samples.
   */
  lemma ReducedIgnoresLowBits(a: seq<Byte>, b: seq<Byte>)
    requires |a| == |b| && |a| % GroupBytes == 0
    requires forall k :: 0 <= k < |a| && k % GroupBytes != 4 ==> a[k] == b[k]
    ensures Unpack(a).Success? && Unpack(b).Success?
    ensures ReduceTo8Bit(Unpack(a).value) == ReduceTo8Bit(Unpack(b).value)
  {
    var ra, rb := ReduceTo8Bit(Unpack(a).value), ReduceTo8Bit(Unpack(b).value);
    forall k | 0 <= k < |ra|
      ensures ra[k] == rb[k]
    {
      ReducedSampleAt(a, k);
      ReducedSampleAt(b, k);
      HighByteIsNotLowBits(k);
    }
  }

  /** Where the high byte of raster pixel k sits in the packed stream: byte k % 4 of group k / 4. */
  function HighByteIndex(k: nat): nat
  {
    5 * (k / 4) + k % 4
  }

  /** The high byte of a pixel is never the fifth, low-bits byte of its group. */
  lemma HighByteIsNotLowBits(k: nat)
    ensures HighByteIndex(k) % GroupBytes == k % 4 && HighByteIndex(k) % GroupBytes != 4
  {
  }

  /**
   * Pixel (row, col) of a successful conversion is the high byte of the pixel
   * at raster position row * width + col.
   */
  lemma ConvertAt(data: seq<Byte>, width: nat, height: nat, bayerOrder: string, row: nat, col: nat)
    requires Convert(data, width, height, bayerOrder).Success?
    requires row < height && col < width
    ensures HighByteIndex(row * width + col) < |data|
    ensures Convert(data, width, height, bayerOrder).value.plane[row][col] == data[HighByteIndex(row * width + col)]
  {
    ConvertPlane(data, width, height, bayerOrder);
    RowMajorAt(Convert(data, width, height, bayerOrder).value.plane, ReduceTo8Bit(Unpack(data).value), height, width, row, col);
    ReducedSampleAt(data, row * width + col);
  }

  /** Reduced sample k is the high byte of raster pixel k. */
  lemma ReducedSampleAt(data: seq<Byte>, k: nat)
    requires |data| % GroupBytes == 0 && k < |data| / GroupBytes * GroupPixels
    ensures Unpack(data).Success? && k < |Unpack(data).value| && HighByteIndex(k) < |data|
    ensures ReduceTo8Bit(Unpack(data).value)[k] == data[HighByteIndex(k)]
  {
    var i, j := k / 4, k % 4;
    ReducedAt(data, i, j);
  }

  /** A successful conversion's plane is the reduced samples laid out row-major. */
  lemma ConvertPlane(data: seq<Byte>, width: nat, height: nat, bayerOrder: string)
    requires Convert(data, width, height, bayerOrder).Success?
    ensures Unpack(data).Success?
    ensures RowMajor(Convert(data, width, height, bayerOrder).value.plane, ReduceTo8Bit(Unpack(data).value), height, width)
  {
  }
}
