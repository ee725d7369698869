/**
 * The MIPI CSI-2 RAW10 unpacker: every group of five bytes carries four
 * 10-bit pixels. Bytes 0-3 hold the eight high bits of pixels 0-3; byte 4
 * holds their two low bits, pixel 0 in bits 0-1, pixel 1 in bits 2-3,
 * pixel 2 in bits 4-5 and pixel 3 in bits 6-7.
 *
 * Unpack is written the way the array code computes it: the buffer is
 * reshaped into one row per group, widened to 16 bits and split into five
 * columns; four pixel columns are combined from them and interleaved back
 * into raster order. UnpackGroup and PackGroup state the same layout one
 * group at a time, and Pack is Unpack's inverse.
 */
module Raw10 {
  import opened Wrappers
  import opened Errors
  import opened Layout

  /** One byte of the packed stream (numpy uint8). */
  type Byte = bv8

  /** The 16-bit width the unpacker computes in (numpy uint16). */
  type Word = bv16

  /** Bytes per packed group, and pixels per group: 5 * 8 bits == 4 * 10 bits. */
  const GroupBytes: nat := 5
  const GroupPixels: nat := 4

  /** A reconstructed sample fits in ten bits. */
  predicate IsPixel10(v: Word)
  {
    v <= 1023
  }

  predicate AllPixel10(pixels: seq<Word>)
  {
    forall k :: 0 <= k < |pixels| ==> IsPixel10(pixels[k])
  }

  /** numpy's `astype(np.uint16)` on one byte: zero extension (WidenValue). */
  function Widen(b: Byte): Word
  {
    b as Word
  }

  /** One pixel: its high byte shifted up two places plus the 2-bit field at `shift` of the low-bits byte. */
  function Pixel(msb: Word, lsb: Word, shift: nat): Word
    requires shift <= 6
  {
    (msb << 2) + ((lsb >> shift) & 3)
  }

  // ---------------------------------------------------------------------------
  // The unpacker, column by column
  // ---------------------------------------------------------------------------

  /** Column j of the grouped buffer, widened to 16 bits. */
  function Column(groups: seq<seq<Byte>>, j: nat): (c: seq<Word>)
    requires Uniform(groups, GroupBytes) && j < GroupBytes
    ensures |c| == |groups|
    ensures forall i :: 0 <= i < |c| ==> c[i] <= 0xFF && c[i] as Byte == groups[i][j]
  {
    seq(|groups|, i requires 0 <= i < |groups| => Widen(groups[i][j]))
  }

  /** One pixel column from a column of high bytes and the column of low-bits bytes. */
  function Combine(msb: seq<Word>, lsb: seq<Word>, shift: nat): (o: seq<Word>)
    requires |msb| == |lsb| && shift <= 6
    ensures |o| == |msb|
    ensures forall i :: 0 <= i < |o| && msb[i] <= 0xFF ==> o[i] >> 2 == msb[i] && o[i] & 3 == (lsb[i] >> shift) & 3
  {
    seq(|msb|, i requires 0 <= i < |msb| => Pixel(msb[i], lsb[i], shift))
  }

  /** The four pixel columns side by side: one row [p0, p1, p2, p3] per group. */
  function Interleave(o1: seq<Word>, o2: seq<Word>, o3: seq<Word>, o4: seq<Word>): (m: seq<seq<Word>>)
    requires |o2| == |o1| && |o3| == |o1| && |o4| == |o1|
    ensures |m| == |o1| && Uniform(m, GroupPixels)
    ensures forall i :: 0 <= i < |m| ==> m[i][0] == o1[i] && m[i][1] == o2[i] && m[i][2] == o3[i] && m[i][3] == o4[i]
  {
    seq(|o1|, i requires 0 <= i < |o1| => [o1[i], o2[i], o3[i], o4[i]])
  }

  /** The unpacked pixels of each group, one row per group, before flattening. */
  function GroupPixelRows(groups: seq<seq<Byte>>): (m: seq<seq<Word>>)
    requires Uniform(groups, GroupBytes)
    ensures |m| == |groups| && Uniform(m, GroupPixels)
  {
    var b1, b2, b3, b4, b5 := Column(groups, 0), Column(groups, 1), Column(groups, 2), Column(groups, 3), Column(groups, 4);
    Interleave(Combine(b1, b5, 0), Combine(b2, b5, 2), Combine(b3, b5, 4), Combine(b4, b5, 6))
  }

  /**
   * Unpacks a RAW10 byte stream. A byte count that is not a multiple of five
   * cannot be reshaped into groups and is refused with no output; otherwise
   * every group yields exactly four pixels.
   */
  function Unpack(data: seq<Byte>): (r: Result<seq<Word>, Error>)
    ensures r.Success? <==> |data| % GroupBytes == 0
    ensures r.Failure? ==> r.error == InvalidBufferLength(|data|)
    ensures r.Success? ==> |r.value| == |data| / GroupBytes * GroupPixels
  {
    match Reshape(data, |data| / GroupBytes, GroupBytes)
    case None => Failure(InvalidBufferLength(|data|))
    case Some(groups) =>
      var rows := GroupPixelRows(groups);
      FlattenLength(rows, GroupPixels);
      Success(Flatten(rows))
  }

  /**
   * The buffer reshaped into one five-byte row per group. The second ensures
   * is only a bridge for the proofs: it names the groups Unpack works on.
   */
  function Groups(data: seq<Byte>): (groups: seq<seq<Byte>>)
    requires |data| % GroupBytes == 0
    ensures |groups| == |data| / GroupBytes && Uniform(groups, GroupBytes)
    ensures Unpack(data) == Success(Flatten(GroupPixelRows(groups)))
    ensures forall i :: 0 <= i < |groups| ==> i * GroupBytes + GroupBytes <= |data| && groups[i] == RowOf(data, GroupBytes, i)
  {
    Reshape(data, |data| / GroupBytes, GroupBytes).value
  }

  // ---------------------------------------------------------------------------
  // One group at a time, and the packer
  // ---------------------------------------------------------------------------

  /** The four pixels of one five-byte group, p0 to p3. */
  function UnpackGroup(g: seq<Byte>): (v: seq<Word>)
    requires |g| == GroupBytes
    ensures |v| == GroupPixels
  {
    [ Pixel(Widen(g[0]), Widen(g[4]), 0), Pixel(Widen(g[1]), Widen(g[4]), 2),
      Pixel(Widen(g[2]), Widen(g[4]), 4), Pixel(Widen(g[3]), Widen(g[4]), 6) ]
  }

  /**
   * Packs four 10-bit pixels into one group: byte j (j < 4) holds v_j >> 2,
   * and byte 4 holds the fields (v_j & 3) << 2j.
   */
  function PackGroup(v: seq<Word>): (g: seq<Byte>)
    requires |v| == GroupPixels && AllPixel10(v)
    ensures |g| == GroupBytes
  {
    [ (v[0] >> 2) as Byte, (v[1] >> 2) as Byte, (v[2] >> 2) as Byte, (v[3] >> 2) as Byte,
      ((v[0] & 3) | ((v[1] & 3) << 2) | ((v[2] & 3) << 4) | ((v[3] & 3) << 6)) as Byte ]
  }

  /** The packed groups of a pixel sequence, one row per group, before flattening. */
  function PackedRows(pixels: seq<Word>): (m: seq<seq<Byte>>)
    requires |pixels| % GroupPixels == 0 && AllPixel10(pixels)
    ensures |m| == |pixels| / GroupPixels && Uniform(m, GroupBytes)
  {
    seq(|pixels| / GroupPixels, i requires 0 <= i < |pixels| / GroupPixels =>
      PackGroup(RowOf(pixels, GroupPixels, i)))
  }

  /** RAW10 packing of a whole pixel sequence: the inverse of Unpack. */
  function Pack(pixels: seq<Word>): (data: seq<Byte>)
    requires |pixels| % GroupPixels == 0 && AllPixel10(pixels)
    ensures |data| == |pixels| / GroupPixels * GroupBytes
  {
    var rows := PackedRows(pixels);
    FlattenLength(rows, GroupBytes);
    Flatten(rows)
  }

  // ---------------------------------------------------------------------------
  // Properties of one group
  // ---------------------------------------------------------------------------

  /** Widening keeps a byte's value: the 16-bit word is the byte zero-extended. */
  lemma WidenValue(b: Byte)
    ensures Widen(b) as int == b as int && Widen(b) <= 0xFF
  {
  }

  /**
   * A pixel keeps both of its parts: its top bits are the high byte and its
   * two low bits are the selected 2-bit field, so nothing is lost in 16 bits.
   */
  lemma PixelParts(msb: Byte, lsb: Byte, shift: nat)
    requires shift <= 6
    ensures Pixel(Widen(msb), Widen(lsb), shift) >> 2 == Widen(msb)
    ensures Pixel(Widen(msb), Widen(lsb), shift) & 3 == (Widen(lsb) >> shift) & 3
  {
  }

  /** The high byte and the 2-bit field never overlap, so the `+` of the unpacker acts as `|`. */
  lemma PixelIsOr(msb: Byte, lsb: Byte, shift: nat)
    requires shift <= 6
    ensures Pixel(Widen(msb), Widen(lsb), shift) == (Widen(msb) << 2) | ((Widen(lsb) >> shift) & 3)
  {
  }

  /** A pixel built from two bytes fits in ten bits: the 16-bit widening leaves room for the shift. */
  lemma PixelBound(msb: Byte, lsb: Byte, shift: nat)
    requires shift <= 6
    ensures IsPixel10(Pixel(Widen(msb), Widen(lsb), shift))
    ensures Pixel(Widen(msb), Widen(lsb), shift) as int == msb as int * 4 + ((Widen(lsb) >> shift) & 3) as int
  {
  }

  /** Pixel j of a group takes its high bits from byte j and its low bits from field j of byte 4. */
  lemma UnpackGroupPixel(g: seq<Byte>, j: nat)
    requires |g| == GroupBytes && j < GroupPixels
    ensures UnpackGroup(g)[j] == Pixel(Widen(g[j]), Widen(g[4]), 2 * j)
  {
  }

  /** Unpacking one group and packing it again gives back the five bytes. */
  lemma GroupUnpackPack(g: seq<Byte>)
    requires |g| == GroupBytes
    ensures AllPixel10(UnpackGroup(g)) && PackGroup(UnpackGroup(g)) == g
  {
    var b0, b1, b2, b3, b4 := g[0], g[1], g[2], g[3], g[4];
    PixelBound(b0, b4, 0);
    PixelBound(b1, b4, 2);
    PixelBound(b2, b4, 4);
    PixelBound(b3, b4, 6);
  }

  /** Packing four 10-bit pixels and unpacking the group gives back the four pixels. */
  lemma GroupPackUnpack(v: seq<Word>)
    requires |v| == GroupPixels && AllPixel10(v)
    ensures UnpackGroup(PackGroup(v)) == v
  {
  }

  // ---------------------------------------------------------------------------
  // Properties of whole streams
  // ---------------------------------------------------------------------------

  /** Row i of the unpacked groups holds the four pixels of group i, in order. */
  lemma GroupPixelRowsAt(groups: seq<seq<Byte>>, i: nat)
    requires Uniform(groups, GroupBytes) && i < |groups|
    ensures GroupPixelRows(groups)[i] == UnpackGroup(groups[i])
  {
  }

  /**
   * Output pixels 4i .. 4i + 3 are the four pixels of input group i (bytes
   * 5i .. 5i + 4), in the order p0, p1, p2, p3: groups keep their input order.
   */
  lemma UnpackGroupAt(data: seq<Byte>, i: nat)
    requires |data| % GroupBytes == 0 && i < |data| / GroupBytes
    ensures Unpack(data).Success?
    ensures 4 * i + 4 <= |Unpack(data).value| && 5 * i + 5 <= |data|
    ensures RowOf(Unpack(data).value, GroupPixels, i) == UnpackGroup(RowOf(data, GroupBytes, i))
  {
    var groups := Groups(data);
    assert groups[i] == RowOf(data, GroupBytes, i);
    GroupPixelRowsAt(groups, i);
    FlattenRow(GroupPixelRows(groups), GroupPixels, i);
  }

  /**
   * Output index 4i + j is pixel j of group i: four times byte 5i + j plus
   * the 2-bit field j of byte 5i + 4.
   */
  lemma UnpackAt(data: seq<Byte>, i: nat, j: nat)
    requires |data| % GroupBytes == 0 && i < |data| / GroupBytes && j < GroupPixels
    ensures Unpack(data).Success?
    ensures 4 * i + j < |Unpack(data).value| && 5 * i + 4 < |data|
    ensures Unpack(data).value[4 * i + j] == Pixel(Widen(data[5 * i + j]), Widen(data[5 * i + 4]), 2 * j)
  {
    UnpackGroupAt(data, i);
    var v := Unpack(data).value;
    var g := RowOf(data, GroupBytes, i);
    assert v[4 * i + j] == RowOf(v, GroupPixels, i)[j];
    assert g[j] == data[5 * i + j] && g[4] == data[5 * i + 4];
    UnpackGroupPixel(g, j);
  }

  /** Every unpacked value lies in [0, 1023]. */
  lemma UnpackRange(data: seq<Byte>)
    requires |data| % GroupBytes == 0
    ensures Unpack(data).Success? && AllPixel10(Unpack(data).value)
  {
    var pixels := Unpack(data).value;
    forall k | 0 <= k < |pixels|
      ensures IsPixel10(pixels[k])
    {
      var i, j := k / 4, k % 4;
      UnpackAt(data, i, j);
      PixelBound(data[5 * i + j], data[5 * i + 4], 2 * j);
    }
  }

  /** Bytes 5i .. 5i + 4 of the packed stream are the packing of pixels 4i .. 4i + 3. */
  lemma PackGroupAt(pixels: seq<Word>, i: nat)
    requires |pixels| % GroupPixels == 0 && AllPixel10(pixels) && i < |pixels| / GroupPixels
    ensures 5 * i + 5 <= |Pack(pixels)| && 4 * i + 4 <= |pixels|
    ensures RowOf(Pack(pixels), GroupBytes, i) == PackGroup(RowOf(pixels, GroupPixels, i))
  {
    FlattenRow(PackedRows(pixels), GroupBytes, i);
  }

  /** Unpacking loses no information: packing the pixels again reproduces the stream. */
  lemma UnpackPackRoundTrip(data: seq<Byte>)
    requires |data| % GroupBytes == 0
    ensures Unpack(data).Success? && AllPixel10(Unpack(data).value)
    ensures Pack(Unpack(data).value) == data
  {
    UnpackRange(data);
    var pixels := Unpack(data).value;
    var n := |data| / GroupBytes;
    forall i | 0 <= i < n
      ensures i * GroupBytes + GroupBytes <= n * GroupBytes && RowOf(Pack(pixels), GroupBytes, i) == RowOf(data, GroupBytes, i)
    {
      UnpackGroupAt(data, i);
      PackGroupAt(pixels, i);
      GroupUnpackPack(RowOf(data, GroupBytes, i));
    }
    EqualByRows(Pack(pixels), data, n, GroupBytes);
  }

  /** Packing loses no information: every 10-bit pixel sequence is recovered by unpacking its packing. */
  lemma PackUnpackRoundTrip(pixels: seq<Word>)
    requires |pixels| % GroupPixels == 0 && AllPixel10(pixels)
    ensures Unpack(Pack(pixels)) == Success(pixels)
  {
    var data := Pack(pixels);
    var n := |pixels| / GroupPixels;
    forall i | 0 <= i < n
      ensures i * GroupPixels + GroupPixels <= n * GroupPixels && RowOf(Unpack(data).value, GroupPixels, i) == RowOf(pixels, GroupPixels, i)
    {
      UnpackGroupAt(data, i);
      PackGroupAt(pixels, i);
      GroupPackUnpack(RowOf(pixels, GroupPixels, i));
    }
    EqualByRows(Unpack(data).value, pixels, n, GroupPixels);
  }
}
