/** Worked examples of the converter on small concrete inputs. */
module Scenarios {
  import opened Wrappers
  import opened Errors
  import opened Layout
  import opened Raw10
  import opened Bayer
  import opened Converter

  /** One group FF 00 AA 55 E4: low-bit fields 0, 1, 2, 3 give 1020, 1, 682, 343. */
  lemma CraftedGroup()
    ensures Unpack([0xFF, 0x00, 0xAA, 0x55, 0xE4]) == Success([1020, 1, 682, 343])
  {
    var data: seq<Byte> := [0xFF, 0x00, 0xAA, 0x55, 0xE4];
    UnpackGroupAt(data, 0);
    assert RowOf(data, GroupBytes, 0) == data;
    assert RowOf(Unpack(data).value, GroupPixels, 0) == Unpack(data).value;
  }

  /** A seven-byte stream is refused, not cut down to its first group. */
  lemma SevenBytesRefused(data: seq<Byte>)
    requires |data| == 7
    ensures Unpack(data) == Failure(InvalidBufferLength(7))
  {
  }

  /** Five samples do not fit a 4-by-1 plane: refused, the fifth is not dropped. */
  lemma FiveSamplesInFourRefused(samples: seq<Byte>)
    requires |samples| == 5
    ensures AssemblePlane(samples, 1, 4) == Failure(ShapeMismatch(5, 1, 4))
  {
  }

  /** 1020 and 1023 both reduce to 255; 0 reduces to 0. */
  lemma ReductionSamples()
    ensures Reduce8(1020) == 255 && Reduce8(1023) == 255 && Reduce8(0) == 0
  {
  }

  /** Two groups as a 4-by-2 GREY image: the plane holds the high bytes, row by row, unconverted. */
  lemma GreyTwoGroups(data: seq<Byte>)
    requires data == [0x10, 0x20, 0x30, 0x40, 0xFF, 0x50, 0x60, 0x70, 0x80, 0x00]
    ensures Convert(data, 4, 2, "GREY") == Success(Grey([[0x10, 0x20, 0x30, 0x40], [0x50, 0x60, 0x70, 0x80]]))
  {
    var r := Convert(data, 4, 2, "GREY");
    assert r.Success? && r.value.Grey?;
    var plane := r.value.plane;
    assert |plane| == 2 && |plane[0]| == 4 && |plane[1]| == 4;
    forall col | 0 <= col < 4
      ensures plane[0][col] == data[col] && plane[1][col] == data[5 + col]
    {
      ConvertAt(data, 4, 2, "GREY", 0, col);
      ConvertAt(data, 4, 2, "GREY", 1, col);
      assert HighByteIndex(col) == col && HighByteIndex(4 + col) == 5 + col;
    }
    assert plane[0] == data[..4];
    assert plane[1] == data[5..9];
    assert data[..4] == [0x10, 0x20, 0x30, 0x40] && data[5..9] == [0x50, 0x60, 0x70, 0x80];
    assert plane == [plane[0], plane[1]];
    assert r == Success(Grey(plane));
  }
}
