# Arducam RAW10 converter: a Dafny model

This project models the core of the Arducam RAW converter (`raw_converter/raw_to_img.py`). The converter:

- reads a MIPI CSI-2 RAW10 byte stream, in which every five bytes carry four 10-bit pixels;
- unpacks the stream into 16-bit samples and reduces each sample to eight bits;
- reshapes the samples row-major into a height-by-width plane;
- looks the requested Bayer order up in a five-entry table, which says whether the plane goes on to colour conversion. `GREY` means no conversion.

The core is written with whole-array expressions and has no loops or in-place updates. The model is therefore pure: datatypes, functions and lemmas.

- `wrappers.dfy` holds `Option` and `Result` and the converter's error values.
- `layout.dfy` (module `Layout`) models numpy's row-major two-dimensional reshape and its flattening.
- `raw10.dfy` (module `Raw10`) models `unpack_mipi_raw10`. It follows the same column-wise steps as the array code: group rows, widen to 16 bits, split into five columns, combine four pixel columns, interleave. Beside it are a one-group view (`UnpackGroup`) and the inverse packer (`Pack`).
- `bayer.dfy` (module `Bayer`) models the `bayer_order_maps` table.
- `converter.dfy` (module `Converter`) models the pipeline inside `convert`: lookup, unpack, `>> 2` with the `uint8` cast, and `reshape(height, width)`.
- `examples.dfy` (module `Scenarios`) proves the converter's results on small concrete inputs.

Bytes are `bv8` and the unpacker's 16-bit arithmetic is `bv16`, so shifts and masks mean what they mean in numpy. The `astype(uint8)` cast is written out as the truncation `& 0xFF`. The model proves that this truncation loses nothing for 10-bit samples.

Both size checks in the source are real failures. The model returns errors for them and never truncates:

- Reshaping the buffer into five-byte groups (lines 44-45) requires the byte count to be an exact multiple of five. Otherwise numpy raises, so a stream with a partial group produces no output at all.
- `reshape(height, width)` (line 75) requires height * width to equal the sample count.

An empty stream is accepted and unpacks to zero samples.

The failures are checked in the order the source meets them:

1. Bayer-order lookup (line 70).
2. Unpacking (line 73).
3. Reshape (line 75).

## Model

| member | source | states |
|---|---|---|
| `Layout.Rows` | raw_converter/raw_to_img.py:75 | Splitting rows * cols elements gives exactly `rows` rows, each of `cols` elements. |
| `Layout.FlattenLength` | raw_converter/raw_to_img.py:50-51 | Flattening (numpy's reshape to one dimension) of n uniform rows of `cols` elements gives n*cols elements. |
| `Layout.FlattenAt` | raw_converter/raw_to_img.py:50-51 | Flattening puts element (i, j) of a uniform array at position i*cols + j. |
| `Layout.Reshape` | raw_converter/raw_to_img.py:75 | numpy's 2-D reshape succeeds exactly when rows * cols equals the element count. On success, row i is elements i*cols .. i*cols+cols-1 of the input, and flattening the result gives back the input. |
| `Layout.RowsAt` | raw_converter/raw_to_img.py:75 | Row r of the reshaped array is the r-th run of `cols` consecutive input elements. |
| `Layout.RowMajorAt` | raw_converter/raw_to_img.py:75 | In a row-major layout, element (r, c) is flat element r*cols + c, and that index is in range. |
| `Layout.FlattenRows` | raw_converter/raw_to_img.py:50-51 | Reshaping into rows and flattening back reproduces the flat sequence. |
| `Layout.RowsFlatten` | raw_converter/raw_to_img.py:50-51 | A uniform 2-D array of n rows flattens to n*cols elements and is recovered by reshaping the flattening. |
| `Raw10.Unpack` | raw_converter/raw_to_img.py:41-52 | The unpacker succeeds exactly when the byte count is a multiple of 5. It then yields 4 samples per 5 bytes. Any other count is refused with `InvalidBufferLength` and yields no samples. |
| `Raw10.WidenValue` | raw_converter/raw_to_img.py:45 | `astype(np.uint16)` keeps a byte's value: the word equals the byte and is at most 0xFF. |
| `Raw10.Column` | raw_converter/raw_to_img.py:44-45 | Column j of the transposed groups has one entry per group. Entry i is byte j of group i, widened without change. |
| `Raw10.PixelParts` | raw_converter/raw_to_img.py:46-49 | A pixel keeps both parts: shifting it right by two gives the high byte, and its two low bits are the 2-bit field selected by the shift. |
| `Raw10.Combine` | raw_converter/raw_to_img.py:46-49 | The column expression `(b << 2) + ((b5 >> s) & 0x3)` keeps the column length. Each entry built from a byte-sized high part has that high part above bit 2 and the selected field in bits 0-1. |
| `Raw10.Interleave` | raw_converter/raw_to_img.py:50-51 | Concatenating the four pixel columns along axis 1 gives one row per group, holding o1, o2, o3, o4 of that group in that order. |
| `Raw10.GroupPixelRows` | raw_converter/raw_to_img.py:44-51 | The column-wise unpacker gives one row of four pixels per group. |
| `Raw10.Groups` | raw_converter/raw_to_img.py:44-45 | A stream of 5k bytes splits into k non-overlapping groups. Group i is bytes 5i..5i+4. The unpacker's result is computed from these groups. |
| `Raw10.GroupPixelRowsAt` | raw_converter/raw_to_img.py:46-51 | Combining the widened byte columns and interleaving the four pixel columns puts the four pixels of group i, p0..p3, in row i. |
| `Raw10.UnpackGroupPixel` | raw_converter/raw_to_img.py:46-49 | Pixel j of a group is (byte j << 2) + ((byte 4 >> 2j) & 3). |
| `Raw10.UnpackGroupAt` | raw_converter/raw_to_img.py:44-51 | Output samples 4i..4i+3 are the four pixels of bytes 5i..5i+4, in the order p0..p3. Groups keep their input order. |
| `Raw10.UnpackAt` | raw_converter/raw_to_img.py:46-51 | Output sample 4i+j equals data[5i+j]*4 + ((data[5i+4] >> 2j) & 3). |
| `Raw10.PixelIsOr` | raw_converter/raw_to_img.py:46-49 | The shifted high byte and the 2-bit field never overlap, so the unpacker's `+` equals bitwise or. |
| `Raw10.PixelBound` | raw_converter/raw_to_img.py:45-49 | A pixel computed in 16 bits from two bytes lies in [0, 1023]. As an integer it equals msb*4 + field, so the shift by two does not overflow. |
| `Raw10.UnpackRange` | raw_converter/raw_to_img.py:41-52 | Every unpacked sample lies in [0, 1023]. |
| `Raw10.Pack` | raw_converter/raw_to_img.py:43-49 | The reference RAW10 packer (msb_j = v_j >> 2, low byte = Σ (v_j & 3) << 2j) turns 4k samples into 5k bytes. |
| `Raw10.GroupUnpackPack` | raw_converter/raw_to_img.py:43-49 | Unpacking a group yields 10-bit samples, and packing them again reproduces its five bytes. |
| `Raw10.GroupPackUnpack` | raw_converter/raw_to_img.py:43-49 | Packing four 10-bit samples and unpacking the group reproduces them. |
| `Raw10.PackGroupAt` | raw_converter/raw_to_img.py:43-49 | Bytes 5i..5i+4 of the packed stream are the packing of samples 4i..4i+3. |
| `Raw10.UnpackPackRoundTrip` | raw_converter/raw_to_img.py:41-52 | Unpacking loses no information: packing the unpacked samples reproduces every valid stream. |
| `Raw10.PackUnpackRoundTrip` | raw_converter/raw_to_img.py:41-52 | Every sequence of 4k 10-bit samples is recovered by unpacking its packing. |
| `Bayer.Name` | raw_converter/raw_to_img.py:29-35 | Every order's name is one of the table's five keys, which are the `choices` of line 93. |
| `Bayer.ParseBayerOrder` | raw_converter/raw_to_img.py:29-35 | Exactly the five names RGGB, GRBG, BGGR, GBRG and GREY are accepted, and each names its own order. |
| `Bayer.CvtCodeOf` | raw_converter/raw_to_img.py:29-35 | The table's conversion for each order. The conversion is "none" exactly for GREY. |
| `Bayer.ParseName` | raw_converter/raw_to_img.py:93 | Every order's name is among the accepted choices and is looked up to that order. |
| `Bayer.CvtCodeInjective` | raw_converter/raw_to_img.py:29-35 | Distinct orders select distinct conversions. |
| `Converter.Reduce8` | raw_converter/raw_to_img.py:74 | `(v >> 2).astype(uint8)`: for a 10-bit sample, the truncating cast keeps v >> 2 exactly. |
| `Converter.ReduceTo8Bit` | raw_converter/raw_to_img.py:74 | The reduction keeps the sample count, and each 10-bit sample k becomes sample k >> 2. |
| `Converter.ReducePixel` | raw_converter/raw_to_img.py:46-49 | Reducing an unpacked pixel gives back its high byte exactly. |
| `Converter.Reduce8Monotone` | raw_converter/raw_to_img.py:74 | The reduction preserves the order of 10-bit samples. |
| `Converter.ReducedAt` | raw_converter/raw_to_img.py:46-49 | After reduction, sample 4i+j equals byte 5i+j of the stream. |
| `Converter.ReducedSampleAt` | raw_converter/raw_to_img.py:73-74 | Reduced sample k is byte 5*(k/4) + k%4 of the stream. |
| `Converter.ReducedIgnoresLowBits` | raw_converter/raw_to_img.py:46-49 | The fifth byte of each group has no effect on the 8-bit samples. Two streams that differ only there reduce to the same samples. |
| `Converter.AssemblePlane` | raw_converter/raw_to_img.py:75 | The plane has `height` rows of `width` samples in row-major order and flattens back to the samples. It is refused with `ShapeMismatch` exactly when height*width differs from the sample count. |
| `Converter.Convert` | raw_converter/raw_to_img.py:65-77 | The pipeline succeeds exactly when the order is in the table, the byte count is a multiple of 5, and height*width = 4/5 of the byte count. Each failure carries its own error, in pipeline order. The plane is height by width. The plane is passed on unconverted exactly for GREY, and otherwise carries the table's conversion. |
| `Converter.ConvertPlane` | raw_converter/raw_to_img.py:73-75 | A successful conversion's plane is the reduced samples laid out row-major. |
| `Converter.ConvertAt` | raw_converter/raw_to_img.py:73-75 | Pixel (row, col) of the output plane is the high byte of raster pixel row*width+col, that is byte 5*(k/4) + k%4 of the stream for k = row*width+col. |
| `Scenarios.CraftedGroup` | raw_converter/raw_to_img.py:46-51 | The group FF 00 AA 55 E4 unpacks to 1020, 1, 682, 343. |
| `Scenarios.SevenBytesRefused` | raw_converter/raw_to_img.py:44-45 | A 7-byte stream is refused, not cut down to one group. |
| `Scenarios.FiveSamplesInFourRefused` | raw_converter/raw_to_img.py:75 | Five samples do not reshape to 1 by 4. |
| `Scenarios.ReductionSamples` | raw_converter/raw_to_img.py:74 | 1020 and 1023 reduce to 255, and 0 reduces to 0. |
| `Scenarios.GreyTwoGroups` | raw_converter/raw_to_img.py:65-77 | A two-group stream converted as a 4-by-2 GREY image is the unconverted plane of its high bytes, row by row. |

The 8-bit samples lie in [0, 255] by their type (`bv8`).

## Left out

- The colour conversion `cv2.cvtColor` (line 77) is a call into OpenCV. The model records only which conversion the table selects, or that none is applied.
- File input (`np.fromfile`, line 72) and output (`save_image`/`cv2.imwrite`, lines 62-63, 78) are I/O. The stream is a parameter and the plane is the result.
- Window display in `show` (lines 54-60) is user interface.
- Command-line parsing in `parse_cmdline` (lines 82-96) is left out because it is argparse and Python built-ins. This includes the base-prefixed `int(x, 0)` parsing of width and height. The `choices` restriction on the Bayer order (line 93) and the dictionary lookup (line 70) are both modelled by `Bayer.ParseBayerOrder` failing. `Converter.Convert` reports that failure as `UnsupportedBayerOrder`.
- `bit_depth_maps` and the local `depth = 10` (lines 37-39, 71) are never used.
- Width and height are natural numbers. numpy's `-1` "infer this dimension" and its errors for other negative dimensions are not modelled.
- A plane of height 0 is the empty sequence of rows, so the model does not keep the `width` of numpy's `(0, width)` array shape. This affects empty images only.
- Python exceptions (`KeyError`, `ValueError` from reshape) are modelled as `Result` error values. The model does not distinguish exception types beyond these error variants.
