# foxglove-edgefirst converters in Dafny

This project models the message converters of the foxglove-edgefirst extension (`src/index.ts`). The extension turns EdgeFirst perception messages into Foxglove visualisation messages. The model covers five parts.

- **Mask → RawImage** (`MaskImage`). The score payload is read as `height × width × classes` bytes. Each pixel keeps its first strictly-largest class, the `(max_ind, max_val)` scan shared with the other mask converter in `ClassArgmax`. The pixel is painted in that class's palette colour, each channel scaled by the winning score, into an `rgba8` buffer. A zstd payload that cannot yet be decompressed leaves the buffer zeroed.
- **Mask → ImageAnnotations** (`MaskAnnotations`). The winning classes are split into one 0/255 mask per class. The masks of classes `1 .. classes-1` go to a contour tracer, and every contour becomes a closed outline in the class colour, projected onto a 1920 × 1080 frame. A transparent one-point outline is always appended last.
- **RadarCube → mono16 RawImage** (`RadarImage`). The `radar_seq` and `radar_rx` settings select one `height × width` slice of the 4-D cube. The slice is read through the vertical flip. Each sample's magnitude is compressed to 16 bits and stored big-endian. An unknown selector or an rx channel out of range gives an all-zero image.
- **uuid_to_color** (`TrackColor`). A track id is scanned as hexadecimal, skipping `-` and `.`, counting at most eight characters. Bytes 3, 2 and 1 of the resulting 32-bit code are red, green and blue. The scan keeps JavaScript's semantics for `<<`, `>>` and `& 0xff`.
- **box_to_color_label** (`BoxLabel`). The `box_label` setting, compared case-insensitively, chooses the label text (label, score, or both) and whether track mode colours and labels a box by its track id.

The shared modules are:

- `Wrappers`: `Option`.
- `Buffers`: the byte, u16 and i16 types, `GetOr` for JavaScript's `a[k] ?? d`, and zero buffers.
- `MaskDecode`: the Mask message and the zstd rule.
- `Palette`: the 21-entry class palette.
- `Arith`: two facts about multiplication used by the index arithmetic.

Imperative code stays imperative, as it is in the source:

- The converters are methods that fill a fresh `array<byte>` in a loop (`MaskToRgba`, `RadarToMono16`) or a `classes × pixels` `array2<byte>` (`SplitMasks`).
- The per-pixel argmax and the `uuid_to_color` scan (with its `continue` and `break`) are methods with loop invariants.
- Each method is proved equal to a specification function. The properties the code promises are lemmas about those functions.

Some things outside the code are parameters:

- The mutable globals `radarcube_sequence`, `radarcube_rx`, `box_label` and `zstd_loaded`.
- The foreign calls (`zstd.decompress`, `CV.findContours`, the `log2` amplitude compression, `cyrb53`, `toFixed(2)`). Each is a function-typed parameter.

Doubles are modelled as exact reals. Where the source stores the result into a `Uint8Array` this is exact: the integer quotient never lies within rounding distance of the next integer. Elsewhere the reals are an idealisation. The float colours (`ColorF`: the float palette, `str_to_color` and `uuid_to_color`) and the projected contour points (`Point2`) are exact quotients in the model, while the source's doubles may differ from them in the last bit. For example, `COLOR_I_TO_F * c` is not always the double nearest to c / 255.

Where the code departs from its documented design, the model follows the code:

- An encoding tag other than `"zstd"` passes the payload through unchanged (`MaskDecode.Decode`). It is not rejected.
- The flip reads row `height - floor(i / width)` exactly as written. The consequences are under Findings.
- The label colour of a box is `str_to_color` as written, with blue divided by `0xff00000` (`BoxLabel.BoxColorLabel`). The consequences are under Findings.

## Model

| member | source | states |
|---|---|---|
| Palette.ClassColorsAgree | src/index.ts:74-112 | The float palette is the 8-bit palette divided by 255, as exact reals (the source multiplies by the double `COLOR_I_TO_F`). Class 0 is transparent black. Classes 1..20 have alpha 200. Any class from 21 up falls back to opaque white (WHITE / WHITE_I8). |
| ClassArgmax.ClassCountRounds | src/index.ts:404 | The class count is `Math.round(len / h / w)`: the integer c with c - 1/2 <= len/(h*w) < c + 1/2, halves rounding up. |
| ClassArgmax.ClassCount | src/index.ts:404 | An empty image (h*w = 0) counts 0 classes, so no pixel is scanned. |
| ClassArgmax.ExactClassCount | src/index.ts:404 | When len is exactly k*(h*w), the class count is k. |
| ClassArgmax.ClassCountAsWritten | src/index.ts:447 | No ensures. It computes the class count as a loop bound: a whole number, or Infinity when a non-empty payload is divided by 0 pixels. `ClassCountAgrees` and `AllocationNeverEnds` state what it means. |
| ClassArgmax.ClassCountAgrees | src/index.ts:447 | With JavaScript's division by zero the count is Infinity exactly for an empty image with a non-empty payload; on every other input it equals the model's class count. |
| ClassArgmax.ExactReadsInBounds | src/index.ts:404-412 | With an exact payload length, every score read `i*classes + j` of every pixel lies inside the payload. |
| ClassArgmax.PixelScores | src/index.ts:411-412 | Pixel i's scores are the `classes` bytes from `i*classes`. A read at or past the end counts as 0 (`mask.at(k) ?? 0`). |
| ClassArgmax.Argmax | src/index.ts:409-417 | No ensures. It is the running (max_ind, max_val) scan over a pixel's scores as a recursive function. `ArgmaxIsFirstMax` and `ArgmaxCharacterised` state its meaning, and `PixelArgmax` is proved equal to it. |
| ClassArgmax.ArgmaxIsFirstMax | src/index.ts:409-417 | The strict-`>` scan ends with the largest score and the LOWEST index holding it. If every score is 0 it ends with (0, 0). For a non-empty pixel the index is a valid class. |
| ClassArgmax.FirstMaxUnique | src/index.ts:409-417 | The first-maximum description determines the pair uniquely. |
| ClassArgmax.ArgmaxCharacterised | src/index.ts:409-417 | The scan's result is a given pair if and only if that pair is the first maximum. |
| ClassArgmax.AllZeroScores | src/index.ts:409-417 | A pixel whose scores are all 0 keeps the initial (0, 0). |
| ClassArgmax.PixelArgmax | src/index.ts:409-417 | The inner loop computes the first maximum of pixel i, and its index is below `classes`. The same loop is at lines 456-464. |
| MaskDecode.Decode | src/index.ts:396-403 | No payload exactly when the message is zstd-encoded and the decompressor is not loaded. A loaded decompressor's output is the payload. Any other tag passes the payload through unchanged. |
| MaskImage.Shade | src/index.ts:419-421 | `(c * max_val) / 255` truncated into a byte is at most both c and max_val. It equals c at score 255 and max_val when c = 255. |
| MaskImage.RgbaPixel | src/index.ts:418-422 | The four bytes of a pixel for its winning class and score; there are always four. `RgbaPixelMeaning` states their values. |
| MaskImage.RgbaImage | src/index.ts:385-422 | The image has 4 bytes per pixel. Byte k is byte k mod 4 of pixel k / 4. |
| MaskImage.RgbaConversion | src/index.ts:384-403 | The converter's buffer always has h*w*4 bytes, whether or not the payload is available. |
| MaskImage.PaintPixel | src/index.ts:409-422 | The loop body writes exactly pixel i's four bytes and leaves every other byte unchanged. |
| MaskImage.MaskToRgba | src/index.ts:384-425 | The converter returns a fresh buffer equal to RgbaConversion. |
| MaskImage.RgbaImageAt | src/index.ts:418-422 | Bytes 4i..4i+3 are the RGBA pixel of pixel i's winning class and score. |
| MaskImage.RgbaPixelMeaning | src/index.ts:418-422 | Alpha is the palette alpha of the winning class. Each RGB byte is floor(c * max_val / 255) and never above the palette channel. Score 255 gives the palette colour exactly. A class >= 21 gives opaque grey of brightness max_val. Class 0 gives transparent black. |
| MaskImage.ZeroScoresClearPixel | src/index.ts:409-422 | A pixel whose scores are all 0 becomes transparent black. |
| MaskImage.NotLoadedGivesBlankImage | src/index.ts:397-402 | A zstd mask before the decompressor loads yields the untouched all-zero buffer of h*w*4 bytes. |
| MaskAnnotations.BinaryMask | src/index.ts:465-467 | The mask of class c is 255 exactly at the pixels whose winning class is c, and 0 elsewhere. |
| MaskAnnotations.MasksPartitionPixels | src/index.ts:448-469 | With at least one class, every pixel is 255 in exactly one mask. That mask belongs to its first maximum-scoring class. Every other mask is 0 there. |
| MaskAnnotations.SplitMasks | src/index.ts:447-469 | `classes` zero-initialised masks of h*w bytes are allocated, and each pixel is marked in the mask of its winning class. |
| MaskAnnotations.ProjectCoord | src/index.ts:488-489 | No ensures. It computes the centre-of-pixel projection `((v + 0.5) / size) * frame`. `ProjectInsideFrame` and `ProjectExample` state its meaning. |
| MaskAnnotations.ProjectInsideFrame | src/index.ts:486-489 | A contour point inside the mask projects strictly inside the 1920 × 1080 frame. |
| MaskAnnotations.ProjectExample | src/index.ts:488-489 | Centre-of-pixel sampling: pixel 0 of a 10-pixel axis lands at 5.0 on a 100-unit axis, pixel 9 at 95.0. |
| MaskAnnotations.ContourPoints | src/index.ts:486-492 | A contour with `len` int32 entries yields ceil(len / 2) points. |
| MaskAnnotations.ProjectContour | src/index.ts:486-492 | The point loop yields ceil(len / 2) points. Point k is the projection of entries 2k and 2k+1, and a missing odd entry reads as 0. |
| MaskAnnotations.Outlines | src/index.ts:481-507 | One outline per contour. |
| MaskAnnotations.OutlineContours | src/index.ts:481-507 | The contour loop yields, in order, one LINE_LOOP outline per contour. It uses the class colour as outline and fill, with thickness 3. |
| MaskAnnotations.ClassAnnotations | src/index.ts:476-507 | A class contributes exactly as many outlines as the tracer returns contours for its mask. |
| MaskAnnotations.MaskRow | src/index.ts:472-476 | The buffer handed to the tracer is the class's mask, byte for byte. |
| MaskAnnotations.TraceClasses | src/index.ts:471-511 | The class loop traces classes 1 .. classes-1 in order and never the background class. |
| MaskAnnotations.MaskToAnnotations | src/index.ts:432-525 | The converter's points list equals AnnotationConversion: the outlines of classes 1 .. classes-1 followed by the sentinel. It is empty when the payload is unavailable. |
| MaskAnnotations.AnnotationsBelow | src/index.ts:471-511 | No ensures. It computes the outlines of classes 1 .. n-1, class by class. `OutlinesUseTracedClassColours` and `OneOutlinePerContour` state its meaning, and `TraceClasses` is proved equal to it. |
| MaskAnnotations.AnnotationConversion | src/index.ts:432-525 | No ensures. It computes the converter's points list. `SentinelAlwaysLast` and `EmptyImageGivesOnlySentinel` state its meaning, and `MaskToAnnotations` is proved equal to it. |
| MaskAnnotations.AllocationNeverEnds | src/index.ts:447-451 | As written, for an empty image with a payload the test `i < classes` holds for every i, so the mask allocation loop never ends. |
| MaskAnnotations.EmptyImageGivesOnlySentinel | src/index.ts:447-525 | With the class count of an empty image taken as 0, the converter returns only the sentinel, whatever the payload. |
| MaskAnnotations.SentinelAlwaysLast | src/index.ts:439-525 | The points list is empty exactly when the decompressor is not loaded for a zstd mask. Otherwise its last element is the transparent one-point sentinel of thickness 5. |
| MaskAnnotations.OutlinesUseTracedClassColours | src/index.ts:471-504 | Every outline before the sentinel is drawn and filled in the colour of some class 1 <= c < classes, with thickness 3. |
| MaskAnnotations.OneOutlinePerContour | src/index.ts:481-505 | The number of outlines is the total number of contours traced over classes 1 .. classes-1. |
| RadarImage.SequenceOffset | src/index.ts:550-557 | No ensures. It computes the offset of the selected sequence, or none for an unknown selector. `SliceOffsetMeaning` and `SliceOffsetExamples` state its meaning. |
| RadarImage.SliceOffset | src/index.ts:550-566 | No ensures. It computes the offset of the selected rx slice, or none when nothing is drawn. `SliceOffsetMeaning`, `BadSelectionIsBlank` and `BlankSelectionExamples` state its meaning. |
| RadarImage.SliceOffsetMeaning | src/index.ts:550-566 | A slice is drawn exactly for the selectors "A", "B" and "" with 0 <= rx < shape[2]. Its offset is then element [s, 0, rx, 0], and `offset + row*stride + col` is element [s, row, rx, col] of the cube. Here s is 0 for "A", and for "B"/"" it is 1 when shape[0] > 1, else 0. |
| RadarImage.FlatIndexInCube | src/index.ts:536-538 | A coordinate within the shape (missing dimensions default to 1) indexes inside a cube of the declared size. |
| RadarImage.PackBigEndian | src/index.ts:575-576 | Each sample is written as two bytes. |
| RadarImage.PackBigEndianRoundTrip | src/index.ts:575-576 | The two bytes `val >> 8`, `val % 256` read back big-endian give the value, so packing is injective. |
| RadarImage.Mono16Slice | src/index.ts:569-577 | The drawn slice has 2 bytes per pixel. |
| RadarImage.Mono16Image | src/index.ts:539-577 | The output always has width*height*2 bytes. |
| RadarImage.BadSelectionIsBlank | src/index.ts:551-564 | An unknown selector, a negative rx or rx >= shape[2] gives the all-zero buffer. |
| RadarImage.Mono16PixelMeaning | src/index.ts:569-576 | Drawn pixel i is the big-endian compressed magnitude of cube element [s, height - floor(i/width), rx, i mod width]. A read outside the cube counts as 0. |
| RadarImage.SignIgnored | src/index.ts:573 | Only the magnitude of a sample matters: cubes with equal magnitudes give equal images. |
| RadarImage.PaintSample | src/index.ts:575-576 | The loop body writes exactly pixel i's two bytes. |
| RadarImage.RadarToMono16 | src/index.ts:535-579 | The converter returns a fresh buffer equal to Mono16Image. |
| RadarImage.NotFiniteRxIsBlank | src/index.ts:165-169 | A non-finite rx setting becomes -1 and therefore draws nothing. |
| RadarImage.SliceOffsetExamples | src/index.ts:550-566 | For a [2, 4, 3, 5] cube: "A" starts at 0, "B" and "" at 60, "B" with rx 2 at 70. A single-sequence cube's "B" starts at 0. |
| RadarImage.BlankSelectionExamples | src/index.ts:551-564 | rx 3, rx -1 and the selector "C" draw nothing for a [2, 4, 3, 5] cube. |
| RadarImage.RowBelowHeight | src/index.ts:569-571 | Every pixel of the loop lies on a row below height. |
| RadarImage.SourceRow | src/index.ts:571 | No ensures. It computes the cube row shown on an output row, flipped as written. `FlipNeverShowsRowZero` states its range. |
| RadarImage.CubeIndex | src/index.ts:572 | No ensures. It computes the flat cube index a pixel reads. `Mono16PixelMeaning`, `FlipReadsNextSequenceRow` and `FlipExample` state which element that is. |
| RadarImage.FlipReadsNextSequenceRow | src/index.ts:571-572 | As written, output row 0 reads row 0 of the NEXT sequence, element [s+1, 0, rx, col]. |
| RadarImage.FlipNeverShowsRowZero | src/index.ts:571 | As written, the rows read are 1 .. height, never row 0 of the slice. |
| RadarImage.FlipExample | src/index.ts:571-572 | Cube [2, 4, 3, 5], sequence "A", rx 0: output pixel 0 reads element 60, the first element of sequence "B". |
| RadarImage.FlippedRowStaysInSlice | src/index.ts:571-572 | With the intended flip `height - 1 - floor(i/width)`, every pixel reads inside the selected slice, at element [s, height-1-row, rx, col]. |
| RadarImage.FlippedRowsDistinct | src/index.ts:571 | With the intended flip, two pixels show the same slice row exactly when they are on the same output row. |
| TrackColor.ToInt32 | src/index.ts:135 | The signed 32-bit reading used by `<<` lies in [-2^31, 2^31) and agrees with its argument modulo 2^32. |
| TrackColor.Code | src/index.ts:135 | The accumulated code is a 32-bit unsigned value. |
| TrackColor.ShiftAddStep | src/index.ts:135 | `(hexcode << 4) + val` agrees modulo 2^32 with shifting the unsigned code four bits and adding val. |
| TrackColor.Int32Byte | src/index.ts:143-145 | `(x >> 24) & 0xff`, `(x >> 16) & 0xff` and `(x >> 8) & 0xff` on the signed reading give the bytes of the unsigned code x mod 2^32. |
| TrackColor.DigitsAppend | src/index.ts:121-125 | The counted digits of a concatenation are the concatenation of the counted digits. |
| TrackColor.UuidColor | src/index.ts:119-148 | The colour of a track id is opaque, with channels in [0, 1]. `SeparatorsIgnored`, `StopsAfterEight` and `HexIdGivesLeadingBytes` state how it depends on the id, and `UuidToColor` is proved equal to it. |
| TrackColor.SeparatorsIgnored | src/index.ts:122-125 | Inserting '-' or '.' anywhere does not change the colour. |
| TrackColor.StopsAfterEight | src/index.ts:138-141 | Once eight characters have been counted, nothing after them changes the colour. |
| TrackColor.CodeOfHexDigits | src/index.ts:126-135 | Up to eight hexadecimal digits never wrap: the code is their base-16 value. |
| TrackColor.HexIdGivesLeadingBytes | src/index.ts:142-147 | For an id whose first eight counted characters are hex digits, red, green and blue are the first three hex byte pairs divided by 255. Alpha is 1. |
| TrackColor.ChannelsOfBytes | src/index.ts:143-145 | The shifts by 24, 16 and 8 pick bytes 3, 2 and 1 of the code. |
| TrackColor.CodeValue | src/index.ts:126-133 | The comparison chain gives the digit's value for '0'-'9', 'a'-'f' and 'A'-'F'. |
| TrackColor.ShiftIn | src/index.ts:135 | One accumulation step keeps the code modulo 2^32. |
| TrackColor.ColorOf | src/index.ts:142-147 | The returned colour is bytes 3, 2 and 1 of the unsigned code over 255, with alpha 1. |
| TrackColor.UuidToColor | src/index.ts:119-148 | The scan with `continue` on separators and `break` after the eighth counted character returns UuidColor of the id. |
| BoxLabel.ModeOf | src/index.ts:203-218 | No ensures. It computes the switch on `box_label.toLowerCase()`, with track mode as the default. `ModeIgnoresCase` and `ModeExamples` state its meaning. |
| BoxLabel.ModeIgnoresCase | src/index.ts:202 | The mode does not depend on the case of the setting. |
| BoxLabel.ModeExamples | src/index.ts:202-218 | "Label", "SCORE" and "Label-Score" select their modes. "track", the unset default "" and anything else select track mode. |
| BoxLabel.StrColorInUnitRange | src/index.ts:189-197 | The corrected str_to_color is opaque, with channels in [0, 1], and blue reaches 1. |
| BoxLabel.StrColorBlueCapped | src/index.ts:195 | As written, blue is the intended blue divided by 16, never above 1/16. |
| BoxLabel.StrColorBlueExample | src/index.ts:195 | Hash 0xff0000: blue is 1/16 as written and 1 as intended. |
| BoxLabel.StrColorAsWritten | src/index.ts:189-197 | No ensures. It computes `str_to_color` as written, with blue divided by 0xff00000. `StrColorAsWrittenInUnitRange`, `StrColorBlueCapped` and `StrColorBlueExample` state its meaning. |
| BoxLabel.StrColorAsWrittenInUnitRange | src/index.ts:189-197 | As written, str_to_color is opaque with channels in [0, 1]; red and green equal the corrected ones. |
| BoxLabel.BoxColorLabel | src/index.ts:200-220 | The box colour is always opaque. `LabelColorUnlessTracked`, `TrackModeUsesId` and `BoxColorInUnitRange` state the colour and text in each mode. |
| BoxLabel.BoxColorInUnitRange | src/index.ts:200-220 | Every box gets an opaque colour with channels in [0, 1]: the as-written label colour or the track colour. |
| BoxLabel.LabelColorUnlessTracked | src/index.ts:200-219 | Outside track mode, or with an empty track id, the colour is `str_to_color` of the label as written, so its blue is at most 1/16. The text is the label, the score, or `label + " " + score` according to the mode. |
| BoxLabel.TrackModeUsesId | src/index.ts:213-218 | In track mode a box with a track id is labelled with the id's first eight characters (all of a shorter id) and coloured by uuid_to_color of the id. Boxes of one track share a colour. |

## Left out

- Contour tracing (`CV.findContours`, src/index.ts:476-511) is a foreign OpenCV call. It is the `Tracer` parameter, and the model states only the bookkeeping around it: the mask handed over, one outline per contour, class colours and the sentinel. Freeing the OpenCV objects is not modelled.
- `zstd.decompress` and `loadWASM` (src/index.ts:371-379) are a foreign WASM library with asynchronous start-up. They are the `decompress` and `zstdLoaded` parameters.
- The log2 amplitude compression (src/index.ts:568, 573-574) is floating point. It is the `compress` parameter, which returns an integer in [0, 65535] (the floored, clamped value). `val % 256` on a non-integer double stores the same byte as the floored value's remainder.
- The `cyrb53` hash (src/index.ts:174-187) is `Math.imul` bit mixing. It is the `hash` parameter; only the channel arithmetic of `str_to_color` is modelled.
- `toFixed(2)` (src/index.ts:207, 210) is float formatting. It is the `fixed2` parameter.
- Box projection in the detect converters (src/index.ts:222-368) is straight-line float scaling and is not modelled.
- Extension registration and the topic-alias callback (src/index.ts:159-172, 584-589) are host plumbing. The globals they fill are parameters; only the rule that a non-finite rx becomes -1 is kept (`RadarImage.RxOf`).
- RawImage header fields (timestamp, frame_id, step, encoding) and annotation timestamps are constants or copied from the input. They are not modelled.
- Circles and texts of the mask annotations are always empty and are not modelled.
- A non-integer rx setting is not modelled; rx is an integer.
- BoxLabel.TrackModeUsesId: `substring(0, 8)` counts UTF-16 code units, while the model counts characters. Ids with characters outside the Basic Multilingual Plane are not covered.
- BoxLabel.ModeOf: `toLowerCase` is modelled on ASCII letters only. No other character lowers to a letter of "label", "score" or "label-score", so the chosen mode is the same.
- MaskAnnotations.SplitMasks and MaskAnnotations.MaskToAnnotations exclude an empty image (h*w = 0) with a non-empty payload. There the source's class count is Infinity and its mask allocation loop never ends (see Findings).
- The Mask message's `length` field is not read by the converters and is not modelled.

## Findings

| source | as written | input that shows it | evidently intended | confidence | as-written member | corrected member |
|---|---|---|---|---|---|---|
| src/index.ts:571 | The flipped row is `height - Math.floor(i / width)`. This ranges over 1 .. height, so output row 0 reads row `height`, which is row 0 of the next sequence (or past the end of the cube for the last sequence), and row 0 of the slice is never shown. | Cube shape [2, 4, 3, 5], sequence "A", rx 0, pixel 0: reads element 60, the first element of sequence "B". | `height - 1 - Math.floor(i / width)`, which keeps every read inside the selected slice and shows each row once. | not executed | RadarImage.FlipReadsNextSequenceRow | RadarImage.FlippedRowStaysInSlice |
| src/index.ts:195 | Blue is `(hash & 0xff0000) / 0xff00000`. The divisor has one zero too many, so blue never exceeds 1/16. | Hash 0xff0000: blue = 1/16. | `(hash & 0xff0000) / 0xff0000`, blue in [0, 1] like red and green. | not executed | BoxLabel.StrColorBlueCapped | BoxLabel.StrColorInUnitRange |
| src/index.ts:447-451 | The class count is `Math.round(mask.length / height / width)`, and `classes` masks are allocated. For an empty image with a non-empty payload the count is Infinity, so the allocation loop never ends. | Height 0, width 4, a 1-byte raw payload: `1 / 0 / 4` is Infinity. | An empty image has no classes, and the converter returns only the sentinel. | not executed | MaskAnnotations.AllocationNeverEnds | MaskAnnotations.EmptyImageGivesOnlySentinel |
