/**
 * The RadarCube -> RawImage converter: one height x width slice of the
 * four-dimensional cube [sequence, height, rx, width], chosen by the
 * sequence selector and the receive channel, is read row-flipped, mapped
 * through the amplitude compression and packed as big-endian mono16.
 * The compression (log2 of the magnitude, scaled by 65535/2500 and capped at
 * 65535) is floating point and outside the model: `compress` stands for it,
 * already truncated to the integer the Uint8Array stores keep.
 */
module RadarImage {
  import opened Buffers
  import opened Arith
  import opened Wrappers

  datatype RadarCube = RadarCube(shape: seq<u16>, cube: seq<i16>)

  /** Maps a sample's magnitude to the 16-bit pixel value. */
  type Compress = nat -> u16

  /** REVERSE_HEIGHT */
  const ReverseHeight: bool := true

  /** `shape[k] ?? 1` */
  function Dim(shape: seq<u16>, k: nat): nat {
    GetOr(shape, k, 1)
  }

  /** Row length of the flattened cube: one row holds every rx channel. */
  function Stride(shape: seq<u16>): nat {
    Dim(shape, 2) * Dim(shape, 3)
  }

  /** The flat index of cube element [s, row, r, col]. */
  function FlatIndex(shape: seq<u16>, s: nat, row: nat, r: nat, col: nat): nat {
    ((s * Dim(shape, 1) + row) * Dim(shape, 2) + r) * Dim(shape, 3) + col
  }

  /** The offset the sequence selector picks, or None for an unknown selector. */
  function SequenceOffset(shape: seq<u16>, sequence: string): Option<nat> {
    if sequence == "A" then Some(0)
    else if sequence == "B" || sequence == "" then
      Some(if Dim(shape, 0) > 1 then Dim(shape, 1) * Stride(shape) else 0)
    else None
  }

  /** The sequence index a known selector stands for: "B" (and the default "") only when there are two. */
  function SequenceIndex(shape: seq<u16>, sequence: string): nat {
    if sequence != "A" && Dim(shape, 0) > 1 then 1 else 0
  }

  /** The slice's offset: the sequence offset plus `width * rx`, or None when nothing is drawn. */
  function SliceOffset(shape: seq<u16>, sequence: string, rx: int): Option<nat> {
    match SequenceOffset(shape, sequence)
    case None => None
    case Some(base) =>
      if rx < 0 || rx >= Dim(shape, 2) then None else Some(base + Dim(shape, 3) * rx)
  }

  /**
   * The slice is drawn exactly for a known selector and an rx channel that
   * exists; its offset is then the first element of row 0 of that sequence
   * and channel, and every element row*stride + col past it is element
   * [s, row, rx, col] of the cube.
   */
  lemma SliceOffsetMeaning(shape: seq<u16>, sequence: string, rx: int)
    ensures SliceOffset(shape, sequence, rx).Some? <==>
      (sequence == "A" || sequence == "B" || sequence == "") && 0 <= rx < Dim(shape, 2)
    ensures SliceOffset(shape, sequence, rx).Some? ==>
      var o, s := SliceOffset(shape, sequence, rx).value, SequenceIndex(shape, sequence);
      forall row: nat, col: nat {:trigger FlatIndex(shape, s, row, rx, col)} ::
        o + row * Stride(shape) + col == FlatIndex(shape, s, row, rx, col)
  {
    if SliceOffset(shape, sequence, rx).Some? {
      var o, s := SliceOffset(shape, sequence, rx).value, SequenceIndex(shape, sequence);
      var h, R, w := Dim(shape, 1), Dim(shape, 2), Dim(shape, 3);
      assert o == s * h * (R * w) + w * rx;
      forall row: nat, col: nat
        ensures o + row * Stride(shape) + col == FlatIndex(shape, s, row, rx, col)
      {
        assert FlatIndex(shape, s, row, rx, col) == s * h * (R * w) + row * (R * w) + rx * w + col;
      }
    }
  }

  /** The element [s, row, r, col] of an in-range coordinate lies inside a cube of the declared size. */
  lemma FlatIndexInCube(shape: seq<u16>, s: nat, row: nat, r: nat, col: nat)
    requires s < Dim(shape, 0) && row < Dim(shape, 1) && r < Dim(shape, 2) && col < Dim(shape, 3)
    ensures FlatIndex(shape, s, row, r, col) < Dim(shape, 0) * Dim(shape, 1) * Dim(shape, 2) * Dim(shape, 3)
  {
    IndexBound(Dim(shape, 0), Dim(shape, 1), Dim(shape, 2), Dim(shape, 3), s, row, r, col);
  }

  /** Mixed-radix bound: a coordinate below each dimension indexes below their product. */
  lemma IndexBound(d0: nat, d1: nat, d2: nat, d3: nat, s: nat, row: nat, r: nat, col: nat)
    requires s < d0 && row < d1 && r < d2 && col < d3
    ensures ((s * d1 + row) * d2 + r) * d3 + col < d0 * d1 * d2 * d3
  {
    var a := s * d1 + row;
    assert a < (s + 1) * d1 == s * d1 + d1;
    MulMono(s + 1, d0, d1);
    var b := a * d2 + r;
    assert b < (a + 1) * d2 == a * d2 + d2;
    MulMono(a + 1, d0 * d1, d2);
    assert b * d3 + col < (b + 1) * d3 == b * d3 + d3;
    MulMono(b + 1, d0 * d1 * d2, d3);
  }

  /** A pixel of a w x h image lies on one of its h rows. */
  lemma RowBelowHeight(i: nat, w: nat, h: nat)
    requires i < w * h
    ensures w > 0 && i / w < h
  {
    MulCancel(i / w, h, w);
  }

  /** The cube row shown on output row i / width, as the source computes it. */
  function SourceRow(i: nat, w: nat, h: nat): int
    requires w > 0
  {
    var row := i / w;
    if ReverseHeight then h - row else row
  }

  /** `offset + curr_height * stride + i % width` */
  function CubeIndex(offset: nat, i: nat, w: nat, h: nat, stride: nat): int
    requires w > 0
  {
    offset + SourceRow(i, w, h) * stride + i % w
  }

  /** `Math.abs(cube[k] ?? 0)`: a read outside the cube is 0. */
  function Magnitude(cube: seq<i16>, k: int): nat {
    var v: int := GetOr(cube, k, 0);
    if v < 0 then -v else v
  }

  /** A 16-bit value as two big-endian bytes (`val >> 8`, `val % 256`). */
  function PackBigEndian(v: u16): (bytes: seq<byte>)
    ensures |bytes| == 2
  {
    [v / 256, v % 256]
  }

  /** Packing loses nothing: the bytes read back big-endian give the value. */
  lemma PackBigEndianRoundTrip(v: u16)
    ensures PackBigEndian(v)[0] as int * 256 + PackBigEndian(v)[1] == v
    ensures forall u: u16 :: PackBigEndian(u) == PackBigEndian(v) ==> u == v
  {
  }

  /** Byte k of the drawn slice: byte k % 2 of pixel k / 2. */
  function Mono16Byte(rc: RadarCube, offset: nat, compress: Compress, k: nat): byte
    requires Dim(rc.shape, 3) > 0
  {
    var w, h := Dim(rc.shape, 3), Dim(rc.shape, 1);
    PackBigEndian(compress(Magnitude(rc.cube, CubeIndex(offset, k / 2, w, h, Stride(rc.shape)))))[k % 2]
  }

  /** The mono16 buffer of `pixels` pixels read from the slice at `offset`. */
  function Mono16Slice(rc: RadarCube, offset: nat, compress: Compress, pixels: nat): (img: seq<byte>)
    requires pixels == 0 || Dim(rc.shape, 3) > 0
    ensures |img| == pixels * 2
  {
    if pixels == 0 then []
    else seq<byte>(pixels * 2, k requires 0 <= k < pixels * 2 => Mono16Byte(rc, offset, compress, k))
  }

  /** The converter's output buffer: all zero when the selection draws nothing. */
  function Mono16Image(rc: RadarCube, sequence: string, rx: int, compress: Compress): (img: seq<byte>)
    ensures |img| == Dim(rc.shape, 3) * Dim(rc.shape, 1) * 2
  {
    var w, h := Dim(rc.shape, 3), Dim(rc.shape, 1);
    match SliceOffset(rc.shape, sequence, rx)
    case None => Zeros(w * h * 2)
    case Some(o) =>
      assert w * h == 0 || w > 0;
      Mono16Slice(rc, o, compress, w * h)
  }

  /** An unknown sequence selector or an rx channel outside [0, shape[2]) gives the all-zero buffer. */
  lemma BadSelectionIsBlank(rc: RadarCube, sequence: string, rx: int, compress: Compress)
    requires !(sequence == "A" || sequence == "B" || sequence == "") || rx < 0 || rx >= Dim(rc.shape, 2)
    ensures forall k :: 0 <= k < |Mono16Image(rc, sequence, rx, compress)| ==> Mono16Image(rc, sequence, rx, compress)[k] == 0
  {
  }

  /**
   * A drawn pixel i is the big-endian compressed magnitude of cube element
   * [s, SourceRow(i), rx, i % width]; reads that fall outside the cube count
   * as magnitude 0.
   */
  lemma Mono16PixelMeaning(rc: RadarCube, sequence: string, rx: int, compress: Compress, i: nat)
    requires SliceOffset(rc.shape, sequence, rx).Some?
    requires i < Dim(rc.shape, 3) * Dim(rc.shape, 1)
    ensures Dim(rc.shape, 3) > 0 && SourceRow(i, Dim(rc.shape, 3), Dim(rc.shape, 1)) >= 0
    ensures var img, w := Mono16Image(rc, sequence, rx, compress), Dim(rc.shape, 3);
      var k := FlatIndex(rc.shape, SequenceIndex(rc.shape, sequence), SourceRow(i, w, Dim(rc.shape, 1)) as nat, rx as nat, i % w);
      img[i * 2 .. i * 2 + 2] == PackBigEndian(compress(Magnitude(rc.cube, k))) &&
      (k >= |rc.cube| ==> img[i * 2 .. i * 2 + 2] == PackBigEndian(compress(0)))
  {
    var w, h := Dim(rc.shape, 3), Dim(rc.shape, 1);
    var o := SliceOffset(rc.shape, sequence, rx).value;
    var img := Mono16Image(rc, sequence, rx, compress);
    assert w > 0;
    RowBelowHeight(i, w, h);
    var row := SourceRow(i, w, h);
    SliceOffsetMeaning(rc.shape, sequence, rx);
    var k := FlatIndex(rc.shape, SequenceIndex(rc.shape, sequence), row as nat, rx as nat, i % w);
    assert CubeIndex(o, i, w, h, Stride(rc.shape)) == k;
    assert (i * 2) / 2 == i && (i * 2 + 1) / 2 == i;
    assert img[i * 2 .. i * 2 + 2] == [img[i * 2], img[i * 2 + 1]];
  }

  /** The sign of a sample never matters: cubes with equal magnitudes give equal images. */
  lemma SignIgnored(rc1: RadarCube, rc2: RadarCube, sequence: string, rx: int, compress: Compress)
    requires rc1.shape == rc2.shape && |rc1.cube| == |rc2.cube|
    requires forall k :: 0 <= k < |rc1.cube| ==> Magnitude(rc1.cube, k) == Magnitude(rc2.cube, k)
    ensures Mono16Image(rc1, sequence, rx, compress) == Mono16Image(rc2, sequence, rx, compress)
  {
    var img1, img2 := Mono16Image(rc1, sequence, rx, compress), Mono16Image(rc2, sequence, rx, compress);
    forall k | 0 <= k < |img1|
      ensures img1[k] == img2[k]
    {
      var w := Dim(rc1.shape, 3);
      if SliceOffset(rc1.shape, sequence, rx).Some? {
        var o := SliceOffset(rc1.shape, sequence, rx).value;
        assert w > 0;
        var idx := CubeIndex(o, k / 2, w, Dim(rc1.shape, 1), Stride(rc1.shape));
        assert Magnitude(rc1.cube, idx) == Magnitude(rc2.cube, idx);
      }
    }
  }

  /** Writes pixel i's two bytes (the body of the converter's pixel loop). */
  method PaintSample(data: array<byte>, i: nat, val: u16)
    requires i * 2 + 2 <= data.Length
    modifies data
    ensures data[i * 2] == PackBigEndian(val)[0] && data[i * 2 + 1] == PackBigEndian(val)[1]
    ensures forall k :: 0 <= k < data.Length && k != i * 2 && k != i * 2 + 1 ==> data[k] == old(data[k])
  {
    data[i * 2 + 0] := val / 256;
    data[i * 2 + 1] := val % 256;
  }

  method RadarToMono16(rc: RadarCube, sequence: string, rx: int, compress: Compress) returns (data: array<byte>)
    ensures fresh(data)
    ensures data[..] == Mono16Image(rc, sequence, rx, compress)
  {
    var height := Dim(rc.shape, 1);
    var width := Dim(rc.shape, 3);
    var stride := Dim(rc.shape, 2) * width;
    data := new byte[width * height * 2](_ => 0);
    var offset := 0;
    if sequence == "A" {
      offset := 0;
    } else if sequence == "B" || sequence == "" {
      offset := if Dim(rc.shape, 0) > 1 then height * stride else 0;
    } else {
      return;
    }
    if rx < 0 {
      return;
    }
    if rx >= Dim(rc.shape, 2) {
      return;
    }
    offset := offset + width * rx;
    assert SliceOffset(rc.shape, sequence, rx) == Some(offset);
    var n := width * height;
    var i := 0;
    while i < n
      invariant 0 <= i <= n && data.Length == n * 2
      invariant forall k :: 0 <= k < i * 2 ==> data[k] == Mono16Byte(rc, offset, compress, k)
      invariant forall k :: i * 2 <= k < n * 2 ==> data[k] == 0
    {
      assert width > 0;
      var row := i / width;
      var currHeight := if ReverseHeight then height - row else row;
      var cubeIndex := offset + currHeight * stride + i % width;
      var val := compress(Magnitude(rc.cube, cubeIndex));
      PaintSample(data, i, val);
      assert (i * 2) / 2 == i && (i * 2 + 1) / 2 == i && (i * 2) % 2 == 0 && (i * 2 + 1) % 2 == 1;
      i := i + 1;
    }
    assert data[..] == Mono16Slice(rc, offset, compress, n);
  }

  /** A non-finite rx setting becomes -1 (an integer setting is kept as it is). */
  datatype RxSetting = Finite(value: int) | NotFinite

  function RxOf(setting: RxSetting): int {
    match setting
    case Finite(v) => v
    case NotFinite => -1
  }

  /** A non-finite rx setting therefore draws nothing. */
  lemma NotFiniteRxIsBlank(rc: RadarCube, sequence: string, compress: Compress)
    ensures forall k :: 0 <= k < |Mono16Image(rc, sequence, RxOf(NotFinite), compress)| ==>
      Mono16Image(rc, sequence, RxOf(NotFinite), compress)[k] == 0
  {
    BadSelectionIsBlank(rc, sequence, RxOf(NotFinite), compress);
  }

  /** The selections of a [2, 4, 3, 5] cube: "A" starts at 0, "B" and the default "" one sequence (4 * 15) later. */
  lemma SliceOffsetExamples()
    ensures SliceOffset([2, 4, 3, 5], "A", 0) == Some(0)
    ensures SliceOffset([2, 4, 3, 5], "B", 0) == Some(60)
    ensures SliceOffset([2, 4, 3, 5], "", 0) == Some(60)
    ensures SliceOffset([2, 4, 3, 5], "B", 2) == Some(70)
    ensures SliceOffset([1, 4, 3, 5], "B", 0) == Some(0)
  {
    var shape: seq<u16> := [2, 4, 3, 5];
    assert Dim(shape, 0) == 2 && Dim(shape, 1) == 4 && Dim(shape, 2) == 3 && Dim(shape, 3) == 5;
    assert Stride(shape) == 15;
    var one: seq<u16> := [1, 4, 3, 5];
    assert Dim(one, 0) == 1 && Dim(one, 2) == 3 && Dim(one, 3) == 5;
  }

  /** Selections of a [2, 4, 3, 5] cube that draw nothing: an rx outside 0..2, or an unknown selector. */
  lemma BlankSelectionExamples()
    ensures SliceOffset([2, 4, 3, 5], "A", 3) == None
    ensures SliceOffset([2, 4, 3, 5], "A", -1) == None
    ensures SliceOffset([2, 4, 3, 5], "C", 0) == None
  {
    var shape: seq<u16> := [2, 4, 3, 5];
    assert Dim(shape, 2) == 3;
  }

  /**
   * As written, the flip reads row `height - i / width`, one row too low:
   * output row 0 shows row 0 of the NEXT sequence (for "A" of a two-sequence
   * cube, row 0 of "B"; for the last sequence, a read past the cube), and row
   * 0 of the selected slice is never shown.
   */
  lemma FlipReadsNextSequenceRow(shape: seq<u16>, sequence: string, rx: int, i: nat)
    requires SliceOffset(shape, sequence, rx).Some?
    requires i < Dim(shape, 3)
    ensures var o, s := SliceOffset(shape, sequence, rx).value, SequenceIndex(shape, sequence);
      CubeIndex(o, i, Dim(shape, 3), Dim(shape, 1), Stride(shape)) == FlatIndex(shape, s + 1, 0, rx as nat, i)
  {
    var o, s := SliceOffset(shape, sequence, rx).value, SequenceIndex(shape, sequence);
    var w, h, R := Dim(shape, 3), Dim(shape, 1), Dim(shape, 2);
    SmallDivMod(i, w);
    assert CubeIndex(o, i, w, h, Stride(shape)) == o + h * Stride(shape) + i;
    SliceOffsetMeaning(shape, sequence, rx);
    assert o + h * Stride(shape) + i == FlatIndex(shape, s, h, rx as nat, i);
    RowPastSliceIsNextSequence(shape, s, rx as nat, i);
  }

  lemma SmallDivMod(i: nat, w: nat)
    requires i < w
    ensures i / w == 0 && i % w == i
  {
  }

  /** Row `height` of sequence s is row 0 of sequence s + 1. */
  lemma RowPastSliceIsNextSequence(shape: seq<u16>, s: nat, r: nat, col: nat)
    ensures FlatIndex(shape, s, Dim(shape, 1), r, col) == FlatIndex(shape, s + 1, 0, r, col)
  {
    var h := Dim(shape, 1);
    assert s * h + h == (s + 1) * h;
  }

  /** As written, no output pixel ever shows row 0 of the selected slice: the rows shown are 1 .. height. */
  lemma FlipNeverShowsRowZero(w: nat, h: nat, j: nat)
    requires j < w * h
    ensures w > 0 && 1 <= SourceRow(j, w, h) <= h
  {
    RowBelowHeight(j, w, h);
  }

  /** Two-sequence cube [2, 4, 3, 5], sequence "A", rx 0: output pixel 0 reads element 60, row 0 of sequence "B". */
  lemma FlipExample()
    ensures CubeIndex(0, 0, 5, 4, 15) == 60 == FlatIndex([2, 4, 3, 5], 1, 0, 0, 0)
  {
  }

  /** The evidently intended flip: output row r shows slice row height - 1 - r. */
  function FlippedRow(i: nat, w: nat, h: nat): int
    requires w > 0
  {
    h - 1 - i / w
  }

  /** With the intended flip two output pixels show the same slice row exactly when they lie on the same output row. */
  lemma FlippedRowsDistinct(i: nat, j: nat, w: nat, h: nat)
    requires w > 0
    ensures FlippedRow(i, w, h) == FlippedRow(j, w, h) <==> i / w == j / w
  {
  }

  /**
   * With the intended flip every output pixel reads inside the selected
   * slice, output row r showing slice row h - 1 - r.
   */
  lemma FlippedRowStaysInSlice(shape: seq<u16>, sequence: string, rx: int, i: nat)
    requires SliceOffset(shape, sequence, rx).Some?
    requires i < Dim(shape, 3) * Dim(shape, 1)
    ensures var w, h := Dim(shape, 3), Dim(shape, 1);
      var o, s := SliceOffset(shape, sequence, rx).value, SequenceIndex(shape, sequence);
      w > 0 && 0 <= FlippedRow(i, w, h) < h &&
      o + FlippedRow(i, w, h) * Stride(shape) + i % w == FlatIndex(shape, s, FlippedRow(i, w, h) as nat, rx as nat, i % w)
  {
    var w, h := Dim(shape, 3), Dim(shape, 1);
    assert w > 0;
    RowBelowHeight(i, w, h);
    SliceOffsetMeaning(shape, sequence, rx);
  }
}
