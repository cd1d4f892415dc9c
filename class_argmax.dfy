/**
 * The per-pixel class argmax shared by both mask converters: the payload is
 * read as `height x width x classes` scores, and each pixel keeps a running
 * (max_ind, max_val) updated only on a strictly greater score.
 */
module ClassArgmax {
  import opened Buffers
  import opened Arith

  /**
   * `Math.round(len / height / width)` on exact rationals, halves rounded up.
   * An empty image (a NaN or infinite quotient in the source) gives 0; no
   * pixel loop runs for it.
   */
  function ClassCount(len: nat, h: nat, w: nat): (classes: nat)
    ensures h * w == 0 ==> classes == 0
  {
    var n := h * w;
    if n == 0 then 0 else (2 * len + n) / (2 * n)
  }

  /**
   * What `Math.round(len / height / width)` evaluates to as a loop bound: a
   * whole number, or Infinity. A NaN (0 / 0) fails every `i < classes`, so it
   * bounds a loop like 0.
   */
  datatype LoopBound = Finite(n: nat) | Infinite

  /** The class count with JavaScript's division by zero: a non-empty payload over 0 pixels is Infinity. */
  function ClassCountAsWritten(len: nat, h: nat, w: nat): LoopBound {
    if h * w > 0 then Finite(ClassCount(len, h, w))
    else if len == 0 then Finite(0)
    else Infinite
  }

  /** The loop test `i < classes`. */
  predicate Below(i: nat, b: LoopBound) {
    b.Infinite? || i < b.n
  }

  /**
   * The two counts differ only on an empty image with a payload, where the
   * source's count is Infinity and the model's is 0.
   */
  lemma ClassCountAgrees(len: nat, h: nat, w: nat)
    ensures ClassCountAsWritten(len, h, w) == Finite(ClassCount(len, h, w)) <==> !(h * w == 0 && len > 0)
    ensures ClassCountAsWritten(len, h, w).Infinite? <==> h * w == 0 && len > 0
  {
  }

  /**
   * The class count is the whole number nearest to len / (h * w), a half
   * rounding up: classes - 1/2 <= len / (h * w) < classes + 1/2.
   */
  lemma ClassCountRounds(len: nat, h: nat, w: nat)
    requires h * w > 0
    ensures var c, n := ClassCount(len, h, w), h * w;
      2 * c * n <= 2 * len + n < 2 * (c + 1) * n
  {
    var n := h * w;
    DivBounds(2 * len + n, 2 * n);
  }

  /** Floor division brackets its dividend. */
  lemma DivBounds(x: nat, d: nat)
    requires d > 0
    ensures d * (x / d) <= x < d * (x / d) + d
  {
  }

  /** When the payload length is an exact multiple of the pixel count, the class count is that multiple. */
  lemma ExactClassCount(len: nat, h: nat, w: nat, k: nat)
    requires h * w > 0 && len == k * (h * w)
    ensures ClassCount(len, h, w) == k
  {
    var n := h * w;
    assert (2 * n) * k == 2 * len;
    DivUnique(2 * len + n, 2 * n, k);
  }

  /** A quotient is the one q whose multiple brackets the dividend. */
  lemma DivUnique(x: nat, d: nat, q: nat)
    requires d > 0 && d * q <= x < d * q + d
    ensures x / d == q
  {
    var r := x / d;
    DivBounds(x, d);
    if r < q {
      MulMono(r + 1, q, d);
    } else if r > q {
      MulMono(q + 1, r, d);
    }
  }

  /**
   * With an exact payload length no score read of any pixel falls past the
   * end: pixel i reads bytes i*classes .. i*classes + classes - 1.
   */
  lemma ExactReadsInBounds(len: nat, h: nat, w: nat, i: nat, j: nat)
    requires h * w > 0 && len == ClassCount(len, h, w) * (h * w)
    requires i < h * w && j < ClassCount(len, h, w)
    ensures i * ClassCount(len, h, w) + j < len
  {
    var c := ClassCount(len, h, w);
    assert i * c + j < i * c + c == (i + 1) * c;
    MulMono(i + 1, h * w, c);
  }

  /** `mask.at(k) ?? 0` */
  function Score(p: seq<byte>, k: int): byte {
    GetOr(p, k, 0)
  }

  /** The `n` scores of the pixel whose first score sits at `base`. */
  function PixelScores(p: seq<byte>, base: nat, n: nat): (s: seq<byte>)
    ensures |s| == n && forall j :: 0 <= j < n ==> s[j] == Score(p, base + j)
  {
    seq<byte>(n, j requires 0 <= j < n => Score(p, base + j))
  }

  /** One more step of the scan over a pixel's scores. */
  lemma ArgmaxStep(p: seq<byte>, base: nat, j: nat)
    ensures Argmax(PixelScores(p, base, j + 1)) ==
      var b := Argmax(PixelScores(p, base, j));
      if Score(p, base + j) > b.score then Best(j, Score(p, base + j)) else b
  {
    assert PixelScores(p, base, j + 1)[..j] == PixelScores(p, base, j);
  }

  /** The running (max_ind, max_val) pair. */
  datatype Best = Best(index: nat, score: byte)

  /** The pair after scanning scores `s` in order, replacing it only on a strictly greater score. */
  function Argmax(s: seq<byte>): Best
    decreases |s|
  {
    if s == [] then Best(0, 0)
    else
      var b := Argmax(s[..|s| - 1]);
      if s[|s| - 1] > b.score then Best(|s| - 1, s[|s| - 1]) else b
  }

  /**
   * The winning class stated independently of the scan: the score is the
   * largest of the scores (0 if all are 0), and the index is the lowest one
   * holding it, or 0 when every score is 0.
   */
  ghost predicate IsFirstMax(s: seq<byte>, b: Best) {
    (forall j :: 0 <= j < |s| ==> s[j] <= b.score) &&
    (b.score == 0 ==> b.index == 0) &&
    (b.score > 0 ==>
      b.index < |s| && s[b.index] == b.score &&
      forall j :: 0 <= j < b.index ==> s[j] < b.score)
  }

  lemma {:induction false} ArgmaxIsFirstMax(s: seq<byte>)
    ensures IsFirstMax(s, Argmax(s))
    ensures s != [] ==> Argmax(s).index < |s|
  {
    if s != [] {
      var t := s[..|s| - 1];
      ArgmaxIsFirstMax(t);
      assert forall j :: 0 <= j < |t| ==> s[j] == t[j];
    }
  }

  /** At most one pair is the first maximum. */
  lemma FirstMaxUnique(s: seq<byte>, b1: Best, b2: Best)
    requires IsFirstMax(s, b1) && IsFirstMax(s, b2)
    ensures b1 == b2
  {
  }

  /** The scan computes exactly the first maximum, in both directions. */
  lemma ArgmaxCharacterised(s: seq<byte>, b: Best)
    ensures Argmax(s) == b <==> IsFirstMax(s, b)
  {
    ArgmaxIsFirstMax(s);
    if IsFirstMax(s, b) {
      FirstMaxUnique(s, Argmax(s), b);
    }
  }

  /** A pixel whose scores are all 0 keeps the initial pair (0, 0). */
  lemma AllZeroScores(s: seq<byte>)
    requires forall j :: 0 <= j < |s| ==> s[j] == 0
    ensures Argmax(s) == Best(0, 0)
  {
    ArgmaxIsFirstMax(s);
  }

  /** The argmax of pixel i when every pixel has `classes` scores. */
  function PixelBest(p: seq<byte>, classes: nat, i: nat): Best {
    Argmax(PixelScores(p, i * classes, classes))
  }

  /** The inner loop of both mask converters for pixel i. */
  method PixelArgmax(p: seq<byte>, i: nat, classes: nat) returns (best: Best)
    ensures best == PixelBest(p, classes, i)
    ensures IsFirstMax(PixelScores(p, i * classes, classes), best)
    ensures classes > 0 ==> best.index < classes
  {
    var base := i * classes;
    var maxInd: nat, maxVal: byte := 0, 0;
    var j := 0;
    while j < classes
      invariant j <= classes
      invariant Best(maxInd, maxVal) == Argmax(PixelScores(p, base, j))
    {
      var val := GetOr(p, base + j, 0);
      ArgmaxStep(p, base, j);
      if val > maxVal {
        maxInd := j;
        maxVal := val;
      }
      j := j + 1;
    }
    best := Best(maxInd, maxVal);
    ArgmaxIsFirstMax(PixelScores(p, base, classes));
  }
}
