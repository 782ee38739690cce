/**
 * Median-cut colour quantization of a 32-bit camera frame into a 4-bit palettized
 * image (ColorQuantization.cpp, `quantizeColors` and its helpers).
 *
 * A `CVPixelBuffer` is its geometry (`Layout`) plus an array of bytes. Pixels are
 * read from `y * stride + x * 4`; the palettized output packs two 4-bit colour
 * indices per byte, the even pixel in the high nibble.
 */
module ColorQuantization {

  type Byte = b: int | 0 <= b < 256

  /** `uint32_t` arithmetic is modulo this. */
  const UInt32Modulus: nat := 0x1_0000_0000

  /** The `OSType` pixel format of a buffer. */
  datatype PixelFormat = Format32ABGR | Format32ARGB | OtherFormat(code: nat) {
    predicate Supported() {
      Format32ABGR? || Format32ARGB?
    }

    /** Offset of the red byte within a pixel; green is at 2 and alpha at 0. */
    function RedOffset(): nat
      requires Supported()
    {
      if Format32ABGR? then 3 else 1
    }

    /** Offset of the blue byte within a pixel. */
    function BlueOffset(): nat
      requires Supported()
    {
      if Format32ABGR? then 1 else 3
    }
  }

  /** Geometry of a pixel buffer: `CVPixelBufferGetWidth`, `...Height`, `...BytesPerRow`, `...PixelFormatType`. */
  datatype Layout = Layout(width: nat, height: nat, stride: nat, format: PixelFormat) {
    /** A buffer of `length` bytes holds every row, and a row holds 4·width bytes. */
    predicate Fits(length: nat) {
      4 * width <= stride && (height == 0 || (height - 1) * stride + 4 * width <= length)
    }

    function PixelCount(): nat {
      width * height
    }
  }

  function PixelOffset(x: nat, y: nat, stride: nat): nat {
    y * stride + x * 4
  }

  lemma MulMonotone(a: nat, b: nat, c: nat)
    requires a <= b
    ensures a * c <= b * c
  {
  }

  lemma PixelInBuffer(layout: Layout, length: nat, x: nat, y: nat)
    requires layout.Fits(length) && x < layout.width && y < layout.height
    ensures PixelOffset(x, y, layout.stride) + 3 < length
  {
    MulMonotone(y, layout.height - 1, layout.stride);
  }

  // ---------------------------------------------------------------------------
  // Pixels and channels
  // ---------------------------------------------------------------------------

  /** `struct Pixel`: its coordinates and colour. */
  datatype Pixel = Pixel(x: nat, y: nat, r: Byte, g: Byte, b: Byte)

  /** `struct PaletteValue`. */
  datatype PaletteValue = PaletteValue(r: Byte, g: Byte, b: Byte)

  const Black := PaletteValue(0, 0, 0)

  /** The `Pixel` constructor (lines 36-58) for a supported format. */
  function ReadPixel(bytes: seq<Byte>, x: nat, y: nat, layout: Layout): (px: Pixel)
    requires layout.format.Supported()
    requires PixelOffset(x, y, layout.stride) + 3 < |bytes|
    ensures px.x == x && px.y == y
    ensures var o := PixelOffset(x, y, layout.stride);
      && (layout.format.Format32ABGR? ==> px.r == bytes[o + 3] && px.g == bytes[o + 2] && px.b == bytes[o + 1])
      && (layout.format.Format32ARGB? ==> px.r == bytes[o + 1] && px.g == bytes[o + 2] && px.b == bytes[o + 3])
  {
    var o := PixelOffset(x, y, layout.stride);
    Pixel(x, y, bytes[o + layout.format.RedOffset()], bytes[o + 2], bytes[o + layout.format.BlueOffset()])
  }

  /** Position of a pixel in raster order. */
  function PixelIndex(p: Pixel, width: nat): nat {
    p.y * width + p.x
  }

  datatype ColorChannel = Red | Green | Blue

  function ChannelOf(p: Pixel, c: ColorChannel): Byte {
    match c
    case Red => p.r
    case Green => p.g
    case Blue => p.b
  }

  /** `Pixel::compareRedChannel`, `compareGreenChannel` and `compareBlueChannel` (lines 60-73). */
  predicate ChannelLess(c: ColorChannel, p1: Pixel, p2: Pixel) {
    ChannelOf(p1, c) < ChannelOf(p2, c)
  }

  /**
   * Each comparator is a strict weak order, as `std::sort` demands: irreflexive and
   * transitive, and two pixels are incomparable exactly when their channel values are equal.
   */
  lemma ChannelLessIsStrictWeakOrder(c: ColorChannel, p: Pixel, q: Pixel, s: Pixel)
    ensures !ChannelLess(c, p, p)
    ensures ChannelLess(c, p, q) && ChannelLess(c, q, s) ==> ChannelLess(c, p, s)
    ensures !ChannelLess(c, p, q) && !ChannelLess(c, q, p) <==> ChannelOf(p, c) == ChannelOf(q, c)
  {
  }

  // ---------------------------------------------------------------------------
  // Channel ranges
  // ---------------------------------------------------------------------------

  function MinOf(a: Byte, b: Byte): Byte {
    if b < a then b else a
  }

  function MaxOf(a: Byte, b: Byte): Byte {
    if a < b then b else a
  }

  /** The running `std::min` of line 88 and its twins, starting from 255. */
  function ChannelMin(ps: seq<Pixel>, c: ColorChannel): Byte {
    if ps == [] then 255 else MinOf(ChannelMin(ps[..|ps| - 1], c), ChannelOf(ps[|ps| - 1], c))
  }

  /** The running `std::max` of line 89 and its twins, starting from 0. */
  function ChannelMax(ps: seq<Pixel>, c: ColorChannel): Byte {
    if ps == [] then 0 else MaxOf(ChannelMax(ps[..|ps| - 1], c), ChannelOf(ps[|ps| - 1], c))
  }

  /** `uint8_t range = max - min` (lines 96-98): the difference modulo 256. */
  function ChannelRange(ps: seq<Pixel>, c: ColorChannel): Byte {
    (ChannelMax(ps, c) - ChannelMin(ps, c)) % 256
  }

  /** For a non-empty list the min fold is the true minimum of the channel. */
  lemma {:induction false} ChannelMinIsMinimum(ps: seq<Pixel>, c: ColorChannel)
    requires ps != []
    ensures forall i | 0 <= i < |ps| :: ChannelMin(ps, c) <= ChannelOf(ps[i], c)
    ensures exists i | 0 <= i < |ps| :: ChannelOf(ps[i], c) == ChannelMin(ps, c)
  {
    var n := |ps| - 1;
    var init := ps[..n];
    if n > 0 {
      ChannelMinIsMinimum(init, c);
      var w :| 0 <= w < n && ChannelOf(init[w], c) == ChannelMin(init, c);
      if ChannelOf(ps[n], c) < ChannelMin(init, c) {
        assert ChannelOf(ps[n], c) == ChannelMin(ps, c);
      } else {
        assert ChannelOf(ps[w], c) == ChannelMin(ps, c);
      }
      assert forall i | 0 <= i < n :: ps[i] == init[i];
    } else {
      assert ChannelOf(ps[0], c) == ChannelMin(ps, c);
    }
  }

  /** For a non-empty list the max fold is the true maximum of the channel. */
  lemma {:induction false} ChannelMaxIsMaximum(ps: seq<Pixel>, c: ColorChannel)
    requires ps != []
    ensures forall i | 0 <= i < |ps| :: ChannelOf(ps[i], c) <= ChannelMax(ps, c)
    ensures exists i | 0 <= i < |ps| :: ChannelOf(ps[i], c) == ChannelMax(ps, c)
  {
    var n := |ps| - 1;
    var init := ps[..n];
    if n > 0 {
      ChannelMaxIsMaximum(init, c);
      var w :| 0 <= w < n && ChannelOf(init[w], c) == ChannelMax(init, c);
      if ChannelMax(init, c) < ChannelOf(ps[n], c) {
        assert ChannelOf(ps[n], c) == ChannelMax(ps, c);
      } else {
        assert ChannelOf(ps[w], c) == ChannelMax(ps, c);
      }
      assert forall i | 0 <= i < n :: ps[i] == init[i];
    } else {
      assert ChannelOf(ps[0], c) == ChannelMax(ps, c);
    }
  }

  /** For a non-empty list the range is max − min, without wrap-around. */
  lemma ChannelRangeOfNonEmpty(ps: seq<Pixel>, c: ColorChannel)
    requires ps != []
    ensures ChannelRange(ps, c) == ChannelMax(ps, c) - ChannelMin(ps, c)
    ensures forall i | 0 <= i < |ps| :: ChannelMin(ps, c) <= ChannelOf(ps[i], c) <= ChannelMax(ps, c)
  {
    ChannelMinIsMinimum(ps, c);
    ChannelMaxIsMaximum(ps, c);
  }

  /**
   * `findColorChannelWithLargestRange` (lines 77-109) as a function: red or green only
   * when that channel's range is strictly greater than both others, blue otherwise,
   * paired with the chosen channel's range. The choice is the widest channel except
   * when red and green tie above blue.
   */
  function LargestRange(ps: seq<Pixel>): (result: (ColorChannel, Byte))
    ensures result.1 == ChannelRange(ps, result.0)
    ensures result.0 == Red <==>
      ChannelRange(ps, Red) > ChannelRange(ps, Green) && ChannelRange(ps, Red) > ChannelRange(ps, Blue)
    ensures result.0 == Green <==>
      ChannelRange(ps, Green) > ChannelRange(ps, Red) && ChannelRange(ps, Green) > ChannelRange(ps, Blue)
    ensures ChannelRange(ps, Red) != ChannelRange(ps, Green) || ChannelRange(ps, Blue) >= ChannelRange(ps, Red) ==>
      forall c :: ChannelRange(ps, c) <= result.1
    ensures ps == [] ==> result == (Blue, 1)
  {
    var rangeR := ChannelRange(ps, Red);
    var rangeG := ChannelRange(ps, Green);
    var rangeB := ChannelRange(ps, Blue);
    if rangeR > rangeG && rangeR > rangeB then (Red, rangeR)
    else if rangeG > rangeR && rangeG > rangeB then (Green, rangeG)
    else (Blue, rangeB)
  }

  /** Extending the folds of lines 86-94 by one pixel applies `std::min` / `std::max` once more. */
  lemma FoldStep(ps: seq<Pixel>, i: nat, c: ColorChannel)
    requires i < |ps|
    ensures ChannelMin(ps[..i + 1], c) == MinOf(ChannelMin(ps[..i], c), ChannelOf(ps[i], c))
    ensures ChannelMax(ps[..i + 1], c) == MaxOf(ChannelMax(ps[..i], c), ChannelOf(ps[i], c))
  {
    assert ps[..i + 1][..i] == ps[..i];
  }

  /** The scanning loop of lines 79-94: the running minimum and maximum of each channel. */
  method ChannelBounds(pixels: seq<Pixel>)
    returns (minR: Byte, maxR: Byte, minG: Byte, maxG: Byte, minB: Byte, maxB: Byte)
    ensures minR == ChannelMin(pixels, Red) && maxR == ChannelMax(pixels, Red)
    ensures minG == ChannelMin(pixels, Green) && maxG == ChannelMax(pixels, Green)
    ensures minB == ChannelMin(pixels, Blue) && maxB == ChannelMax(pixels, Blue)
  {
    minR, maxR := 255, 0;
    minG, maxG := 255, 0;
    minB, maxB := 255, 0;
    for i := 0 to |pixels|
      invariant minR == ChannelMin(pixels[..i], Red) && maxR == ChannelMax(pixels[..i], Red)
      invariant minG == ChannelMin(pixels[..i], Green) && maxG == ChannelMax(pixels[..i], Green)
      invariant minB == ChannelMin(pixels[..i], Blue) && maxB == ChannelMax(pixels[..i], Blue)
    {
      FoldStep(pixels, i, Red);
      FoldStep(pixels, i, Green);
      FoldStep(pixels, i, Blue);
      minR := MinOf(minR, pixels[i].r);
      maxR := MaxOf(maxR, pixels[i].r);
      minG := MinOf(minG, pixels[i].g);
      maxG := MaxOf(maxG, pixels[i].g);
      minB := MinOf(minB, pixels[i].b);
      maxB := MaxOf(maxB, pixels[i].b);
    }
    assert pixels[..|pixels|] == pixels;
  }

  /** `findColorChannelWithLargestRange` (lines 77-109). */
  method FindColorChannelWithLargestRange(pixels: seq<Pixel>) returns (channel: ColorChannel, range: Byte)
    ensures (channel, range) == LargestRange(pixels)
  {
    var minR, maxR, minG, maxG, minB, maxB := ChannelBounds(pixels);
    var rangeR: Byte := (maxR as int - minR as int) % 256;
    var rangeG: Byte := (maxG as int - minG as int) % 256;
    var rangeB: Byte := (maxB as int - minB as int) % 256;
    assert rangeR == ChannelRange(pixels, Red) && rangeG == ChannelRange(pixels, Green);
    assert rangeB == ChannelRange(pixels, Blue);
    if rangeR > rangeG && rangeR > rangeB {
      return Red, rangeR;
    } else if rangeG > rangeR && rangeG > rangeB {
      return Green, rangeG;
    }
    return Blue, rangeB;
  }

  /**
   * `findBucketWithLargestColorRange` (lines 111-137) as a function: index, range and
   * channel of the best bucket seen, starting from `(0, 0, Red)`, skipping empty
   * buckets and replacing the best only on a strictly larger range.
   */
  function WidestBucket(buckets: seq<seq<Pixel>>): (nat, Byte, ColorChannel) {
    if buckets == [] then (0, 0, Red)
    else
      var prev := WidestBucket(buckets[..|buckets| - 1]);
      var last := buckets[|buckets| - 1];
      if |last| == 0 then prev
      else
        var candidate := LargestRange(last);
        if candidate.1 > prev.1 then (|buckets| - 1, candidate.1, candidate.0) else prev
  }

  /** No non-empty bucket has a larger range than the one chosen. */
  lemma {:induction false} WidestBucketIsWidest(buckets: seq<seq<Pixel>>)
    ensures forall i | 0 <= i < |buckets| && |buckets[i]| > 0 :: LargestRange(buckets[i]).1 <= WidestBucket(buckets).1
  {
    if buckets != [] {
      var n := |buckets| - 1;
      var init := buckets[..n];
      WidestBucketIsWidest(init);
      assert forall i | 0 <= i < n :: init[i] == buckets[i];
      var prev := WidestBucket(init);
      if |buckets[n]| > 0 {
        var candidate := LargestRange(buckets[n]);
        if candidate.1 > prev.1 {
          assert WidestBucket(buckets) == (n, candidate.1, candidate.0);
        } else {
          assert WidestBucket(buckets) == prev;
        }
      }
    }
  }

  /**
   * The choice is a non-empty bucket whose widest channel and range it records; when no
   * non-empty bucket has a positive range it is `(0, 0, Red)`.
   */
  lemma {:induction false} WidestBucketIsChosen(buckets: seq<seq<Pixel>>)
    ensures var best := WidestBucket(buckets);
      && (best.1 == 0 ==> best == (0, 0, Red))
      && (best.1 > 0 ==>
            best.0 < |buckets| && |buckets[best.0]| > 0 && LargestRange(buckets[best.0]) == (best.2, best.1))
  {
    if buckets != [] {
      var n := |buckets| - 1;
      var init := buckets[..n];
      WidestBucketIsChosen(init);
      var prev := WidestBucket(init);
      if prev.1 > 0 {
        assert init[prev.0] == buckets[prev.0];
      }
    }
  }

  /** Ties go to the first: every earlier non-empty bucket has a strictly smaller range. */
  lemma {:induction false} WidestBucketIsFirst(buckets: seq<seq<Pixel>>)
    ensures forall i | 0 <= i < |buckets| && i < WidestBucket(buckets).0 && |buckets[i]| > 0 ::
      LargestRange(buckets[i]).1 < WidestBucket(buckets).1
  {
    if buckets != [] {
      var n := |buckets| - 1;
      var init := buckets[..n];
      var prev := WidestBucket(init);
      assert forall i | 0 <= i < n :: init[i] == buckets[i];
      if WidestBucket(buckets) == prev {
        WidestBucketIsFirst(init);
        WidestBucketIsChosen(init);
        assert prev.0 <= n;
      } else {
        var candidate := LargestRange(buckets[n]);
        assert WidestBucket(buckets) == (n, candidate.1, candidate.0) && candidate.1 > prev.1;
        WidestBucketIsWidest(init);
      }
    }
  }

  /** `findBucketWithLargestColorRange` (lines 111-137). */
  method FindBucketWithLargestColorRange(buckets: seq<seq<Pixel>>) returns (index: nat, channel: ColorChannel)
    ensures index == WidestBucket(buckets).0 && channel == WidestBucket(buckets).2
  {
    var bestIdx: nat, bestRange: Byte, bestChannel := 0, 0, Red;
    for i := 0 to |buckets|
      invariant (bestIdx, bestRange, bestChannel) == WidestBucket(buckets[..i])
    {
      assert buckets[..i + 1][..i] == buckets[..i];
      if |buckets[i]| == 0 {
        continue;
      }
      var c, range := FindColorChannelWithLargestRange(buckets[i]);
      if range > bestRange {
        bestIdx, bestRange, bestChannel := i, range, c;
      }
    }
    assert buckets[..|buckets|] == buckets;
    return bestIdx, bestChannel;
  }

  // ---------------------------------------------------------------------------
  // Sorting a bucket
  // ---------------------------------------------------------------------------

  /** No pixel compares less than an earlier one on `c`. */
  ghost predicate SortedBy(s: seq<Pixel>, c: ColorChannel) {
    forall i, j | 0 <= i < j < |s| :: !ChannelLess(c, s[j], s[i])
  }

  lemma ConsSorted(p: Pixel, s: seq<Pixel>, c: ColorChannel)
    requires SortedBy(s, c)
    requires forall q | q in s :: !ChannelLess(c, q, p)
    ensures SortedBy([p] + s, c)
  {
    var r := [p] + s;
    forall i, j | 0 <= i < j < |r| ensures !ChannelLess(c, r[j], r[i]) {
      assert r[j] == s[j - 1];
      if i == 0 {
        assert s[j - 1] in s;
      } else {
        assert r[i] == s[i - 1];
      }
    }
  }

  function InsertByChannel(p: Pixel, s: seq<Pixel>, c: ColorChannel): (r: seq<Pixel>)
    requires SortedBy(s, c)
    ensures SortedBy(r, c)
    ensures multiset(r) == multiset(s) + multiset{p}
  {
    if s == [] || !ChannelLess(c, s[0], p) then
      ConsSorted(p, s, c);
      [p] + s
    else
      assert s == [s[0]] + s[1..];
      var rest := InsertByChannel(p, s[1..], c);
      assert forall q | q in rest :: q == p || q in s[1..] by {
        forall q | q in rest ensures q == p || q in s[1..] {
          assert q in multiset(rest);
        }
      }
      ConsSorted(s[0], rest, c);
      [s[0]] + rest
  }

  /**
   * `sortBucketByColorChannel` (lines 139-153): the bucket reordered so that no pixel
   * compares less than an earlier one on `channel`. `std::sort` leaves the order of
   * equal pixels unspecified; this is one valid outcome.
   */
  function SortBucketByColorChannel(bucket: seq<Pixel>, channel: ColorChannel): (sorted: seq<Pixel>)
    ensures SortedBy(sorted, channel)
    ensures multiset(sorted) == multiset(bucket)
    ensures |sorted| == |bucket|
  {
    if bucket == [] then []
    else
      assert bucket == [bucket[0]] + bucket[1..];
      InsertByChannel(bucket[0], SortBucketByColorChannel(bucket[1..], channel), channel)
  }

  // ---------------------------------------------------------------------------
  // Buckets
  // ---------------------------------------------------------------------------

  /** All pixels of all buckets, in order. */
  function Flatten(buckets: seq<seq<Pixel>>): seq<Pixel> {
    if buckets == [] then [] else buckets[0] + Flatten(buckets[1..])
  }

  lemma {:induction false} FlattenAppend(buckets: seq<seq<Pixel>>, bucket: seq<Pixel>)
    ensures Flatten(buckets + [bucket]) == Flatten(buckets) + bucket
  {
    if buckets == [] {
      assert Flatten([bucket]) == bucket + Flatten([]);
    } else {
      assert (buckets + [bucket])[1..] == buckets[1..] + [bucket];
      FlattenAppend(buckets[1..], bucket);
    }
  }

  lemma {:induction false} FlattenUpdate(buckets: seq<seq<Pixel>>, i: nat, bucket: seq<Pixel>)
    requires i < |buckets|
    ensures forall v ::
      multiset(Flatten(buckets[i := bucket]))[v] + multiset(buckets[i])[v]
      == multiset(Flatten(buckets))[v] + multiset(bucket)[v]
  {
    var updated := buckets[i := bucket];
    assert Flatten(updated) == updated[0] + Flatten(updated[1..]);
    assert Flatten(buckets) == buckets[0] + Flatten(buckets[1..]);
    if i > 0 {
      assert updated[1..] == buckets[1..][i - 1 := bucket];
      assert updated[0] == buckets[0] && buckets[1..][i - 1] == buckets[i];
      FlattenUpdate(buckets[1..], i - 1, bucket);
    } else {
      assert updated[1..] == buckets[1..];
    }
  }

  lemma {:induction false} BucketInFlatten(buckets: seq<seq<Pixel>>, k: nat)
    requires k < |buckets|
    ensures multiset(buckets[k]) <= multiset(Flatten(buckets))
  {
    if k > 0 {
      BucketInFlatten(buckets[1..], k - 1);
    }
  }

  lemma {:induction false} TwoBucketsInFlatten(buckets: seq<seq<Pixel>>, k1: nat, k2: nat)
    requires k1 < k2 < |buckets|
    ensures multiset(buckets[k1]) + multiset(buckets[k2]) <= multiset(Flatten(buckets))
  {
    if k1 == 0 {
      BucketInFlatten(buckets[1..], k2 - 1);
    } else {
      TwoBucketsInFlatten(buckets[1..], k1 - 1, k2 - 1);
    }
  }

  ghost predicate NonEmptyBuckets(buckets: seq<seq<Pixel>>) {
    forall k | 0 <= k < |buckets| :: |buckets[k]| > 0
  }

  predicate PowerOfTwoUpTo16(n: nat) {
    n == 1 || n == 2 || n == 4 || n == 8 || n == 16
  }

  /** Cutting a sorted bucket anywhere puts no pixel of the upper part below one of the lower part. */
  lemma MedianSplitIsOrdered(sorted: seq<Pixel>, c: ColorChannel, mid: nat)
    requires SortedBy(sorted, c) && mid <= |sorted|
    ensures forall p, q | p in sorted[..mid] && q in sorted[mid..] :: !ChannelLess(c, q, p)
  {
    forall p, q | p in sorted[..mid] && q in sorted[mid..] ensures !ChannelLess(c, q, p) {
      var a :| 0 <= a < mid && sorted[..mid][a] == p;
      var b :| 0 <= b < |sorted| - mid && sorted[mid..][b] == q;
      assert sorted[a] == p && sorted[mid + b] == q;
    }
  }

  lemma SplitKeepsPixels(buckets: seq<seq<Pixel>>, i: nat, sorted: seq<Pixel>, mid: nat)
    requires i < |buckets| && mid <= |sorted| && multiset(sorted) == multiset(buckets[i])
    ensures multiset(Flatten(buckets[i := sorted[..mid]] + [sorted[mid..]])) == multiset(Flatten(buckets))
  {
    var lower, upper := sorted[..mid], sorted[mid..];
    assert sorted == lower + upper;
    FlattenUpdate(buckets, i, lower);
    FlattenAppend(buckets[i := lower], upper);
    var updated := multiset(Flatten(buckets[i := lower]));
    assert multiset(Flatten(buckets[i := lower] + [upper])) == updated + multiset(upper);
    assert forall v :: (updated + multiset(upper))[v] == multiset(Flatten(buckets))[v];
  }

  /** Replacing bucket `i` by the lower part of its sorted copy and appending the upper part. */
  lemma SplitFacts(buckets: seq<seq<Pixel>>, i: nat, c: ColorChannel, sorted: seq<Pixel>)
    requires i < |buckets| && SortedBy(sorted, c) && multiset(sorted) == multiset(buckets[i])
    requires |sorted| == |buckets[i]|
    ensures var split := buckets[i := sorted[..|sorted| / 2]] + [sorted[|sorted| / 2..]];
      && |split| == |buckets| + 1
      && (forall k | 0 <= k < |buckets| && k != i :: split[k] == buckets[k])
      && |split[i]| == |buckets[i]| / 2 && |split[|buckets|]| == |buckets[i]| - |buckets[i]| / 2
      && multiset(split[i]) + multiset(split[|buckets|]) == multiset(buckets[i])
      && (forall p, q | p in split[i] && q in split[|buckets|] :: !ChannelLess(c, q, p))
      && multiset(Flatten(split)) == multiset(Flatten(buckets))
  {
    var mid := |sorted| / 2;
    var lower, upper := sorted[..mid], sorted[mid..];
    MedianSplitIsOrdered(sorted, c, mid);
    SplitKeepsPixels(buckets, i, sorted, mid);
    assert sorted == lower + upper;
    var split := buckets[i := lower] + [upper];
    assert split[i] == lower && split[|buckets|] == upper;
  }

  /**
   * One split of the median cut (lines 211-224): bucket `i` is sorted on its widest
   * channel, keeps its lower `size / 2` pixels and the rest becomes a new last bucket.
   */
  function SplitBucket(buckets: seq<seq<Pixel>>, i: nat): (split: seq<seq<Pixel>>)
    requires i < |buckets|
    ensures |split| == |buckets| + 1
    ensures forall k | 0 <= k < |buckets| && k != i :: split[k] == buckets[k]
    ensures |split[i]| == |buckets[i]| / 2 && |split[|buckets|]| == |buckets[i]| - |buckets[i]| / 2
    ensures multiset(split[i]) + multiset(split[|buckets|]) == multiset(buckets[i])
    ensures forall p, q | p in split[i] && q in split[|buckets|] :: !ChannelLess(LargestRange(buckets[i]).0, q, p)
    ensures multiset(Flatten(split)) == multiset(Flatten(buckets))
  {
    var channel := LargestRange(buckets[i]).0;
    var sorted := SortBucketByColorChannel(buckets[i], channel);
    SplitFacts(buckets, i, channel, sorted);
    buckets[i := sorted[..|sorted| / 2]] + [sorted[|sorted| / 2..]]
  }

  /**
   * One pass of the inner `for` loop of the median cut (lines 203-225) from bucket `i`
   * up to `initial`: the buckets afterwards and whether the pass stopped at a bucket of
   * fewer than two pixels (the `goto exit_algo` of line 208). A full pass adds one
   * bucket per bucket visited; a pass that stops adds fewer.
   */
  ghost function CutRound(buckets: seq<seq<Pixel>>, i: nat, initial: nat): (result: (seq<seq<Pixel>>, bool))
    requires i <= initial <= |buckets|
    ensures !result.1 ==> |result.0| == |buckets| + (initial - i)
    ensures result.1 ==> |buckets| <= |result.0| < |buckets| + (initial - i)
    decreases initial - i
  {
    if i == initial then (buckets, false)
    else if |buckets[i]| < 2 then (buckets, true)
    else CutRound(SplitBucket(buckets, i), i + 1, initial)
  }

  /**
   * A pass keeps every pixel, leaves no bucket empty that was not, and stops only at a
   * bucket of fewer than two pixels.
   */
  lemma {:induction false} CutRoundKeepsPixels(buckets: seq<seq<Pixel>>, i: nat, initial: nat)
    requires i <= initial <= |buckets|
    ensures multiset(Flatten(CutRound(buckets, i, initial).0)) == multiset(Flatten(buckets))
    ensures NonEmptyBuckets(buckets) ==> NonEmptyBuckets(CutRound(buckets, i, initial).0)
    ensures var result := CutRound(buckets, i, initial);
      result.1 ==> exists k | 0 <= k < |result.0| :: |result.0[k]| < 2
    decreases initial - i
  {
    if i < initial && |buckets[i]| >= 2 {
      var split := SplitBucket(buckets, i);
      SplitKeepsNonEmpty(buckets, i);
      CutRoundKeepsPixels(split, i + 1, initial);
    } else if i < initial {
      assert |CutRound(buckets, i, initial).0[i]| < 2;
    }
  }

  /** Splitting a bucket of at least two pixels leaves no bucket empty. */
  lemma SplitKeepsNonEmpty(buckets: seq<seq<Pixel>>, i: nat)
    requires i < |buckets| && |buckets[i]| >= 2
    ensures NonEmptyBuckets(buckets) ==> NonEmptyBuckets(SplitBucket(buckets, i))
  {
    var split := SplitBucket(buckets, i);
    assert |split[i]| >= 1 && |split[|buckets|]| >= 1;
  }

  /**
   * The median cut (lines 199-226): whole passes over the buckets until there are
   * `numColors` of them, or until a pass meets a bucket of fewer than two pixels. The
   * result has between 1 and `numColors` buckets.
   */
  ghost function MedianCutFrom(buckets: seq<seq<Pixel>>, numColors: nat): (result: seq<seq<Pixel>>)
    requires PowerOfTwoUpTo16(numColors) && PowerOfTwoUpTo16(|buckets|) && |buckets| <= numColors
    ensures 1 <= |result| <= numColors
    decreases numColors - |buckets|
  {
    if |buckets| == numColors then buckets
    else
      var round := CutRound(buckets, 0, |buckets|);
      if round.1 then round.0 else MedianCutFrom(round.0, numColors)
  }

  /**
   * The median cut holds exactly the original pixels, leaves no bucket empty, and stops
   * short of `numColors` buckets only at a bucket of fewer than two pixels.
   */
  lemma {:induction false} MedianCutKeepsPixels(buckets: seq<seq<Pixel>>, numColors: nat)
    requires PowerOfTwoUpTo16(numColors) && PowerOfTwoUpTo16(|buckets|) && |buckets| <= numColors
    ensures multiset(Flatten(MedianCutFrom(buckets, numColors))) == multiset(Flatten(buckets))
    ensures NonEmptyBuckets(buckets) ==> NonEmptyBuckets(MedianCutFrom(buckets, numColors))
    ensures var result := MedianCutFrom(buckets, numColors);
      |result| == numColors || exists k | 0 <= k < |result| :: |result[k]| < 2
    decreases numColors - |buckets|
  {
    if |buckets| != numColors {
      var round := CutRound(buckets, 0, |buckets|);
      CutRoundKeepsPixels(buckets, 0, |buckets|);
      if !round.1 {
        MedianCutKeepsPixels(round.0, numColors);
      }
    }
  }

  /** The median-cut loop of `quantizeColors` (lines 186-226), from the single bucket `pixels`. */
  method MedianCut(pixels: seq<Pixel>, numColors: nat) returns (buckets: seq<seq<Pixel>>)
    requires PowerOfTwoUpTo16(numColors)
    ensures buckets == MedianCutFrom([pixels], numColors)
  {
    buckets := [pixels];
    while |buckets| != numColors
      invariant PowerOfTwoUpTo16(|buckets|) && |buckets| <= numColors
      invariant MedianCutFrom(buckets, numColors) == MedianCutFrom([pixels], numColors)
      decreases numColors - |buckets|
    {
      var next, stopped := CutPass(buckets);
      if stopped {
        buckets := next;
        return;
      }
      buckets := next;
    }
  }

  /**
   * One pass of the inner loop (lines 203-225) over the buckets present when it
   * starts; `stopped` when it met a bucket of fewer than two pixels (the `goto` of line 208).
   */
  method CutPass(start: seq<seq<Pixel>>) returns (buckets: seq<seq<Pixel>>, stopped: bool)
    ensures (buckets, stopped) == CutRound(start, 0, |start|)
  {
    var initialBucketCount := |start|;
    buckets := start;
    for i := 0 to initialBucketCount
      invariant |buckets| == initialBucketCount + i
      invariant CutRound(buckets, i, initialBucketCount) == CutRound(start, 0, initialBucketCount)
    {
      if |buckets[i]| < 2 {
        return buckets, true;
      }
      buckets := SplitAt(buckets, i);
    }
    stopped := false;
  }

  /** The body of the inner loop (lines 211-224): sort bucket `i` on its widest channel and halve it. */
  method SplitAt(buckets: seq<seq<Pixel>>, i: nat) returns (split: seq<seq<Pixel>>)
    requires i < |buckets|
    ensures split == SplitBucket(buckets, i)
  {
    var channel, range := FindColorChannelWithLargestRange(buckets[i]);
    var sorted := SortBucketByColorChannel(buckets[i], channel);
    var midwayIdx := |sorted| / 2;
    split := buckets[i := sorted[..midwayIdx]] + [sorted[midwayIdx..]];
  }

  // ---------------------------------------------------------------------------
  // The initial bucket
  // ---------------------------------------------------------------------------

  /** Every pixel of `raster` is the pixel at raster position `t`, read from the buffer. */
  ghost predicate RasterPrefix(raster: seq<Pixel>, bytes: seq<Byte>, layout: Layout) {
    forall t | 0 <= t < |raster| ::
      && raster[t].x < layout.width && raster[t].y < layout.height
      && PixelIndex(raster[t], layout.width) == t
      && layout.format.Supported()
      && PixelOffset(raster[t].x, raster[t].y, layout.stride) + 3 < |bytes|
      && raster[t] == ReadPixel(bytes, raster[t].x, raster[t].y, layout)
  }

  /** `raster` holds every pixel of the image once, in raster order, with its colour. */
  ghost predicate IsRaster(raster: seq<Pixel>, bytes: seq<Byte>, layout: Layout) {
    |raster| == layout.PixelCount() && RasterPrefix(raster, bytes, layout)
  }

  /** The first bucket of `quantizeColors` (lines 186-196): all pixels, row by row. */
  method RasterPixels(bytes: array<Byte>, layout: Layout) returns (bucket: seq<Pixel>)
    requires layout.format.Supported() && layout.Fits(bytes.Length)
    ensures IsRaster(bucket, bytes[..], layout)
  {
    bucket := [];
    assert layout.PixelCount() == layout.height * layout.width;
    for y := 0 to layout.height
      invariant |bucket| == y * layout.width
      invariant RasterPrefix(bucket, bytes[..], layout)
    {
      for x := 0 to layout.width
        invariant |bucket| == y * layout.width + x
        invariant RasterPrefix(bucket, bytes[..], layout)
      {
        PixelInBuffer(layout, bytes.Length, x, y);
        bucket := bucket + [ReadPixel(bytes[..], x, y, layout)];
      }
      assert (y + 1) * layout.width == y * layout.width + layout.width;
    }
  }

  /** Raster positions are distinct, so no pixel occurs twice in the first bucket. */
  lemma {:induction false} RasterHasNoRepeats(raster: seq<Pixel>, bytes: seq<Byte>, layout: Layout, p: Pixel)
    requires RasterPrefix(raster, bytes, layout)
    ensures multiset(raster)[p] <= 1
    decreases |raster|
  {
    if raster != [] {
      var init := raster[..|raster| - 1];
      var last := raster[|raster| - 1];
      assert raster == init + [last];
      assert RasterPrefix(init, bytes, layout) by {
        forall t | 0 <= t < |init| ensures init[t] == raster[t] { }
      }
      RasterHasNoRepeats(init, bytes, layout, p);
      forall t | 0 <= t < |init| ensures init[t] != last {
        assert init[t] == raster[t];
      }
      assert last !in init;
    }
  }

  /** Every pixel of every bucket has a raster position below `count`. */
  ghost predicate InFrame(buckets: seq<seq<Pixel>>, width: nat, count: nat) {
    forall k, j | 0 <= k < |buckets| && 0 <= j < |buckets[k]| :: PixelIndex(buckets[k][j], width) < count
  }

  /** Pixels of different buckets have different raster positions. */
  ghost predicate DistinctPositions(buckets: seq<seq<Pixel>>, width: nat) {
    forall k1, j1, k2, j2 |
        0 <= k1 < |buckets| && 0 <= j1 < |buckets[k1]| && 0 <= k2 < |buckets| && 0 <= j2 < |buckets[k2]| && k1 != k2 ::
      PixelIndex(buckets[k1][j1], width) != PixelIndex(buckets[k2][j2], width)
  }

  /**
   * Buckets holding exactly the pixels of the raster: each of their pixels lies in the
   * frame, and no two buckets hold pixels of the same raster position.
   */
  lemma BucketsPartitionRaster(buckets: seq<seq<Pixel>>, raster: seq<Pixel>, bytes: seq<Byte>, layout: Layout)
    requires IsRaster(raster, bytes, layout)
    requires multiset(Flatten(buckets)) == multiset(raster)
    ensures InFrame(buckets, layout.width, layout.PixelCount())
    ensures DistinctPositions(buckets, layout.width)
  {
    forall k, j | 0 <= k < |buckets| && 0 <= j < |buckets[k]|
      ensures buckets[k][j] in raster
    {
      BucketInFlatten(buckets, k);
      assert buckets[k][j] in multiset(buckets[k]);
    }
    forall k, j | 0 <= k < |buckets| && 0 <= j < |buckets[k]|
      ensures PixelIndex(buckets[k][j], layout.width) < layout.width * layout.height
    {
      var t :| 0 <= t < |raster| && raster[t] == buckets[k][j];
    }
    forall k1, j1, k2, j2 |
        0 <= k1 < |buckets| && 0 <= j1 < |buckets[k1]| && 0 <= k2 < |buckets| && 0 <= j2 < |buckets[k2]| && k1 != k2
      ensures PixelIndex(buckets[k1][j1], layout.width) != PixelIndex(buckets[k2][j2], layout.width)
    {
      var p1, p2 := buckets[k1][j1], buckets[k2][j2];
      if PixelIndex(p1, layout.width) == PixelIndex(p2, layout.width) {
        var t1 :| 0 <= t1 < |raster| && raster[t1] == p1;
        var t2 :| 0 <= t2 < |raster| && raster[t2] == p2;
        assert p1 == p2;
        assert p1 in multiset(buckets[k1]) && p1 in multiset(buckets[k2]);
        if k1 < k2 {
          TwoBucketsInFlatten(buckets, k1, k2);
        } else {
          TwoBucketsInFlatten(buckets, k2, k1);
        }
        RasterHasNoRepeats(raster, bytes, layout, p1);
        assert false;
      }
    }
  }

  // ---------------------------------------------------------------------------
  // Palette entries
  // ---------------------------------------------------------------------------

  /** The exact sum of a channel over a bucket. */
  function ChannelSum(ps: seq<Pixel>, c: ColorChannel): nat {
    if ps == [] then 0 else ChannelSum(ps[..|ps| - 1], c) + ChannelOf(ps[|ps| - 1], c)
  }

  /**
   * One channel of a palette entry (lines 235-249): the sum accumulated in a `uint32_t`,
   * divided by the bucket size and truncated to `uint8_t`.
   */
  function TruncatedMean(bucket: seq<Pixel>, c: ColorChannel): Byte
    requires |bucket| > 0
  {
    (ChannelSum(bucket, c) % UInt32Modulus) / |bucket| % 256
  }

  /** The palette entry computed for a bucket (lines 230-249). */
  function MeanOf(bucket: seq<Pixel>): PaletteValue
    requires |bucket| > 0
  {
    PaletteValue(TruncatedMean(bucket, Red), TruncatedMean(bucket, Green), TruncatedMean(bucket, Blue))
  }

  lemma {:induction false} ChannelSumBounds(ps: seq<Pixel>, c: ColorChannel, lo: nat, hi: nat)
    requires forall i | 0 <= i < |ps| :: lo <= ChannelOf(ps[i], c) <= hi
    ensures |ps| * lo <= ChannelSum(ps, c) <= |ps| * hi
  {
    if ps != [] {
      var n := |ps| - 1;
      var init := ps[..n];
      assert forall i | 0 <= i < n :: init[i] == ps[i];
      ChannelSumBounds(init, c, lo, hi);
      MulSuccessor(n, lo);
      MulSuccessor(n, hi);
    }
  }

  lemma MulSuccessor(a: nat, b: nat)
    ensures (a + 1) * b == a * b + b
  {
  }

  lemma ModAddStep(a: nat, x: nat)
    ensures (a % UInt32Modulus + x) % UInt32Modulus == (a + x) % UInt32Modulus
  {
  }

  lemma DivBounds(s: nat, n: nat, lo: nat, hi: nat)
    requires n > 0 && n * lo <= s <= n * hi
    ensures lo <= s / n <= hi
  {
    DivAtLeast(s, n, lo);
    DivAtMost(s, n, hi);
  }

  lemma DivAtLeast(s: nat, n: nat, lo: nat)
    requires n > 0 && n * lo <= s
    ensures lo <= s / n
  {
    var q := s / n;
    assert s == q * n + s % n && s % n < n;
    if q < lo {
      MulMonotone(q + 1, lo, n);
      MulSuccessor(q, n);
    }
  }

  lemma DivAtMost(s: nat, n: nat, hi: nat)
    requires n > 0 && s <= n * hi
    ensures s / n <= hi
  {
    var q := s / n;
    assert q * n <= s;
    if q > hi {
      MulMonotone(hi + 1, q, n);
      MulSuccessor(hi, n);
    }
  }

  /**
   * While the `uint32_t` sums cannot wrap (a bucket of at most 16 843 009 pixels),
   * each channel of the palette entry is the floor of the bucket's mean, and so lies
   * between the bucket's smallest and largest value of that channel.
   */
  lemma MeanWithinRange(bucket: seq<Pixel>, c: ColorChannel)
    requires |bucket| > 0 && |bucket| * 255 < UInt32Modulus
    ensures TruncatedMean(bucket, c) == ChannelSum(bucket, c) / |bucket|
    ensures ChannelMin(bucket, c) <= TruncatedMean(bucket, c) <= ChannelMax(bucket, c)
  {
    var sum, n := ChannelSum(bucket, c), |bucket|;
    var lo, hi := ChannelMin(bucket, c), ChannelMax(bucket, c);
    ChannelRangeOfNonEmpty(bucket, c);
    ChannelSumBounds(bucket, c, lo, hi);
    SumBelowModulus(sum, n, hi);
    DivBounds(sum, n, lo, hi);
    assert TruncatedMean(bucket, c) == sum / n % 256;
  }

  lemma SumBelowModulus(sum: nat, n: nat, hi: nat)
    requires sum <= n * hi && hi <= 255 && n * 255 < UInt32Modulus
    ensures sum % UInt32Modulus == sum
  {
    MulMonotone(hi, 255, n);
  }

  /** Adding the next pixel's channel to a wrapped running sum gives the wrapped longer sum. */
  lemma SumStep(bucket: seq<Pixel>, i: nat, c: ColorChannel, acc: nat)
    requires i < |bucket| && acc == ChannelSum(bucket[..i], c) % UInt32Modulus
    ensures (acc + ChannelOf(bucket[i], c)) % UInt32Modulus == ChannelSum(bucket[..i + 1], c) % UInt32Modulus
  {
    assert bucket[..i + 1][..i] == bucket[..i];
    ModAddStep(ChannelSum(bucket[..i], c), ChannelOf(bucket[i], c));
  }

  /** The accumulation loop of lines 234-242: three `uint32_t` sums over the bucket. */
  method WrappedSums(bucket: seq<Pixel>) returns (r: nat, g: nat, b: nat)
    ensures r == ChannelSum(bucket, Red) % UInt32Modulus
    ensures g == ChannelSum(bucket, Green) % UInt32Modulus
    ensures b == ChannelSum(bucket, Blue) % UInt32Modulus
  {
    r, g, b := 0, 0, 0;
    for i := 0 to |bucket|
      invariant r == ChannelSum(bucket[..i], Red) % UInt32Modulus
      invariant g == ChannelSum(bucket[..i], Green) % UInt32Modulus
      invariant b == ChannelSum(bucket[..i], Blue) % UInt32Modulus
    {
      SumStep(bucket, i, Red, r);
      SumStep(bucket, i, Green, g);
      SumStep(bucket, i, Blue, b);
      r := (r + bucket[i].r) % UInt32Modulus;
      g := (g + bucket[i].g) % UInt32Modulus;
      b := (b + bucket[i].b) % UInt32Modulus;
    }
    assert bucket[..|bucket|] == bucket;
  }

  /** The per-bucket mean of `quantizeColors` (lines 235-249): wrapped sums, divided, truncated. */
  method MeanColor(bucket: seq<Pixel>) returns (color: PaletteValue)
    requires |bucket| > 0
    ensures color == MeanOf(bucket)
  {
    var r, g, b := WrappedSums(bucket);
    r := r / |bucket|;
    g := g / |bucket|;
    b := b / |bucket|;
    color := PaletteValue(r % 256, g % 256, b % 256);
  }

  // ---------------------------------------------------------------------------
  // 4-bit packing
  // ---------------------------------------------------------------------------

  /**
   * The colour index of pixel `n` in a 4-bit buffer, as unpacked at line 492: the high
   * nibble of byte n/2 for an even `n`, the low nibble for an odd one.
   */
  function Nibble(packed: seq<Byte>, n: nat): (v: nat)
    requires n / 2 < |packed|
    ensures v < 16
    ensures n % 2 == 0 ==> packed[n / 2] == 16 * v + packed[n / 2] % 16
    ensures n % 2 == 1 ==> packed[n / 2] == packed[n / 2] / 16 * 16 + v
  {
    if n % 2 == 0 then packed[n / 2] / 16 else packed[n / 2] % 16
  }

  /** Byte `b` with the nibble of pixel `n` set to `v` and the other kept, as written at lines 255-258. */
  function WithNibble(b: Byte, n: nat, v: nat): Byte
    requires v < 16
  {
    if n % 2 == 0 then b % 16 + 16 * v else b / 16 * 16 + v
  }

  /** Unpacking returns the index just packed, and every other pixel's index is kept. */
  lemma NibbleAfterWrite(packed: seq<Byte>, n: nat, v: nat, m: nat)
    requires n / 2 < |packed| && m / 2 < |packed| && v < 16
    ensures Nibble(packed[n / 2 := WithNibble(packed[n / 2], n, v)], m) ==
      if m == n then v else Nibble(packed, m)
  {
    var b := packed[n / 2];
    if m / 2 != n / 2 {
      assert packed[n / 2 := WithNibble(b, n, v)][m / 2] == packed[m / 2];
    } else {
      NibbleArithmetic(b, v);
    }
  }

  /** Setting one nibble of a byte leaves the other: the arithmetic of lines 255-258. */
  lemma NibbleArithmetic(b: Byte, v: nat)
    requires v < 16
    ensures (b % 16 + 16 * v) / 16 == v && (b % 16 + 16 * v) % 16 == b % 16
    ensures (b / 16 * 16 + v) % 16 == v && (b / 16 * 16 + v) / 16 == b / 16
  {
  }

  /** No pixel of `bucket` sits at raster position `n`. */
  ghost predicate NotInBucket(bucket: seq<Pixel>, width: nat, n: nat) {
    forall j | 0 <= j < |bucket| :: PixelIndex(bucket[j], width) != n
  }

  /**
   * The write-back loop of `quantizeColors` (lines 252-259) for one bucket: every pixel
   * of the bucket gets index `colorIdx`; every other pixel keeps its index.
   */
  method WriteColorIndices(output: array<Byte>, bucket: seq<Pixel>, colorIdx: nat, width: nat)
    requires colorIdx < 16
    requires forall j | 0 <= j < |bucket| :: PixelIndex(bucket[j], width) / 2 < output.Length
    modifies output
    ensures forall j | 0 <= j < |bucket| :: Nibble(output[..], PixelIndex(bucket[j], width)) == colorIdx
    ensures forall n | 0 <= n && n / 2 < output.Length && NotInBucket(bucket, width, n) ::
      Nibble(output[..], n) == Nibble(old(output[..]), n)
  {
    for j := 0 to |bucket|
      invariant forall j' | 0 <= j' < j :: Nibble(output[..], PixelIndex(bucket[j'], width)) == colorIdx
      invariant forall n | 0 <= n && n / 2 < output.Length && NotInBucket(bucket[..j], width, n) ::
        Nibble(output[..], n) == Nibble(old(output[..]), n)
    {
      var pixelIdx := PixelIndex(bucket[j], width);
      var byteIdx := pixelIdx / 2;
      ghost var before := output[..];
      output[byteIdx] := WithNibble(output[byteIdx], pixelIdx, colorIdx);
      assert output[..] == before[byteIdx := WithNibble(before[byteIdx], pixelIdx, colorIdx)];
      forall m | 0 <= m && m / 2 < output.Length
        ensures Nibble(output[..], m) == if m == pixelIdx then colorIdx else Nibble(before, m)
      {
        NibbleAfterWrite(before, pixelIdx, colorIdx, m);
      }
      forall n | 0 <= n && n / 2 < output.Length && NotInBucket(bucket[..j + 1], width, n)
        ensures NotInBucket(bucket[..j], width, n)
      {
        assert forall j' | 0 <= j' < j :: bucket[..j + 1][j'] == bucket[..j][j'];
        assert bucket[..j + 1][j] == bucket[j];
      }
    }
    assert bucket[..|bucket|] == bucket;
  }

  /**
   * The per-bucket loop of `quantizeColors` (lines 230-260) over zero-initialised
   * outputs: palette entry k becomes the mean of bucket k and every pixel of bucket k
   * gets index k; entries past the last bucket are left as they were.
   */
  method WriteBuckets(palette: array<PaletteValue>, output: array<Byte>, buckets: seq<seq<Pixel>>, width: nat)
    requires |buckets| <= palette.Length <= 16
    requires NonEmptyBuckets(buckets)
    requires InFrame(buckets, width, 2 * output.Length)
    requires DistinctPositions(buckets, width)
    modifies palette, output
    ensures forall k | 0 <= k < |buckets| :: palette[k] == MeanOf(buckets[k])
    ensures forall k | |buckets| <= k < palette.Length :: palette[k] == old(palette[k])
    ensures forall k, j | 0 <= k < |buckets| && 0 <= j < |buckets[k]| ::
      Nibble(output[..], PixelIndex(buckets[k][j], width)) == k
  {
    for colorIdx := 0 to |buckets|
      invariant forall k | 0 <= k < colorIdx :: palette[k] == MeanOf(buckets[k])
      invariant forall k | colorIdx <= k < palette.Length :: palette[k] == old(palette[k])
      invariant forall k, j | 0 <= k < colorIdx && 0 <= j < |buckets[k]| ::
        Nibble(output[..], PixelIndex(buckets[k][j], width)) == k
    {
      var bucket := buckets[colorIdx];
      var color := MeanColor(bucket);
      palette[colorIdx] := color;
      WriteColorIndices(output, bucket, colorIdx, width);
      forall k, j | 0 <= k < colorIdx && 0 <= j < |buckets[k]|
        ensures Nibble(output[..], PixelIndex(buckets[k][j], width)) == k
      {
        assert NotInBucket(bucket, width, PixelIndex(buckets[k][j], width));
      }
    }
  }

  // ---------------------------------------------------------------------------
  // quantizeColors
  // ---------------------------------------------------------------------------

  /**
   * The first half of `quantizeColors` (lines 169-222): the image's pixels in raster
   * order, and the median-cut buckets they are split into.
   */
  method ImageBuckets(layout: Layout, bytes: array<Byte>, numColors: nat)
    returns (raster: seq<Pixel>, buckets: seq<seq<Pixel>>)
    requires PowerOfTwoUpTo16(numColors) && layout.format.Supported() && layout.Fits(bytes.Length)
    requires layout.PixelCount() > 0 && layout.width <= 0x1_0000 && layout.height <= 0x1_0000
    ensures IsRaster(raster, bytes[..], layout)
    ensures buckets == MedianCutFrom([raster], numColors)
    ensures multiset(Flatten(buckets)) == multiset(raster)
    ensures 1 <= |buckets| <= numColors && NonEmptyBuckets(buckets)
    ensures InFrame(buckets, layout.width, layout.PixelCount())
    ensures DistinctPositions(buckets, layout.width)
  {
    raster := RasterPixels(bytes, layout);
    buckets := MedianCut(raster, numColors);
    MedianCutKeepsPixels([raster], numColors);
    assert Flatten([raster]) == raster + Flatten([]);
    assert NonEmptyBuckets([raster]);
    BucketsPartitionRaster(buckets, raster, bytes[..], layout);
  }

  /**
   * The second half of `quantizeColors` (lines 224-260): a palette of `numColors` black
   * entries and a zeroed 4-bit image of `count` pixels, filled in bucket by bucket.
   */
  method PaletteAndIndices(buckets: seq<seq<Pixel>>, numColors: nat, count: nat, width: nat)
    returns (palette: array<PaletteValue>, output: array<Byte>)
    requires |buckets| <= numColors <= 16 && count % 2 == 0
    requires NonEmptyBuckets(buckets)
    requires InFrame(buckets, width, count)
    requires DistinctPositions(buckets, width)
    ensures fresh(palette) && fresh(output)
    ensures palette.Length == numColors && output.Length == count / 2
    ensures forall k | 0 <= k < |buckets| :: palette[k] == MeanOf(buckets[k])
    ensures forall k | |buckets| <= k < palette.Length :: palette[k] == Black
    ensures forall k, j | 0 <= k < |buckets| && 0 <= j < |buckets[k]| ::
      PixelIndex(buckets[k][j], width) / 2 < output.Length &&
      Nibble(output[..], PixelIndex(buckets[k][j], width)) == k
  {
    palette := new PaletteValue[numColors](_ => Black);
    output := new Byte[count / 2](_ => 0);
    WriteBuckets(palette, output, buckets, width);
  }

  /**
   * `quantizeColors` (lines 155-263). An unsupported format yields an empty palette and
   * an empty image. Otherwise the palette has `numColors` entries: entry k is the mean of
   * median-cut bucket k and the entries past the last bucket stay black; the output has
   * `width * height / 2` bytes and every pixel's nibble holds the index of its bucket.
   * The buckets together hold every pixel of the image exactly once.
   */
  method QuantizeColors(layout: Layout, bytes: array<Byte>, numColors: nat, outputBitDepth: nat)
    returns (palette: array<PaletteValue>, output: array<Byte>,
             ghost raster: seq<Pixel>, ghost buckets: seq<seq<Pixel>>)
    requires PowerOfTwoUpTo16(numColors) && outputBitDepth == 4
    requires layout.format.Supported() ==>
      && layout.Fits(bytes.Length)
      && layout.PixelCount() > 0 && layout.PixelCount() % 2 == 0
      && layout.width <= 0x1_0000 && layout.height <= 0x1_0000
    ensures fresh(palette) && fresh(output)
    ensures !layout.format.Supported() ==> palette.Length == 0 && output.Length == 0
    ensures layout.format.Supported() ==> palette.Length == numColors && output.Length == layout.PixelCount() / 2
    ensures layout.format.Supported() ==> IsRaster(raster, bytes[..], layout)
    ensures layout.format.Supported() ==> buckets == MedianCutFrom([raster], numColors)
    ensures layout.format.Supported() ==> multiset(Flatten(buckets)) == multiset(raster)
    ensures layout.format.Supported() ==> 1 <= |buckets| <= numColors && NonEmptyBuckets(buckets)
    ensures layout.format.Supported() ==> forall k | 0 <= k < |buckets| :: palette[k] == MeanOf(buckets[k])
    ensures layout.format.Supported() ==> forall k | |buckets| <= k < palette.Length :: palette[k] == Black
    ensures layout.format.Supported() ==> InFrame(buckets, layout.width, 2 * output.Length)
    ensures layout.format.Supported() ==> forall k, j | 0 <= k < |buckets| && 0 <= j < |buckets[k]| ::
      PixelIndex(buckets[k][j], layout.width) / 2 < output.Length &&
      Nibble(output[..], PixelIndex(buckets[k][j], layout.width)) == k
  {
    if !layout.format.Supported() {
      palette := new PaletteValue[0];
      output := new Byte[0];
      raster, buckets := [], [];
      return;
    }
    var pixels, cut := ImageBuckets(layout, bytes, numColors);
    raster, buckets := pixels, cut;
    palette, output := PaletteAndIndices(cut, numColors, layout.PixelCount(), layout.width);
    assert 2 * output.Length == layout.PixelCount();
  }
}
