/**
 * `MaskCompositionService`: the mask of one object, from the ID/coverage
 * channel pairs of a Cryptomatte layer, and the pixel-wise combination of
 * masks.
 *
 * A layer's channels are held pixel by pixel: `pixels[i][j]` is the
 * sequence of the `depth` channel samples of pixel (i, j), in the order of
 * the layer's channel list, so that rank r keeps its ID in sample 2r and
 * its coverage in sample 2r + 1. A sample carries the bit pattern of the
 * float (for ID comparison) and its value (for the coverage arithmetic).
 */
module Masking {
  import opened Wrappers
  import opened Bits

  datatype Sample = Sample(bits: Bits32, value: real)

  /** The `[H, W, N]` channel array. */
  datatype Channels = Channels(height: nat, width: nat, depth: nat, pixels: seq<seq<seq<Sample>>>)

  /** `h` rows of `w` entries each. */
  predicate PlaneShape<T>(p: seq<seq<T>>, h: nat, w: nat) {
    |p| == h && forall i :: 0 <= i < h ==> |p[i]| == w
  }

  /** Every pixel has exactly `depth` samples. */
  predicate WellShaped(c: Channels) {
    && PlaneShape(c.pixels, c.height, c.width)
    && forall i, j :: 0 <= i < c.height && 0 <= j < c.width ==> |c.pixels[i][j]| == c.depth
  }

  /** Every plane is `h` by `w`. */
  predicate AllShaped<T>(planes: seq<seq<seq<T>>>, h: nat, w: nat) {
    forall k :: 0 <= k < |planes| ==> PlaneShape(planes[k], h, w)
  }

  /** Two planes of one shape with the same pixels are the same plane. */
  lemma SamePixels<T>(a: seq<seq<T>>, b: seq<seq<T>>, h: nat, w: nat)
    requires PlaneShape(a, h, w) && PlaneShape(b, h, w)
    requires forall i, j :: 0 <= i < h && 0 <= j < w ==> a[i][j] == b[i][j]
    ensures a == b
  {
    forall i | 0 <= i < h
      ensures a[i] == b[i]
    {
      assert forall j :: 0 <= j < w ==> a[i][j] == b[i][j];
    }
  }

  /** A float32 coverage plane. */
  type Plane = seq<seq<real>>

  /** A `uint8` mask. */
  type Mask = seq<seq<Byte>>

  function ZeroPlane(h: nat, w: nat): (p: Plane)
    ensures PlaneShape(p, h, w)
    ensures forall i, j :: 0 <= i < h && 0 <= j < w ==> p[i][j] == 0.0
  {
    seq(h, i => seq(w, j => 0.0))
  }

  function ZeroMask(h: nat, w: nat): (m: Mask)
    ensures PlaneShape(m, h, w)
    ensures forall i, j :: 0 <= i < h && 0 <= j < w ==> m[i][j] == 0
  {
    seq(h, i => seq(w, j => 0))
  }

  /** The ID of rank `rank` of pixel `px` is (float-)equal to the target. */
  predicate RankMatches(px: seq<Sample>, target: Bits32, rank: nat)
    requires 2 * rank < |px|
  {
    FloatEq(px[2 * rank].bits, target)
  }

  /** What rank `rank` contributes to pixel `px`: its coverage where its ID matches. */
  function Contribution(px: seq<Sample>, target: Bits32, rank: nat): real
    requires 2 * rank + 1 < |px|
  {
    if RankMatches(px, target, rank) then px[2 * rank + 1].value else 0.0
  }

  /**
   * `get_coverage_for_rank`: an all-zero plane when the rank's coverage
   * channel is past the last channel; otherwise each pixel holds the
   * rank's coverage where the rank's ID equals the target, and 0 elsewhere.
   */
  function CoverageForRank(target: Bits32, c: Channels, rank: nat): (r: Plane)
    requires WellShaped(c)
    ensures PlaneShape(r, c.height, c.width)
    ensures 2 * rank + 1 >= c.depth ==>
              forall i, j :: 0 <= i < c.height && 0 <= j < c.width ==> r[i][j] == 0.0
    ensures 2 * rank + 1 < c.depth ==>
              forall i, j :: 0 <= i < c.height && 0 <= j < c.width ==>
                && (RankMatches(c.pixels[i][j], target, rank) ==> r[i][j] == c.pixels[i][j][2 * rank + 1].value)
                && (!RankMatches(c.pixels[i][j], target, rank) ==> r[i][j] == 0.0)
  {
    if 2 * rank + 1 >= c.depth then ZeroPlane(c.height, c.width)
    else
      seq(c.height, i requires 0 <= i < c.height =>
        seq(c.width, j requires 0 <= j < c.width => Contribution(c.pixels[i][j], target, rank)))
  }

  /** The coverage of the first `n` ranks of a pixel, summed. */
  function Coverage(px: seq<Sample>, target: Bits32, n: nat): real
    requires 2 * n <= |px|
  {
    if n == 0 then 0.0 else Coverage(px, target, n - 1) + Contribution(px, target, n - 1)
  }

  /** `np.clip(x, 0.0, 1.0)`. */
  function Clamp01(x: real): (y: real)
    ensures 0.0 <= y <= 1.0
    ensures 0.0 <= x <= 1.0 ==> y == x
    ensures x < 0.0 ==> y == 0.0
    ensures x > 1.0 ==> y == 1.0
  {
    if x < 0.0 then 0.0 else if x > 1.0 then 1.0 else x
  }

  /** `(coverage * 255).astype(np.uint8)` on a clamped coverage: truncation. */
  function ToByte(coverage: real): (b: Byte)
    ensures b as real <= 255.0 * Clamp01(coverage) < b as real + 1.0
  {
    (255.0 * Clamp01(coverage)).Floor
  }

  /**
   * The mask `compute_mask` specifies: each pixel is the truncated 255-fold
   * of its clamped coverage, summed over the `N div 2` whole ranks.
   */
  function MaskOf(target: Bits32, c: Channels): (m: Mask)
    requires WellShaped(c)
    ensures PlaneShape(m, c.height, c.width)
  {
    seq(c.height, i requires 0 <= i < c.height =>
      seq(c.width, j requires 0 <= j < c.width =>
        ToByte(Coverage(c.pixels[i][j], target, c.depth / 2))))
  }

  /** Pixel-wise sum of two planes. */
  function AddPlanes(a: Plane, b: Plane, h: nat, w: nat): (r: Plane)
    requires PlaneShape(a, h, w) && PlaneShape(b, h, w)
    ensures PlaneShape(r, h, w)
    ensures forall i, j :: 0 <= i < h && 0 <= j < w ==> r[i][j] == a[i][j] + b[i][j]
  {
    seq(h, i requires 0 <= i < h => seq(w, j requires 0 <= j < w => a[i][j] + b[i][j]))
  }

  /** Python's `sum` of a list of planes: 0 plus each plane in turn. */
  function SumPlanes(planes: seq<Plane>, h: nat, w: nat): (r: Plane)
    requires AllShaped(planes, h, w)
    ensures PlaneShape(r, h, w)
  {
    if planes == [] then ZeroPlane(h, w)
    else AddPlanes(SumPlanes(planes[..|planes| - 1], h, w), planes[|planes| - 1], h, w)
  }

  /** Summing the planes of the first `n` ranks sums each pixel's contributions. */
  lemma {:induction false} SumOfRanks(target: Bits32, c: Channels, planes: seq<Plane>, n: nat)
    requires WellShaped(c) && 2 * n <= c.depth
    requires |planes| == n && AllShaped(planes, c.height, c.width)
    requires forall k :: 0 <= k < n ==> planes[k] == CoverageForRank(target, c, k)
    ensures forall i, j :: 0 <= i < c.height && 0 <= j < c.width ==>
              SumPlanes(planes, c.height, c.width)[i][j] == Coverage(c.pixels[i][j], target, n)
  {
    if n > 0 {
      SumOfRanks(target, c, planes[..n - 1], n - 1);
      forall i, j | 0 <= i < c.height && 0 <= j < c.width
        ensures SumPlanes(planes, c.height, c.width)[i][j] == Coverage(c.pixels[i][j], target, n)
      {
        var px := c.pixels[i][j];
        assert planes[..n - 1] + [planes[n - 1]] == planes;
        assert CoverageForRank(target, c, n - 1)[i][j] == Contribution(px, target, n - 1);
      }
    }
  }

  /**
   * `compute_mask`: one coverage plane per whole rank (`N div 2` of them,
   * so the bounds check of `get_coverage_for_rank` never fires), an
   * all-zero mask when there is none, and otherwise the sum clamped to
   * [0, 1], scaled by 255 and truncated.
   */
  method ComputeMask(objFloatId: Bits32, channelsArr: Channels) returns (mask: Mask)
    requires WellShaped(channelsArr)
    ensures mask == MaskOf(objFloatId, channelsArr)
  {
    var h, w := channelsArr.height, channelsArr.width;
    var numRanks := channelsArr.depth / 2;
    var coverageList: seq<Plane> := [];
    var rank := 0;
    while rank < numRanks
      invariant 0 <= rank <= numRanks
      invariant |coverageList| == rank
      invariant forall k :: 0 <= k < rank ==> coverageList[k] == CoverageForRank(objFloatId, channelsArr, k)
    {
      var coverageRank := CoverageForRank(objFloatId, channelsArr, rank);
      coverageList := coverageList + [coverageRank];
      rank := rank + 1;
    }
    if coverageList == [] {
      FewChannelsZero(objFloatId, channelsArr);
      return ZeroMask(h, w);
    }
    var coverage := SumPlanes(coverageList, h, w);
    SumOfRanks(objFloatId, channelsArr, coverageList, numRanks);
    mask := seq(h, i requires 0 <= i < h => seq(w, j requires 0 <= j < w => ToByte(coverage[i][j])));
    SamePixels(mask, MaskOf(objFloatId, channelsArr), h, w);
  }

  /** With fewer than two channels there is no whole rank, and the mask is all zero. */
  lemma FewChannelsZero(target: Bits32, c: Channels)
    requires WellShaped(c) && c.depth < 2
    ensures MaskOf(target, c) == ZeroMask(c.height, c.width)
  {
    assert 255.0 * Clamp01(0.0) == 0.0;
    SamePixels(MaskOf(target, c), ZeroMask(c.height, c.width), c.height, c.width);
  }

  /** Without a matching ID among the first `n` ranks, the summed coverage is 0. */
  lemma {:induction false} NoMatchNoCoverage(px: seq<Sample>, target: Bits32, n: nat)
    requires 2 * n <= |px|
    requires forall k :: 0 <= k < n ==> !RankMatches(px, target, k)
    ensures Coverage(px, target, n) == 0.0
  {
    if n > 0 {
      NoMatchNoCoverage(px, target, n - 1);
    }
  }

  /** A pixel where no rank's ID equals the target is 0 in the mask. */
  lemma NoMatchIsZero(target: Bits32, c: Channels, i: nat, j: nat)
    requires WellShaped(c) && i < c.height && j < c.width
    requires forall k :: 0 <= k < c.depth / 2 ==> !RankMatches(c.pixels[i][j], target, k)
    ensures MaskOf(target, c)[i][j] == 0
  {
    NoMatchNoCoverage(c.pixels[i][j], target, c.depth / 2);
    assert 255.0 * Clamp01(0.0) == 0.0;
  }

  /**
   * A pixel whose coverage contributions are not negative and include a
   * full one is 255 in the mask.
   */
  lemma {:induction false} FullCoverageIsOpaque(target: Bits32, c: Channels, i: nat, j: nat, rank: nat)
    requires WellShaped(c) && i < c.height && j < c.width
    requires rank < c.depth / 2
    requires forall k :: 0 <= k < c.depth / 2 ==> Contribution(c.pixels[i][j], target, k) >= 0.0
    requires Contribution(c.pixels[i][j], target, rank) >= 1.0
    ensures MaskOf(target, c)[i][j] == 255
  {
    CoverageAtLeast(c.pixels[i][j], target, c.depth / 2, rank);
  }

  /** With no negative contribution, the sum is at least each of its terms. */
  lemma {:induction false} CoverageAtLeast(px: seq<Sample>, target: Bits32, n: nat, rank: nat)
    requires 2 * n <= |px| && rank < n
    requires forall k :: 0 <= k < n ==> Contribution(px, target, k) >= 0.0
    ensures Coverage(px, target, n) >= Contribution(px, target, rank)
  {
    if rank < n - 1 {
      CoverageAtLeast(px, target, n - 1, rank);
    }
    NonNegativeCoverage(px, target, n - 1);
  }

  lemma {:induction false} NonNegativeCoverage(px: seq<Sample>, target: Bits32, n: nat)
    requires 2 * n <= |px|
    requires forall k :: 0 <= k < n ==> Contribution(px, target, k) >= 0.0
    ensures Coverage(px, target, n) >= 0.0
  {
    if n > 0 {
      NonNegativeCoverage(px, target, n - 1);
    }
  }

  /** The channels without the last one. */
  function DropLastChannel(c: Channels): (d: Channels)
    requires WellShaped(c) && c.depth > 0
    ensures WellShaped(d) && d.depth == c.depth - 1
  {
    Channels(c.height, c.width, c.depth - 1,
      seq(c.height, i requires 0 <= i < c.height =>
        seq(c.width, j requires 0 <= j < c.width => c.pixels[i][j][..c.depth - 1])))
  }

  /** The summed coverage of `n` ranks depends on the first `2n` samples only. */
  lemma {:induction false} CoverageOfPrefix(px: seq<Sample>, q: seq<Sample>, target: Bits32, n: nat)
    requires 2 * n <= |q| <= |px| && q == px[..|q|]
    ensures Coverage(q, target, n) == Coverage(px, target, n)
  {
    if n > 0 {
      CoverageOfPrefix(px, q, target, n - 1);
      assert q[2 * (n - 1)] == px[2 * (n - 1)];
      assert q[2 * (n - 1) + 1] == px[2 * (n - 1) + 1];
    }
  }

  /** An odd trailing channel (an ID without its coverage) plays no part in the mask. */
  lemma OddChannelIgnored(target: Bits32, c: Channels)
    requires WellShaped(c) && c.depth % 2 == 1
    ensures MaskOf(target, DropLastChannel(c)) == MaskOf(target, c)
  {
    var d := DropLastChannel(c);
    assert d.depth / 2 == c.depth / 2;
    forall i, j | 0 <= i < c.height && 0 <= j < c.width
      ensures Coverage(d.pixels[i][j], target, d.depth / 2) == Coverage(c.pixels[i][j], target, c.depth / 2)
    {
      CoverageOfPrefix(c.pixels[i][j], d.pixels[i][j], target, c.depth / 2);
    }
    SamePixels(MaskOf(target, d), MaskOf(target, c), c.height, c.width);
  }

  // ---------------------------------------------------------------------
  // numpy reductions
  // ---------------------------------------------------------------------

  /** The largest entry of a non-empty row. */
  function RowMax(row: seq<int>): (m: int)
    requires row != []
    ensures forall j :: 0 <= j < |row| ==> row[j] <= m
  {
    if |row| == 1 then row[0]
    else
      var rest := RowMax(row[..|row| - 1]);
      if rest >= row[|row| - 1] then rest else row[|row| - 1]
  }

  /** The smallest entry of a non-empty row. */
  function RowMin(row: seq<int>): (m: int)
    requires row != []
    ensures forall j :: 0 <= j < |row| ==> m <= row[j]
  {
    if |row| == 1 then row[0]
    else
      var rest := RowMin(row[..|row| - 1]);
      if rest <= row[|row| - 1] then rest else row[|row| - 1]
  }

  /** `a.max()` of a non-empty 2-D array with rows of width `w`. */
  function PlaneMax(p: seq<seq<int>>, w: nat): (m: int)
    requires p != [] && w > 0 && forall i :: 0 <= i < |p| ==> |p[i]| == w
    ensures forall i, j :: 0 <= i < |p| && 0 <= j < w ==> p[i][j] <= m
  {
    if |p| == 1 then RowMax(p[0])
    else
      var rest := PlaneMax(p[..|p| - 1], w);
      var last := RowMax(p[|p| - 1]);
      if rest >= last then rest else last
  }

  /** `a.min()` of a non-empty 2-D array with rows of width `w`. */
  function PlaneMin(p: seq<seq<int>>, w: nat): (m: int)
    requires p != [] && w > 0 && forall i :: 0 <= i < |p| ==> |p[i]| == w
    ensures forall i, j :: 0 <= i < |p| && 0 <= j < w ==> m <= p[i][j]
  {
    if |p| == 1 then RowMin(p[0])
    else
      var rest := PlaneMin(p[..|p| - 1], w);
      var last := RowMin(p[|p| - 1]);
      if rest <= last then rest else last
  }

  /** The maximum of a row is one of its entries. */
  lemma {:induction false} RowMaxAttained(row: seq<int>) returns (j: nat)
    requires row != []
    ensures j < |row| && row[j] == RowMax(row)
  {
    if |row| == 1 {
      j := 0;
    } else {
      j := RowMaxAttained(row[..|row| - 1]);
      if RowMax(row[..|row| - 1]) < row[|row| - 1] {
        j := |row| - 1;
      }
    }
  }

  /** The minimum of a row is one of its entries. */
  lemma {:induction false} RowMinAttained(row: seq<int>) returns (j: nat)
    requires row != []
    ensures j < |row| && row[j] == RowMin(row)
  {
    if |row| == 1 {
      j := 0;
    } else {
      j := RowMinAttained(row[..|row| - 1]);
      if RowMin(row[..|row| - 1]) > row[|row| - 1] {
        j := |row| - 1;
      }
    }
  }

  /** The maximum of an array is one of its entries. */
  lemma {:induction false} PlaneMaxAttained(p: seq<seq<int>>, w: nat) returns (i: nat, j: nat)
    requires p != [] && w > 0 && forall i :: 0 <= i < |p| ==> |p[i]| == w
    ensures i < |p| && j < w && p[i][j] == PlaneMax(p, w)
  {
    var n := |p| - 1;
    if n == 0 {
      i := 0;
      j := RowMaxAttained(p[0]);
    } else if PlaneMax(p[..n], w) >= RowMax(p[n]) {
      i, j := PlaneMaxAttained(p[..n], w);
    } else {
      i := n;
      j := RowMaxAttained(p[n]);
    }
  }

  /** The minimum of an array is one of its entries. */
  lemma {:induction false} PlaneMinAttained(p: seq<seq<int>>, w: nat) returns (i: nat, j: nat)
    requires p != [] && w > 0 && forall i :: 0 <= i < |p| ==> |p[i]| == w
    ensures i < |p| && j < w && p[i][j] == PlaneMin(p, w)
  {
    var n := |p| - 1;
    if n == 0 {
      i := 0;
      j := RowMinAttained(p[0]);
    } else if PlaneMin(p[..n], w) <= RowMin(p[n]) {
      i, j := PlaneMinAttained(p[..n], w);
    } else {
      i := n;
      j := RowMinAttained(p[n]);
    }
  }

  // ---------------------------------------------------------------------
  // combine_masks
  // ---------------------------------------------------------------------

  function Max(a: Byte, b: Byte): Byte {
    if a >= b then a else b
  }

  /** `np.maximum` of two masks. */
  function PixelMax(a: Mask, b: Mask, h: nat, w: nat): (r: Mask)
    requires PlaneShape(a, h, w) && PlaneShape(b, h, w)
    ensures PlaneShape(r, h, w)
  {
    seq(h, i requires 0 <= i < h => seq(w, j requires 0 <= j < w => Max(a[i][j], b[i][j])))
  }

  /** The zero mask with the maximum of each mask taken in turn. */
  function Combined(masks: seq<Mask>, h: nat, w: nat): (r: Mask)
    requires AllShaped(masks, h, w)
    ensures PlaneShape(r, h, w)
  {
    if masks == [] then ZeroMask(h, w)
    else PixelMax(Combined(masks[..|masks| - 1], h, w), masks[|masks| - 1], h, w)
  }

  /**
   * `combine_masks`: `None` for no masks; otherwise the running maximum,
   * from an all-zero mask of the first mask's shape.
   */
  method CombineMasks(masks: seq<Mask>, h: nat, w: nat) returns (r: Option<Mask>)
    requires AllShaped(masks, h, w)
    ensures r.None? <==> masks == []
    ensures r.Some? ==> r.value == Combined(masks, h, w)
  {
    if masks == [] {
      return None;
    }
    var total := ZeroMask(h, w);
    var k := 0;
    while k < |masks|
      invariant 0 <= k <= |masks|
      invariant total == Combined(masks[..k], h, w)
    {
      assert masks[..k + 1][..k] == masks[..k];
      total := PixelMax(total, masks[k], h, w);
      k := k + 1;
    }
    assert masks[..k] == masks;
    r := Some(total);
  }

  /** Every pixel of the combination is at least that pixel of every mask. */
  lemma {:induction false} CombinedIsUpperBound(masks: seq<Mask>, h: nat, w: nat, k: nat, i: nat, j: nat)
    requires AllShaped(masks, h, w) && k < |masks| && i < h && j < w
    ensures Combined(masks, h, w)[i][j] >= masks[k][i][j]
  {
    var n := |masks|;
    if k < n - 1 {
      CombinedIsUpperBound(masks[..n - 1], h, w, k, i, j);
    }
  }

  /** Every pixel of a non-empty combination is that pixel of one of the masks. */
  lemma {:induction false} CombinedIsAttained(masks: seq<Mask>, h: nat, w: nat, i: nat, j: nat)
    returns (k: nat)
    requires AllShaped(masks, h, w) && masks != [] && i < h && j < w
    ensures k < |masks| && Combined(masks, h, w)[i][j] == masks[k][i][j]
  {
    var n := |masks|;
    if n == 1 {
      k := 0;
    } else {
      var k' := CombinedIsAttained(masks[..n - 1], h, w, i, j);
      k := if Combined(masks[..n - 1], h, w)[i][j] >= masks[n - 1][i][j] then k' else n - 1;
    }
  }

  /**
   * The order of the masks does not matter: masks that are a permutation
   * of each other combine to the same mask.
   */
  lemma CombineOrderFree(a: seq<Mask>, b: seq<Mask>, h: nat, w: nat)
    requires AllShaped(a, h, w) && AllShaped(b, h, w)
    requires multiset(a) == multiset(b)
    ensures Combined(a, h, w) == Combined(b, h, w)
  {
    if a == [] {
      assert |b| == |multiset(b)| == 0;
    } else {
      assert b != [] by { assert a[0] in multiset(b); }
      forall i, j | 0 <= i < h && 0 <= j < w
        ensures Combined(a, h, w)[i][j] == Combined(b, h, w)[i][j]
      {
        var ka := CombinedIsAttained(a, h, w, i, j);
        var kb := CombinedIsAttained(b, h, w, i, j);
        var kb' := IndexOf(b, a[ka]);
        var ka' := IndexOf(a, b[kb]);
        CombinedIsUpperBound(b, h, w, kb', i, j);
        CombinedIsUpperBound(a, h, w, ka', i, j);
      }
      SamePixels(Combined(a, h, w), Combined(b, h, w), h, w);
    }
  }

  /** An element of a sequence sits at some index. */
  lemma IndexOf<T>(s: seq<T>, x: T) returns (k: nat)
    requires x in multiset(s)
    ensures k < |s| && s[k] == x
  {
    assert x in s;
    k :| 0 <= k < |s| && s[k] == x;
  }
}
