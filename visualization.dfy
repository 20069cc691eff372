/**
 * The colour preview: `RandomColor`, a generator that walks hue,
 * saturation and luma round in a counter-driven cycle, and
 * `VisualizationService.apply_random_colormap`, which paints a label map
 * with a palette drawn from a fresh generator.
 *
 * `colorsys.hls_to_rgb` is a parameter (`hlsToRgb`, taking hue, luma and
 * saturation, in that order); colour arithmetic is on reals.
 */
module Visualization {
  import opened Wrappers
  import opened Bits
  import opened Masking

  /** The generator's fields: hue, saturation, luma and the update counter. */
  datatype Hls = Hls(hue: real, sat: real, luma: real, counter: nat)

  /** Python's float `x % m` for a positive `m`: the remainder with the sign of `m`. */
  function RealMod(x: real, m: real): (r: real)
    requires m > 0.0
    ensures 0.0 <= r < m
    ensures 0.0 <= x < m ==> r == x
  {
    FloorOfQuotient(x, m);
    x - m * (x / m).Floor as real
  }

  /** `x` is a whole multiple of `m` plus `RealMod(x, m)`. */
  lemma RealModQuotient(x: real, m: real) returns (k: int)
    requires m > 0.0
    ensures x == m * k as real + RealMod(x, m)
  {
    k := (x / m).Floor;
  }

  /**
   * `RealMod(x, m)` is the only remainder in [0, m) that leaves a whole
   * multiple of `m`: Python's `x % m` for a positive modulus.
   */
  lemma RealModUnique(x: real, m: real, k: int, r: real)
    requires m > 0.0 && 0.0 <= r < m
    requires x == m * k as real + r
    ensures RealMod(x, m) == r
  {
    var q := RealModQuotient(x, m);
    RemainderUnique(m, k, r, q, RealMod(x, m));
  }

  /** Whole multiples of `m` plus remainders in [0, m) that agree have the same parts. */
  lemma RemainderUnique(m: real, k: int, r: real, q: int, s: real)
    requires m > 0.0 && 0.0 <= r < m && 0.0 <= s < m
    requires m * k as real + r == m * q as real + s
    ensures k == q && r == s
  {
    SmallMultiple(m, k - q, s - r);
  }

  /** The only whole multiple of `m` strictly between `-m` and `m` is zero. */
  lemma SmallMultiple(m: real, d: int, p: real)
    requires m > 0.0 && p == m * d as real && -m < p < m
    ensures d == 0
  {
    if d >= 1 {
      MulMonotone(m, 1.0, d as real);
      assert false;
    } else if d <= -1 {
      MulMonotone(m, d as real, -1.0);
      assert false;
    }
  }

  /** The whole multiples of `m` below `x`: at most `x` and more than `x - m`. */
  lemma FloorOfQuotient(x: real, m: real)
    requires m > 0.0
    ensures 0.0 <= x - m * (x / m).Floor as real < m
    ensures 0.0 <= x < m ==> (x / m).Floor == 0
  {
    var q := x / m;
    var k := q.Floor;
    assert x == m * q;
    MulMonotone(m, k as real, q);
    MulMonotone(m, q, k as real + 1.0);
    assert m * (k as real + 1.0) == m * k as real + m;
    assert q < k as real + 1.0;
    assert x < m * k as real + m;
    if 0.0 <= x < m {
      assert m * q < m * 1.0;
      assert q < 1.0 by {
        if q >= 1.0 {
          MulMonotone(m, 1.0, q);
        }
      }
      assert 0.0 <= q by {
        if q < 0.0 {
          MulMonotone(m, q, 0.0);
        }
      }
    }
  }

  lemma MulMonotone(m: real, a: real, b: real)
    requires m > 0.0 && a <= b
    ensures m * a <= m * b
    ensures a < b ==> m * a < m * b
  {
    assert m * b - m * a == m * (b - a);
  }

  /** `update_hls` on the fields. */
  function Next(s: Hls): (t: Hls)
    ensures t.counter == s.counter + 1
  {
    var hue := if s.counter % 3 == 2 then RealMod(s.hue + 0.04, 1.0) else s.hue;
    var sat := if s.counter % 3 == 1 then RealMod(s.sat + 0.14, 1.0) else s.sat;
    var luma := if s.counter % 3 == 0 then RealMod(s.luma + 0.07, 0.5) + 0.07 else s.luma;
    Hls(hue, sat, luma, s.counter + 1)
  }

  /**
   * Each update changes exactly the component the counter names, luma on
   * 0, saturation on 1 and hue on 2 (mod 3), leaves the other two alone,
   * and puts the changed one in its range: [0.07, 0.57) for luma and
   * [0, 1) for hue and saturation.
   */
  lemma UpdateChangesOne(s: Hls)
    ensures s.counter % 3 == 0 ==>
              && Next(s).hue == s.hue && Next(s).sat == s.sat
              && 0.07 <= Next(s).luma < 0.57
    ensures s.counter % 3 == 1 ==>
              && Next(s).hue == s.hue && Next(s).luma == s.luma
              && 0.0 <= Next(s).sat < 1.0
    ensures s.counter % 3 == 2 ==>
              && Next(s).sat == s.sat && Next(s).luma == s.luma
              && 0.0 <= Next(s).hue < 1.0
  {
  }

  /** Every component in the range its update keeps it in. */
  predicate InRange(s: Hls) {
    0.0 <= s.hue < 1.0 && 0.0 <= s.sat < 1.0 && 0.07 <= s.luma < 0.57
  }

  /** `n` updates in a row. */
  function NextN(s: Hls, n: nat): (t: Hls)
    ensures t.counter == s.counter + n
  {
    if n == 0 then s else Next(NextN(s, n - 1))
  }

  /** The updates keep a generator whose components start in range in range. */
  lemma {:induction false} NextNInRange(s: Hls, n: nat)
    requires InRange(s)
    ensures InRange(NextN(s, n))
  {
    if n > 0 {
      NextNInRange(s, n - 1);
      UpdateChangesOne(NextN(s, n - 1));
    }
  }

  /**
   * Three updates in a row, from any point of the cycle, advance each of
   * hue, saturation and luma exactly once.
   */
  lemma ThreeStepsEachOnce(s: Hls)
    ensures NextN(s, 3) == Hls(RealMod(s.hue + 0.04, 1.0), RealMod(s.sat + 0.14, 1.0),
                               RealMod(s.luma + 0.07, 0.5) + 0.07, s.counter + 3)
  {
    ThreeSteps(s);
    var c := s.counter;
    if c % 3 == 0 {
      ThreeFromPhase(s, 0);
    } else if c % 3 == 1 {
      ThreeFromPhase(s, 1);
    } else {
      ThreeFromPhase(s, 2);
    }
  }

  lemma ThreeFromPhase(s: Hls, phase: nat)
    requires phase < 3 && s.counter % 3 == phase
    ensures Next(Next(Next(s))) == Hls(RealMod(s.hue + 0.04, 1.0), RealMod(s.sat + 0.14, 1.0),
                                       RealMod(s.luma + 0.07, 0.5) + 0.07, s.counter + 3)
  {
    var s1 := Next(s);
    var s2 := Next(s1);
    NextFields(s);
    NextFields(s1);
    NextFields(s2);
  }

  lemma ThreeSteps(s: Hls)
    ensures NextN(s, 3) == Next(Next(Next(s)))
  {
    assert NextN(s, 1) == Next(s) by { assert NextN(s, 0) == s; }
    assert NextN(s, 2) == Next(Next(s));
  }

  /** `update_hls` advances the component the counter names, by its own step. */
  lemma NextFields(s: Hls)
    ensures Next(s).hue == if s.counter % 3 == 2 then RealMod(s.hue + 0.04, 1.0) else s.hue
    ensures Next(s).sat == if s.counter % 3 == 1 then RealMod(s.sat + 0.14, 1.0) else s.sat
    ensures Next(s).luma == if s.counter % 3 == 0 then RealMod(s.luma + 0.07, 0.5) + 0.07 else s.luma
    ensures (s.counter + 1) % 3 == (s.counter % 3 + 1) % 3
  {
  }

  /** `np.clip(c * 255, 0, 255).astype(np.uint8)`. */
  function ToChannel(c: real): (b: Byte)
    ensures b as real <= (if c * 255.0 < 0.0 then 0.0 else if c * 255.0 > 255.0 then 255.0 else c * 255.0) < b as real + 1.0
  {
    var x := c * 255.0;
    (if x < 0.0 then 0.0 else if x > 255.0 then 255.0 else x).Floor
  }

  /** The colour `random_color` gives for fields `s`, before it updates them. */
  function ColorOf(s: Hls, hlsToRgb: (real, real, real) -> (real, real, real)): (c: seq<Byte>)
    ensures |c| == 3
  {
    var (r, g, b) := hlsToRgb(s.hue, s.luma, s.sat);
    [ToChannel(r), ToChannel(g), ToChannel(b)]
  }

  class RandomColor {
    var hue: real
    var sat: real
    var luma: real
    var counter: nat

    function State(): Hls
      reads this
    {
      Hls(hue, sat, luma, counter)
    }

    constructor(initSat: real, initHue: real, initLuma: real)
      ensures State() == Hls(initHue, initSat, initLuma, 0)
    {
      hue, sat, luma := initHue, initSat, initLuma;
      counter := 0;
    }

    /** `update_hls`. */
    method UpdateHls()
      modifies this
      ensures State() == Next(old(State()))
    {
      if counter % 3 == 2 {
        hue := RealMod(hue + 0.04, 1.0);
      }
      if counter % 3 == 1 {
        sat := RealMod(sat + 0.14, 1.0);
      }
      if counter % 3 == 0 {
        luma := RealMod(luma + 0.07, 0.5) + 0.07;
      }
      counter := counter + 1;
    }

    /**
     * `random_color`: the three channels of the current fields' colour,
     * each clipped to [0, 255] and truncated, then one update.
     */
    method RandomColor(hlsToRgb: (real, real, real) -> (real, real, real)) returns (rgb: seq<Byte>)
      modifies this
      ensures rgb == ColorOf(old(State()), hlsToRgb)
      ensures State() == Next(old(State()))
    {
      var (r, g, b) := hlsToRgb(hue, luma, sat);
      var components := [r, g, b];
      rgb := [];
      for k := 0 to 3
        invariant |rgb| == k
        invariant forall m :: 0 <= m < k ==> rgb[m] == ToChannel(components[m])
      {
        rgb := rgb + [ToChannel(components[k])];
      }
      UpdateHls();
    }
  }

  /** The colours of `k` calls of `random_color` from fields `s`. */
  function Colors(s: Hls, k: nat, hlsToRgb: (real, real, real) -> (real, real, real)): (cs: seq<seq<Byte>>)
    ensures |cs| == k
  {
    if k == 0 then [] else Colors(s, k - 1, hlsToRgb) + [ColorOf(NextN(s, k - 1), hlsToRgb)]
  }

  /** One more call of `random_color` appends the colour after `k` updates. */
  lemma ColorsStep(s: Hls, k: nat, hlsToRgb: (real, real, real) -> (real, real, real))
    ensures Colors(s, k + 1, hlsToRgb) == Colors(s, k, hlsToRgb) + [ColorOf(NextN(s, k), hlsToRgb)]
  {
  }

  lemma PrependAppend<T>(x: T, s: seq<T>, y: T)
    ensures [x] + s + [y] == [x] + (s + [y])
  {
  }

  /** The `m`-th colour is the colour after `m` updates. */
  lemma {:induction false} ColorsAt(s: Hls, k: nat, hlsToRgb: (real, real, real) -> (real, real, real), m: nat)
    requires m < k
    ensures Colors(s, k, hlsToRgb)[m] == ColorOf(NextN(s, m), hlsToRgb)
  {
    if m < k - 1 {
      ColorsAt(s, k - 1, hlsToRgb, m);
    }
  }

  /** The generator `apply_random_colormap` starts from: `RandomColor(0, 0, 0.07)`. */
  const Initial: Hls := Hls(0.0, 0.0, 0.07, 0)

  /** The palette for `n` labels: black, then `n - 1` colours of a fresh generator. */
  function Palette(n: nat, hlsToRgb: (real, real, real) -> (real, real, real)): (p: seq<seq<Byte>>)
    requires n >= 1
    ensures |p| == n && p[0] == [0, 0, 0]
  {
    [[0, 0, 0]] + Colors(Initial, n - 1, hlsToRgb)
  }

  /**
   * The palette has one entry per label: entry 0 is black and entry `k`
   * is the colour of the fresh generator after `k - 1` updates, whose
   * components are all in range.
   */
  lemma PaletteEntries(n: nat, hlsToRgb: (real, real, real) -> (real, real, real), k: nat)
    requires n >= 1 && k < n
    ensures |Palette(n, hlsToRgb)| == n
    ensures Palette(n, hlsToRgb)[0] == [0, 0, 0]
    ensures k >= 1 ==> Palette(n, hlsToRgb)[k] == ColorOf(NextN(Initial, k - 1), hlsToRgb)
    ensures k >= 1 ==> InRange(NextN(Initial, k - 1))
  {
    if k >= 1 {
      ColorsAt(Initial, n - 1, hlsToRgb, k - 1);
      NextNInRange(Initial, k - 1);
    }
  }

  /** `max()` of an empty array: numpy's `ValueError`. */
  datatype ColormapError = EmptyLabelMap

  /**
   * `apply_random_colormap`: an empty label map has no maximum; otherwise
   * each pixel takes the palette entry of its label, from a palette of
   * `max(label) + 1` entries made by a fresh generator, so the same label
   * map always gives the same image.
   */
  method ApplyRandomColormap(maskCombined: seq<seq<nat>>, h: nat, w: nat,
                             hlsToRgb: (real, real, real) -> (real, real, real))
    returns (r: Result<seq<seq<seq<Byte>>>, ColormapError>)
    requires PlaneShape(maskCombined, h, w)
    ensures r.Failure? <==> h == 0 || w == 0
    ensures r.Success? ==>
              && PlaneShape(r.value, h, w)
              && forall i, j :: 0 <= i < h && 0 <= j < w ==>
                   maskCombined[i][j] < PlaneMax(maskCombined, w) + 1
                   && r.value[i][j] == Palette(PlaneMax(maskCombined, w) + 1, hlsToRgb)[maskCombined[i][j]]
  {
    if h == 0 || w == 0 {
      return Failure(EmptyLabelMap);
    }
    var numObjects := PlaneMax(maskCombined, w) + 1;
    var colors := MakePalette(numObjects, hlsToRgb);
    var image := seq(h, i requires 0 <= i < h =>
                   seq(w, j requires 0 <= j < w => colors[maskCombined[i][j]]));
    r := Success(image);
  }

  /** The palette list of `apply_random_colormap`, drawn from a fresh generator. */
  method MakePalette(numObjects: nat, hlsToRgb: (real, real, real) -> (real, real, real))
    returns (colors: seq<seq<Byte>>)
    requires numObjects >= 1
    ensures colors == Palette(numObjects, hlsToRgb)
  {
    var randomColorGen := new RandomColor(0.0, 0.0, 0.07);
    colors := [[0, 0, 0]];
    var k := 0;
    while k < numObjects - 1
      invariant 0 <= k <= numObjects - 1
      invariant randomColorGen.State() == NextN(Initial, k)
      invariant colors == [[0, 0, 0]] + Colors(Initial, k, hlsToRgb)
    {
      ghost var before := randomColorGen.State();
      var c := randomColorGen.RandomColor(hlsToRgb);
      assert c == ColorOf(before, hlsToRgb) && before == NextN(Initial, k);
      ColorsStep(Initial, k, hlsToRgb);
      PrependAppend([0, 0, 0], Colors(Initial, k, hlsToRgb), c);
      colors := colors + [c];
      k := k + 1;
    }
  }

  /** Background pixels are black, and pixels with equal labels get equal colours. */
  lemma ColormapLabels(maskCombined: seq<seq<nat>>, w: nat, hlsToRgb: (real, real, real) -> (real, real, real),
                       i: nat, j: nat, i': nat, j': nat)
    requires maskCombined != [] && w > 0 && forall r :: 0 <= r < |maskCombined| ==> |maskCombined[r]| == w
    requires i < |maskCombined| && i' < |maskCombined| && j < w && j' < w
    ensures maskCombined[i][j] == 0 ==> Palette(PlaneMax(maskCombined, w) + 1, hlsToRgb)[maskCombined[i][j]] == [0, 0, 0]
    ensures maskCombined[i][j] == maskCombined[i'][j'] ==>
              Palette(PlaneMax(maskCombined, w) + 1, hlsToRgb)[maskCombined[i][j]]
              == Palette(PlaneMax(maskCombined, w) + 1, hlsToRgb)[maskCombined[i'][j']]
  {
  }
}
