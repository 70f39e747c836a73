/** alpha_blend of display_pipeline.c: two colour channels per 32-bit multiplication. */
module Blend {
  import opened Arith

  type Pixel = p: nat | p < 0x1_0000_0000

  function Alpha(p: Pixel): (r: nat) { p / 0x100_0000 }
  function Red(p: Pixel): (r: nat) { p / 0x1_0000 % 256 }
  function Green(p: Pixel): (r: nat) { p / 0x100 % 256 }
  function Blue(p: Pixel): (r: nat) { p % 256 }

  /** `v & 0xFF00FF` and `v & 0x00FF00`: the masks select whole bytes. */
  function RedBlue(v: nat): (r: nat) {
    v / 0x1_0000 % 256 * 0x1_0000 + v % 256
  }

  function GreenOnly(v: nat): (r: nat) {
    v / 0x100 % 256 * 0x100
  }

  /** alpha_blend.  The last line joins fields that do not overlap. */
  function Over(dst: Pixel, src: Pixel): (r: Pixel) {
    var sa := Alpha(src);
    if sa == 0 then dst
    else if sa == 255 then src
    else
      var da := 255 - sa;
      var rb := Weighted(RedBlue(src), RedBlue(dst), sa, da) % 0x1_0000_0000 / 256;
      var g := Weighted(GreenOnly(src), GreenOnly(dst), sa, da) % 0x1_0000_0000 / 256;
      0xFF00_0000 + RedBlue(rb) + GreenOnly(g)
  }

  /** `s * sa + d * da`. */
  function Weighted(s: nat, d: nat, sa: nat, da: nat): (r: nat) {
    s * sa + d * da
  }

  /** One channel, blended on its own. */
  function Channel(s: nat, d: nat, sa: nat): (r: nat)
    requires sa <= 255
  {
    Weighted(s, d, sa, 255 - sa) / 256
  }

  lemma {:induction false} WeightedBound(s: nat, d: nat, sa: nat, da: nat)
    requires s < 256 && d < 256 && sa + da == 255
    ensures Weighted(s, d, sa, da) <= 65025
  {
    Product(255 - s, sa);
    Product(255 - d, da);
    assert (255 - s) * sa == 255 * sa - s * sa && (255 - d) * da == 255 * da - d * da;
  }

  lemma {:induction false} Scale(k: nat, hi: nat, lo: nat, w: nat)
    ensures (hi * k + lo) * w == hi * w * k + lo * w
  {
    assert (hi * k + lo) * w == hi * k * w + lo * w;
    assert hi * k * w == hi * w * k;
  }

  lemma {:induction false} Sum2(k: nat, x: nat, y: nat)
    ensures x * k + y * k == (x + y) * k
  {
  }

  /** Weighing a packed pair weighs both parts. */
  lemma {:induction false} WeightedPair(k: nat, sh: nat, sl: nat, dh: nat, dl: nat, sa: nat, da: nat)
    ensures Weighted(sh * k + sl, dh * k + dl, sa, da) == Weighted(sh, dh, sa, da) * k + Weighted(sl, dl, sa, da)
  {
    Scale(k, sh, sl, sa);
    Scale(k, dh, dl, da);
    Sum2(k, sh * sa, dh * da);
  }

  /** The channels of one multiplication do not carry into each other. */
  lemma {:induction false} PackedSum(sr: nat, sb: nat, dr: nat, db: nat, sa: nat, da: nat)
    requires sr < 256 && sb < 256 && dr < 256 && db < 256 && sa + da == 255
    ensures var sum := Weighted(sr * 0x1_0000 + sb, dr * 0x1_0000 + db, sa, da);
            && sum < 0x1_0000_0000
            && sum / 256 / 0x1_0000 % 256 == Weighted(sr, dr, sa, da) / 256
            && sum / 256 % 256 == Weighted(sb, db, sa, da) / 256
  {
    hide Weighted;
    WeightedBound(sr, dr, sa, da);
    WeightedBound(sb, db, sa, da);
    WeightedPair(0x1_0000, sr, sb, dr, db, sa, da);
    Unpack(Weighted(sr, dr, sa, da), Weighted(sb, db, sa, da));
  }

  lemma {:induction false} Unpack(high: nat, low: nat)
    requires high <= 65025 && low <= 65025
    ensures var sum := high * 0x1_0000 + low;
            sum < 0x1_0000_0000 && sum / 256 / 0x1_0000 % 256 == high / 256 && sum / 256 % 256 == low / 256
  {
    assert (high * 0x1_0000 + low) / 256 == high * 256 + low / 256;
  }

  lemma {:induction false} GreenSum(s: nat, d: nat, sa: nat, da: nat)
    requires s < 256 && d < 256 && sa + da == 255
    ensures var sum := Weighted(s * 0x100, d * 0x100, sa, da);
            sum < 0x1_0000_0000 && sum / 256 / 0x100 % 256 == Weighted(s, d, sa, da) / 256
  {
    hide Weighted;
    WeightedBound(s, d, sa, da);
    WeightedPair(0x100, s, 0, d, 0, sa, da);
    NoWeight(sa, da);
  }

  lemma {:induction false} NoWeight(sa: nat, da: nat)
    ensures Weighted(0, 0, sa, da) == 0
  {
  }

  lemma {:induction false} Fields(r: nat, g: nat, b: nat)
    requires r < 256 && g < 256 && b < 256
    ensures var p := 0xFF00_0000 + (r * 0x1_0000 + b) + g * 0x100;
            p < 0x1_0000_0000 && Alpha(p) == 255 && Red(p) == r && Green(p) == g && Blue(p) == b
  {
  }

  /** The packed blend is the blend of each channel: a pixel half through weighs its own colour by its alpha
      and the one below by the rest, and the result is opaque. */
  lemma {:induction false} OverIsPerChannel(dst: Pixel, src: Pixel)
    requires 0x100_0000 <= src < 0xFF00_0000
    ensures var sa, p := src / 0x100_0000, Over(dst, src);
            && p / 0x100_0000 == 255
            && p / 0x1_0000 % 256 == (src / 0x1_0000 % 256 * sa + dst / 0x1_0000 % 256 * (255 - sa)) / 256
            && p / 0x100 % 256 == (src / 0x100 % 256 * sa + dst / 0x100 % 256 * (255 - sa)) / 256
            && p % 256 == (src % 256 * sa + dst % 256 * (255 - sa)) / 256
  {
    hide Over, RedBlue, GreenOnly;
    OverChannels(dst, src);
  }

  /** A transparent pixel leaves the one below, and an opaque one replaces it. */
  lemma {:induction false} OverEnds(dst: Pixel, src: Pixel)
    ensures src < 0x100_0000 ==> Over(dst, src) == dst
    ensures src >= 0xFF00_0000 ==> Over(dst, src) == src
  {
    hide Weighted, RedBlue, GreenOnly;
  }

  lemma {:induction false} OverChannels(dst: Pixel, src: Pixel)
    requires 0 < Alpha(src) < 255
    ensures var sa := Alpha(src);
            && Alpha(Over(dst, src)) == 255
            && Red(Over(dst, src)) == Channel(Red(src), Red(dst), sa)
            && Green(Over(dst, src)) == Channel(Green(src), Green(dst), sa)
            && Blue(Over(dst, src)) == Channel(Blue(src), Blue(dst), sa)
  {
    hide Weighted, RedBlue, GreenOnly;
    var sa := Alpha(src);
    var da := 255 - sa;
    var r := Weighted(Red(src), Red(dst), sa, da) / 256;
    var g := Weighted(Green(src), Green(dst), sa, da) / 256;
    var b := Weighted(Blue(src), Blue(dst), sa, da) / 256;
    PackedSum(Red(src), Blue(src), Red(dst), Blue(dst), sa, da);
    GreenSum(Green(src), Green(dst), sa, da);
    Masks(src);
    Masks(dst);
    assert r < 256 && g < 256 && b < 256 by {
      WeightedBound(Red(src), Red(dst), sa, da);
      WeightedBound(Green(src), Green(dst), sa, da);
      WeightedBound(Blue(src), Blue(dst), sa, da);
    }
    var rb := Weighted(RedBlue(src), RedBlue(dst), sa, da) / 256;
    var gg := Weighted(GreenOnly(src), GreenOnly(dst), sa, da) / 256;
    Joined(rb, gg, r, g, b);
    OverUnfolds(dst, src, rb, gg);
  }

  lemma {:induction false} Masks(p: Pixel)
    ensures RedBlue(p) == Red(p) * 0x1_0000 + Blue(p) && GreenOnly(p) == Green(p) * 0x100
  {
  }

  lemma {:induction false} Joined(rb: nat, gg: nat, r: nat, g: nat, b: nat)
    requires r < 256 && g < 256 && b < 256
    requires rb / 0x1_0000 % 256 == r && rb % 256 == b && gg / 0x100 % 256 == g
    ensures var p := 0xFF00_0000 + RedBlue(rb) + GreenOnly(gg);
            p < 0x1_0000_0000 && Alpha(p) == 255 && Red(p) == r && Green(p) == g && Blue(p) == b
  {
    Fields(r, g, b);
  }

  lemma {:induction false} OverUnfolds(dst: Pixel, src: Pixel, rb: nat, gg: nat)
    requires 0 < Alpha(src) < 255
    requires var sum := Weighted(RedBlue(src), RedBlue(dst), Alpha(src), 255 - Alpha(src));
             sum < 0x1_0000_0000 && rb == sum / 256
    requires var sum := Weighted(GreenOnly(src), GreenOnly(dst), Alpha(src), 255 - Alpha(src));
             sum < 0x1_0000_0000 && gg == sum / 256
    ensures Over(dst, src) == 0xFF00_0000 + RedBlue(rb) + GreenOnly(gg)
  {
    hide Weighted, RedBlue, GreenOnly;
  }

  /** Dividing by 256 in place of 255 makes the blend of a colour with itself one step darker. */
  lemma {:induction false} BlendDarkens(c: nat, sa: nat)
    requires c < 256 && sa <= 255
    ensures Channel(c, c, sa) == if c == 0 then 0 else c - 1
  {
    WeightedSelf(c, sa, 255 - sa);
  }

  lemma {:induction false} WeightedSelf(c: nat, sa: nat, da: nat)
    requires sa + da == 255
    ensures Weighted(c, c, sa, da) == c * 255
  {
    assert c * sa + c * da == c * (sa + da);
  }
}
