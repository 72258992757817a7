/**
 * RGB565 colour arithmetic of the renderer: channel access, packing, and the
 * two alpha blends (the exact one of blendPixel and the packed one of
 * blendPixelFast).  Colours are 16-bit words `rrrrrggggggbbbbb`.
 */
module Colour {
  import opened Arith

  /** GLCD_COLOR_WHITE and GLCD_COLOR_BLACK in RGB565. */
  const White: bv16 := 0xFFFF
  const Black: bv16 := 0x0000

  function Red(c: bv16): bv16 { c >> 11 }
  function Green(c: bv16): bv16 { (c >> 5) & 0x3F }
  function Blue(c: bv16): bv16 { c & 0x1F }

  /** Channel values that fit their 5/6/5-bit fields. */
  predicate IsChannels(r: bv16, g: bv16, b: bv16) { r < 32 && g < 64 && b < 32 }

  /** `(r << 11) | (g << 5) | b`, as the C code packs it into a uint16. */
  function Pack(r: bv16, g: bv16, b: bv16): bv16 { (r << 11) | (g << 5) | b }

  /** The uint16 conversion of a uint32 value (keeps the low 16 bits). */
  function Low16(x: bv32): bv16 { (x & 0xFFFF) as bv16 }

  /** Unpacking a packing gives its channels back, when they fit. */
  lemma UnpackPack(r: bv16, g: bv16, b: bv16)
    requires IsChannels(r, g, b)
    ensures Red(Pack(r, g, b)) == r && Green(Pack(r, g, b)) == g && Blue(Pack(r, g, b)) == b
  {}

  /** Every colour's channels fit, and the colour is the packing of its channels. */
  lemma PackUnpack(c: bv16)
    ensures IsChannels(Red(c), Green(c), Blue(c))
    ensures Pack(Red(c), Green(c), Blue(c)) == c
  {}

  // ------------------------------------------------------------ blendPixel

  function Min(x: int, y: int): int { if x <= y then x else y }
  function Max(x: int, y: int): int { if x <= y then y else x }

  /**
   * The model's own definition of `f * a`, as repeated addition, so that the
   * formula below stays linear; `ScaleProduct` shows it is `f * a`.
   */
  function Scale(f: nat, a: nat): nat
  {
    if a == 0 then 0 else Scale(f, a - 1) + f
  }

  lemma {:induction false} ScaleProduct(f: nat, a: nat)
    ensures Scale(f, a) == f * a
  {
    if a != 0 {
      ScaleProduct(f, a - 1);
    }
  }

  /** `(f * alpha + g * (255 - alpha)) / 255`, the per-channel formula of blendPixel. */
  function Lerp255(f: nat, g: nat, alpha: nat): nat
    requires alpha <= 255
  {
    (Scale(f, alpha) + Scale(g, 255 - alpha)) / 255
  }

  /** The formula interpolates: it lies between the two channels and hits each end. */
  lemma LerpRange(f: nat, g: nat, alpha: nat)
    requires alpha <= 255
    ensures Min(f, g) <= Lerp255(f, g, alpha) <= Max(f, g)
    ensures alpha == 255 ==> Lerp255(f, g, alpha) == f
    ensures alpha == 0 ==> Lerp255(f, g, alpha) == g
  {
    ScaleProduct(f, alpha);
    ScaleProduct(g, 255 - alpha);
    MulMono(alpha, Min(f, g), f);
    MulMono(alpha, f, Max(f, g));
    MulMono(255 - alpha, Min(f, g), g);
    MulMono(255 - alpha, g, Max(f, g));
  }

  /**
   * The model's own definition of the cast of a small natural number to
   * uint16, by counting; its ensures and `ToChannelValue` show it is the cast.
   */
  function ToChannel(n: nat): (r: bv16)
    requires n < 64
    ensures r as int == n
  {
    if n == 0 then 0 else ToChannel(n - 1) + 1
  }

  lemma SmallValue(c: bv16)
    requires c < 64
    ensures c as int < 64
    ensures c < 32 ==> c as int < 32
  {}

  lemma ByteValue(alpha: bv8)
    ensures alpha as int <= 255
  {}

  /** One channel of blendPixel, converted back to a uint16. */
  function ExactChannel(f: bv16, g: bv16, alpha: bv8): bv16
    requires f < 64 && g < 64
  {
    ChannelLerp(f, g, alpha);
    ToChannel(Lerp255(f as int, g as int, alpha as int))
  }

  /** The channel holds exactly the value of the C formula. */
  lemma ExactChannelValue(f: bv16, g: bv16, alpha: bv8)
    requires f < 64 && g < 64
    ensures ExactChannel(f, g, alpha) as int == Lerp255(f as int, g as int, alpha as int)
  {
    ChannelLerp(f, g, alpha);
  }

  /** Blending two channel values stays within the wider field. */
  lemma ChannelLerp(f: bv16, g: bv16, alpha: bv8)
    requires f < 64 && g < 64
    ensures alpha as int <= 255 && Lerp255(f as int, g as int, alpha as int) < 64
    ensures f < 32 && g < 32 ==> Lerp255(f as int, g as int, alpha as int) < 32
  {
    SmallValue(f);
    SmallValue(g);
    ByteValue(alpha);
    LerpBound(f as int, g as int, alpha as int);
  }

  lemma LerpEnds(f: nat, g: nat)
    ensures Lerp255(f, g, 255) == f && Lerp255(f, g, 0) == g
  {
    LerpRange(f, g, 255);
    LerpRange(f, g, 0);
  }

  lemma LerpBound(f: nat, g: nat, alpha: nat)
    requires f < 64 && g < 64 && alpha <= 255
    ensures Lerp255(f, g, alpha) < 64
    ensures f < 32 && g < 32 ==> Lerp255(f, g, alpha) < 32
  {
    LerpRange(f, g, alpha);
  }

  /** The exact blend of blendPixel, with the foreground weighted alpha/255. */
  function Blend(fg: bv16, bg: bv16, alpha: bv8): bv16
  {
    Pack(ExactChannel(Red(fg), Red(bg), alpha), ExactChannel(Green(fg), Green(bg), alpha),
         ExactChannel(Blue(fg), Blue(bg), alpha))
  }

  /** Converting a channel to its value and back is the identity. */
  lemma {:induction false} ToChannelValue(c: bv16)
    requires c < 64
    ensures ToChannel(c as int) == c
    decreases c as int
  {
    if c != 0 {
      assert (c - 1) as int == c as int - 1;
      ToChannelValue(c - 1);
    }
  }

  lemma ExactChannelBound(f: bv16, g: bv16, alpha: bv8)
    requires f < 64 && g < 64
    ensures ExactChannel(f, g, alpha) < 64
    ensures f < 32 && g < 32 ==> ExactChannel(f, g, alpha) < 32
  {
    ChannelLerp(f, g, alpha);
  }

  lemma ExactChannelEnds(f: bv16, g: bv16)
    requires f < 64 && g < 64
    ensures ExactChannel(f, g, 255) == f && ExactChannel(f, g, 0) == g
  {
    ExactChannelOpaque(f, g);
    ExactChannelClear(f, g);
  }

  lemma ExactChannelOpaque(f: bv16, g: bv16)
    requires f < 64 && g < 64
    ensures ExactChannel(f, g, 255) == f
  {
    ExactChannelAt255(f, g);
    ToChannelValue(f);
  }

  lemma ExactChannelClear(f: bv16, g: bv16)
    requires f < 64 && g < 64
    ensures ExactChannel(f, g, 0) == g
  {
    ExactChannelAt0(f, g);
    ToChannelValue(g);
  }

  lemma ExactChannelAt255(f: bv16, g: bv16)
    requires f < 64 && g < 64
    ensures f as int < 64 && ExactChannel(f, g, 255) == ToChannel(f as int)
  {
    SmallValue(f);
    SmallValue(g);
    LerpEnds(f as int, g as int);
  }

  lemma ExactChannelAt0(f: bv16, g: bv16)
    requires f < 64 && g < 64
    ensures g as int < 64 && ExactChannel(f, g, 0) == ToChannel(g as int)
  {
    SmallValue(f);
    SmallValue(g);
    LerpEnds(f as int, g as int);
  }

  /** Both colours' channels fit their fields. */
  predicate ChannelsFit(fg: bv16, bg: bv16)
  {
    IsChannels(Red(fg), Green(fg), Blue(fg)) && IsChannels(Red(bg), Green(bg), Blue(bg))
  }

  /** Each channel of the exact blend is the per-channel formula, so the packing loses nothing. */
  lemma BlendChannels(fg: bv16, bg: bv16, alpha: bv8)
    ensures ChannelsFit(fg, bg)
    ensures Red(Blend(fg, bg, alpha)) == ExactChannel(Red(fg), Red(bg), alpha)
    ensures Green(Blend(fg, bg, alpha)) == ExactChannel(Green(fg), Green(bg), alpha)
    ensures Blue(Blend(fg, bg, alpha)) == ExactChannel(Blue(fg), Blue(bg), alpha)
  {
    PackUnpack(fg);
    PackUnpack(bg);
    var r, g, b := ExactChannel(Red(fg), Red(bg), alpha), ExactChannel(Green(fg), Green(bg), alpha),
                   ExactChannel(Blue(fg), Blue(bg), alpha);
    ExactChannelBound(Red(fg), Red(bg), alpha);
    ExactChannelBound(Green(fg), Green(bg), alpha);
    ExactChannelBound(Blue(fg), Blue(bg), alpha);
    UnpackPack(r, g, b);
  }

  /** Full opacity paints the foreground. */
  lemma BlendOpaque(fg: bv16, bg: bv16)
    ensures Blend(fg, bg, 255) == fg
  {
    BlendChannels(fg, bg, 255);
    ExactChannelEnds(Red(fg), Red(bg));
    ExactChannelEnds(Green(fg), Green(bg));
    ExactChannelEnds(Blue(fg), Blue(bg));
    PackUnpack(fg);
    PackUnpack(Blend(fg, bg, 255));
  }

  /** Zero opacity keeps the background. */
  lemma BlendTransparent(fg: bv16, bg: bv16)
    ensures Blend(fg, bg, 0) == bg
  {
    BlendChannels(fg, bg, 0);
    ExactChannelEnds(Red(fg), Red(bg));
    ExactChannelEnds(Green(fg), Green(bg));
    ExactChannelEnds(Blue(fg), Blue(bg));
    PackUnpack(bg);
    PackUnpack(Blend(fg, bg, 0));
  }

  // -------------------------------------------------------- blendPixelFast

  /** `(alpha + 4) >> 3`: the 8-bit opacity rounded to a weight out of 32. */
  function FastWeight(alpha: bv8): bv32 { ((alpha as bv32) + 4) >> 3 }

  /** `32 - alpha'`: the background weight. */
  function FastComplement(alpha: bv8): bv32 { 32 - FastWeight(alpha) }

  /** `(c | (c << 16)) & 0x7E0F81F`: green moves to bits 21-26, red and blue stay, with zero gaps. */
  function Spread(c: bv16): bv32 { ((c as bv32) | ((c as bv32) << 16)) & 0x7E0F81F }

  /** Back to RGB565: mask off the carries, fold green down onto the low half and keep 16 bits. */
  function Fold(out: bv32): bv16
  {
    var masked := out & 0x7E0F81F;
    Low16((masked >> 16) | masked)
  }

  /** A channel or colour widened to 32 bits. */
  function Wide(c: bv16): bv32 { c as bv32 }

  /** The final `>> 5` that divides the weighted sum by the 32 steps of the scale. */
  function Down(x: bv32): bv32 { x >> 5 }

  /** `(alpha * fg) + (beta * bg)` in uint32 arithmetic. */
  function Weighted(a: bv32, x: bv32, b: bv32, y: bv32): bv32 { a * x + b * y }

  /** The packed blend of blendPixelFast: weights out of 32, all three channels in one multiply. */
  function BlendFast(fg: bv16, bg: bv16, alpha: bv8): bv16
  {
    if alpha == 255 then fg
    else Fold(Down(Weighted(FastWeight(alpha), Spread(fg), FastComplement(alpha), Spread(bg))))
  }

  /** The per-channel formula the packed multiply is meant to compute: `(a*f + b*g) >> 5`. */
  function FastChannel(a: bv32, b: bv32, f: bv16, g: bv16): bv32
  {
    Down(Weighted(a, Wide(f), b, Wide(g)))
  }

  /** Two fast-blend weights that add up to the 32 steps of the scale. */
  predicate Complementary(a: bv32, b: bv32) { a <= 32 && a + b == 32 }

  lemma FastWeights(alpha: bv8)
    ensures Complementary(FastWeight(alpha), FastComplement(alpha))
    ensures alpha <= 3 <==> FastWeight(alpha) == 0
    ensures alpha >= 252 <==> FastWeight(alpha) == 32
  {}

  /** Three fields laid out as Spread lays out green, red and blue. */
  ghost function Fields(g: bv32, r: bv32, b: bv32): bv32 { g * 0x20_0000 + r * 0x800 + b }

  lemma SpreadFields(c: bv16)
    ensures Spread(c) == Fields(Wide(Green(c)), Wide(Red(c)), Wide(Blue(c)))
  {}

  lemma WeightedFields(a: bv32, b: bv32, g: bv32, r: bv32, bl: bv32, g': bv32, r': bv32, bl': bv32)
    ensures Weighted(a, Fields(g, r, bl), b, Fields(g', r', bl'))
         == Fields(Weighted(a, g, b, g'), Weighted(a, r, b, r'), Weighted(a, bl, b, bl'))
  {
    assert Weighted(a, Fields(g, r, bl), b, Fields(g', r', bl'))
        == Weighted(a, g * 0x20_0000 + r * 0x800 + bl, b, g' * 0x20_0000 + r' * 0x800 + bl');
    assert Fields(Weighted(a, g, b, g'), Weighted(a, r, b, r'), Weighted(a, bl, b, bl'))
        == Fields(a * g + b * g', a * r + b * r', a * bl + b * bl');
  }

  lemma Mono63(a: bv32, f: bv32)
    requires a <= 32 && f < 64
    ensures a * f <= a * 63 && a * 63 <= 2016
  {}

  lemma Mono31(a: bv32, f: bv32)
    requires a <= 32 && f < 32
    ensures a * f <= a * 31 && a * 31 <= 992
  {}

  lemma Total(a: bv32, b: bv32)
    requires a <= 32 && a + b == 32
    ensures a * 63 + b * 63 == 2016 && a * 31 + b * 31 == 992
  {}

  lemma AddBound63(p: bv32, q: bv32, x: bv32, y: bv32)
    requires p <= x && q <= y && x <= 2016 && y <= 2016 && x + y == 2016
    ensures p + q <= 2016
  {}

  lemma AddBound31(p: bv32, q: bv32, x: bv32, y: bv32)
    requires p <= x && q <= y && x <= 992 && y <= 992 && x + y == 992
    ensures p + q <= 992
  {}

  /** A 6-bit channel weighted out of 32 stays below 2^11: its field has room. */
  lemma WeightedGreen(a: bv32, b: bv32, f: bv32, g: bv32)
    requires Complementary(a, b) && f < 64 && g < 64
    ensures Weighted(a, f, b, g) <= 2016
  {
    Bound63(a, b, f, g);
  }

  lemma Bound63(a: bv32, b: bv32, f: bv32, g: bv32)
    requires Complementary(a, b) && f < 64 && g < 64
    ensures a * f + b * g <= 2016
  {
    Mono63(a, f);
    Mono63(b, g);
    Total(a, b);
    AddBound63(a * f, b * g, a * 63, b * 63);
  }

  /** A 5-bit channel weighted out of 32 stays below 2^10: its field has room. */
  lemma WeightedRedBlue(a: bv32, b: bv32, f: bv32, g: bv32)
    requires Complementary(a, b) && f < 32 && g < 32
    ensures Weighted(a, f, b, g) <= 992
  {
    Bound31(a, b, f, g);
  }

  lemma Bound31(a: bv32, b: bv32, f: bv32, g: bv32)
    requires Complementary(a, b) && f < 32 && g < 32
    ensures a * f + b * g <= 992
  {
    Mono31(a, f);
    Mono31(b, g);
    Total(a, b);
    AddBound31(a * f, b * g, a * 31, b * 31);
  }

  lemma Unfield(pg: bv32, pr: bv32, pb: bv32)
    requires pg <= 2016 && pr <= 992 && pb <= 992
    ensures Fold(Down(Fields(pg, pr, pb))) == Pack(Low16(Down(pr)), Low16(Down(pg)), Low16(Down(pb)))
  {}

  /** The packed fast blend of three channel pairs, channel by channel. */
  lemma FoldChannels(a: bv32, b: bv32, gf: bv32, rf: bv32, bf: bv32, gb: bv32, rb: bv32, bb: bv32)
    requires Complementary(a, b)
    requires gf < 64 && gb < 64 && rf < 32 && rb < 32 && bf < 32 && bb < 32
    ensures Fold(Down(Weighted(a, Fields(gf, rf, bf), b, Fields(gb, rb, bb))))
         == Pack(Low16(Down(Weighted(a, rf, b, rb))), Low16(Down(Weighted(a, gf, b, gb))), Low16(Down(Weighted(a, bf, b, bb))))
  {
    WeightedFields(a, b, gf, rf, bf, gb, rb, bb);
    WeightedGreen(a, b, gf, gb);
    WeightedRedBlue(a, b, rf, rb);
    WeightedRedBlue(a, b, bf, bb);
    Unfield(Weighted(a, gf, b, gb), Weighted(a, rf, b, rb), Weighted(a, bf, b, bb));
  }

  /** The fast blend in terms of the spread fields of both colours. */
  lemma BlendFastFields(fg: bv16, bg: bv16, alpha: bv8)
    requires alpha != 255
    ensures BlendFast(fg, bg, alpha)
         == Fold(Down(Weighted(FastWeight(alpha), Fields(Wide(Green(fg)), Wide(Red(fg)), Wide(Blue(fg))),
                               FastComplement(alpha), Fields(Wide(Green(bg)), Wide(Red(bg)), Wide(Blue(bg))))))
  {
    SpreadFields(fg);
    SpreadFields(bg);
  }

  /**
   * The uint32 sum of blendPixelFast holds the three weighted channel sums side
   * by side, each below the start of the next field: nothing carries from one
   * channel into another and nothing overflows.
   */
  lemma PackedSum(fg: bv16, bg: bv16, alpha: bv8)
    ensures var a, b := FastWeight(alpha), FastComplement(alpha);
      var pg, pr, pb := Weighted(a, Wide(Green(fg)), b, Wide(Green(bg))), Weighted(a, Wide(Red(fg)), b, Wide(Red(bg))),
                        Weighted(a, Wide(Blue(fg)), b, Wide(Blue(bg)));
      Weighted(a, Spread(fg), b, Spread(bg)) == Fields(pg, pr, pb) && pg <= 2016 && pr <= 992 && pb <= 992
  {
    var a, b := FastWeight(alpha), FastComplement(alpha);
    FastWeights(alpha);
    PackUnpack(fg);
    PackUnpack(bg);
    ChannelWiden(Green(fg));
    ChannelWiden(Red(fg));
    ChannelWiden(Blue(fg));
    ChannelWiden(Green(bg));
    ChannelWiden(Red(bg));
    ChannelWiden(Blue(bg));
    SpreadFields(fg);
    SpreadFields(bg);
    WeightedFields(a, b, Wide(Green(fg)), Wide(Red(fg)), Wide(Blue(fg)), Wide(Green(bg)), Wide(Red(bg)), Wide(Blue(bg)));
    WeightedGreen(a, b, Wide(Green(fg)), Wide(Green(bg)));
    WeightedRedBlue(a, b, Wide(Red(fg)), Wide(Red(bg)));
    WeightedRedBlue(a, b, Wide(Blue(fg)), Wide(Blue(bg)));
  }

  /**
   * Because the zero gaps of Spread absorb every carry, blendPixelFast computes
   * each channel exactly as `(a*f + b*g) >> 5` with a = (alpha+4)>>3, b = 32-a.
   */
  lemma BlendFastChannels(fg: bv16, bg: bv16, alpha: bv8)
    requires alpha != 255
    ensures var a, b := FastWeight(alpha), FastComplement(alpha);
      BlendFast(fg, bg, alpha)
        == Pack(Low16(FastChannel(a, b, Red(fg), Red(bg))), Low16(FastChannel(a, b, Green(fg), Green(bg))),
                Low16(FastChannel(a, b, Blue(fg), Blue(bg))))
  {
    var a, b := FastWeight(alpha), FastComplement(alpha);
    FastWeights(alpha);
    PackUnpack(fg);
    PackUnpack(bg);
    ChannelWiden(Green(fg));
    ChannelWiden(Red(fg));
    ChannelWiden(Blue(fg));
    ChannelWiden(Green(bg));
    ChannelWiden(Red(bg));
    ChannelWiden(Blue(bg));
    BlendFastFields(fg, bg, alpha);
    FoldChannels(a, b, Wide(Green(fg)), Wide(Red(fg)), Wide(Blue(fg)), Wide(Green(bg)), Wide(Red(bg)), Wide(Blue(bg)));
  }

  lemma ChannelWiden(c: bv16)
    ensures (c < 64 ==> Wide(c) < 64) && (c < 32 ==> Wide(c) < 32)
  {}

  /** Narrowing a widened channel gives the channel back. */
  lemma WideNarrow(c: bv16)
    ensures Low16(Wide(c)) == c
  {}

  /** Weight 0 leaves the background channel, weight 32 the foreground one. */
  lemma FastChannelEnds(f: bv16, g: bv16)
    requires f < 64 && g < 64
    ensures FastChannel(0, 32, f, g) == Wide(g)
    ensures FastChannel(32, 0, f, g) == Wide(f)
  {
    ChannelWiden(f);
    ChannelWiden(g);
    WeightedEnds(Wide(f), Wide(g));
    DownScaled(Wide(f));
    DownScaled(Wide(g));
  }

  lemma WeightedEnds(x: bv32, y: bv32)
    ensures Weighted(0, x, 32, y) == 32 * y && Weighted(32, x, 0, y) == 32 * x
  {}

  lemma DownScaled(w: bv32)
    requires w < 64
    ensures Down(32 * w) == w
  {}

  /** The fast channel stays within the channel's range. */
  lemma FastChannelBound(a: bv32, b: bv32, f: bv16, g: bv16)
    requires Complementary(a, b) && f < 64 && g < 64
    ensures FastChannel(a, b, f, g) < 64
    ensures f < 32 && g < 32 ==> FastChannel(a, b, f, g) < 32
  {
    ChannelWiden(f);
    ChannelWiden(g);
    WeightedGreen(a, b, Wide(f), Wide(g));
    if f < 32 && g < 32 {
      WeightedRedBlue(a, b, Wide(f), Wide(g));
    }
  }

  /** An alpha of 252 or more rounds to full weight: the fast blend returns the foreground. */
  lemma BlendFastOpaque(fg: bv16, bg: bv16, alpha: bv8)
    requires alpha >= 252
    ensures BlendFast(fg, bg, alpha) == fg
  {
    if alpha != 255 {
      FastWeights(alpha);
      assert FastWeight(alpha) == 32 && FastComplement(alpha) == 0;
      BlendFastChannels(fg, bg, alpha);
      PackUnpack(fg);
      PackUnpack(bg);
      FastChannelEnds(Red(fg), Red(bg));
      FastChannelEnds(Green(fg), Green(bg));
      FastChannelEnds(Blue(fg), Blue(bg));
      WideNarrow(Red(fg));
      WideNarrow(Green(fg));
      WideNarrow(Blue(fg));
    }
  }

  /** An alpha of 3 or less rounds to zero weight: the fast blend returns the background. */
  lemma BlendFastTransparent(fg: bv16, bg: bv16, alpha: bv8)
    requires alpha <= 3
    ensures BlendFast(fg, bg, alpha) == bg
  {
    FastWeights(alpha);
    assert FastWeight(alpha) == 0 && FastComplement(alpha) == 32;
    BlendFastChannels(fg, bg, alpha);
    PackUnpack(fg);
    PackUnpack(bg);
    FastChannelEnds(Red(fg), Red(bg));
    FastChannelEnds(Green(fg), Green(bg));
    FastChannelEnds(Blue(fg), Blue(bg));
    WideNarrow(Red(bg));
    WideNarrow(Green(bg));
    WideNarrow(Blue(bg));
  }
}
