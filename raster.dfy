/**
 * The software rasteriser of the banner generator: a W×H RGB image kept as
 * a flat byte buffer (3 bytes per pixel, row-major), the colour helpers,
 * bounds-checked pixel writes, alpha blending, a thick Bresenham line, a
 * clipped rectangle fill, the tactical HUD grid, and the binary PPM (P6)
 * framing of each frame file.
 */
module Raster {
  import opened Wrappers
  import opened Text

  const W: int := 1200
  const H: int := 300
  /** `Buffer.alloc(W * H * 3)` */
  const BufferSize: int := W * H * 3

  /** An element of a Node `Buffer`. */
  type byte = x: int | 0 <= x < 256

  /**
   * Assigning a number to a `Buffer` element stores it modulo 256
   * (ToUint8), so an out-of-range channel wraps instead of clamping.
   */
  function ToUint8(v: int): (b: byte)
    ensures 0 <= v < 256 ==> b == v
    ensures (v - b) % 256 == 0
  {
    v % 256
  }

  // ---------------------------------------------------------------------
  // Scalars and colours
  // ---------------------------------------------------------------------

  /** `Math.round`: the nearest integer, halves rounded up. */
  function Round(x: real): (n: int)
    ensures n as real - 0.5 <= x < n as real + 0.5
  {
    (x + 0.5).Floor
  }

  /** `clamp01` */
  function Clamp01(x: real): (r: real)
    ensures 0.0 <= r <= 1.0
    ensures 0.0 <= x <= 1.0 ==> r == x
    ensures x < 0.0 ==> r == 0.0
    ensures x > 1.0 ==> r == 1.0
  {
    if x < 0.0 then 0.0 else if x > 1.0 then 1.0 else x
  }

  /** `lerp` */
  function Lerp(a: real, b: real, t: real): (r: real)
    ensures t == 0.0 ==> r == a
    ensures t == 1.0 ==> r == b
  {
    a + (b - a) * t
  }

  /** For t in [0, 1], Lerp stays between its end points. */
  lemma LerpBetween(a: real, b: real, t: real)
    requires 0.0 <= t <= 1.0
    ensures a <= b ==> a <= Lerp(a, b, t) <= b
    ensures b <= a ==> b <= Lerp(a, b, t) <= a
  {
    var d := b - a;
    assert Lerp(a, b, t) == a + d * t;
    if a <= b {
      MulLe(t, 1.0, d);
      assert 0.0 <= d * t <= d;
    } else {
      MulLe(t, 1.0, -d);
      assert (-d) * t == -(d * t);
      assert 0.0 <= -(d * t) <= -d;
    }
  }

  lemma MulLe(x: real, y: real, k: real)
    requires 0.0 <= x <= y && 0.0 <= k
    ensures 0.0 <= k * x <= k * y
  {
  }

  lemma MixIsLerp(x: real, y: real, t: real)
    ensures x * (1.0 - t) + y * t == Lerp(x, y, t)
  {
  }

  /** Rounding keeps a value inside integer bounds. */
  lemma RoundBetween(x: real, lo: int, hi: int)
    requires lo as real <= x <= hi as real
    ensures lo <= Round(x) <= hi
  {
  }

  /** `rgb(r, g, b)` */
  datatype Rgb = Rgb(r: int, g: int, b: int)

  predicate IsByteColour(c: Rgb)
  {
    0 <= c.r < 256 && 0 <= c.g < 256 && 0 <= c.b < 256
  }

  /** Channel k (0 red, 1 green, 2 blue) of c. */
  function Channel(c: Rgb, k: int): int
  {
    if k == 0 then c.r else if k == 1 then c.g else c.b
  }

  /** `lerpColor`: component-wise Lerp, rounded. */
  function LerpColor(a: Rgb, b: Rgb, t: real): (c: Rgb)
    ensures t == 0.0 ==> c == a
    ensures t == 1.0 ==> c == b
  {
    Rgb(Round(Lerp(a.r as real, b.r as real, t)),
        Round(Lerp(a.g as real, b.g as real, t)),
        Round(Lerp(a.b as real, b.b as real, t)))
  }

  /** Mixing two byte colours with t in [0, 1] gives a byte colour between them. */
  lemma LerpColorBytes(a: Rgb, b: Rgb, t: real)
    requires IsByteColour(a) && IsByteColour(b) && 0.0 <= t <= 1.0
    ensures IsByteColour(LerpColor(a, b, t))
    ensures forall k :: 0 <= k < 3 ==>
      var lo := if Channel(a, k) <= Channel(b, k) then Channel(a, k) else Channel(b, k);
      var hi := if Channel(a, k) <= Channel(b, k) then Channel(b, k) else Channel(a, k);
      lo <= Channel(LerpColor(a, b, t), k) <= hi
  {
    LerpRoundBetween(a.r, b.r, t);
    LerpRoundBetween(a.g, b.g, t);
    LerpRoundBetween(a.b, b.b, t);
  }

  lemma LerpRoundBetween(a: int, b: int, t: real)
    requires 0.0 <= t <= 1.0
    ensures a <= b ==> a <= Round(Lerp(a as real, b as real, t)) <= b
    ensures b <= a ==> b <= Round(Lerp(a as real, b as real, t)) <= a
  {
    LerpBetween(a as real, b as real, t);
    if a <= b {
      RoundBetween(Lerp(a as real, b as real, t), a, b);
    } else {
      RoundBetween(Lerp(a as real, b as real, t), b, a);
    }
  }

  // ---------------------------------------------------------------------
  // Buffer layout
  // ---------------------------------------------------------------------

  predicate InBounds(x: int, y: int)
  {
    0 <= x < W && 0 <= y < H
  }

  /** Index of the red byte of pixel (x, y): `(y * W + x) * 3`. */
  function Offset(x: int, y: int): int
  {
    (y * W + x) * 3
  }

  /** The pixel a byte index belongs to. */
  function PixelX(j: int): int { (j / 3) % W }
  function PixelY(j: int): int { (j / 3) / W }

  lemma OffsetPixel(x: int, y: int, k: int)
    requires InBounds(x, y) && 0 <= k < 3
    ensures 0 <= Offset(x, y) + k < BufferSize
    ensures PixelX(Offset(x, y) + k) == x && PixelY(Offset(x, y) + k) == y
    ensures (Offset(x, y) + k) % 3 == k
  {
    var q := y * W + x;
    assert Offset(x, y) + k == 3 * q + k;
    assert (3 * q + k) / 3 == q;
    assert (3 * q + k) % 3 == k;
    assert q / W == y && q % W == x;
  }

  lemma PixelOffset(j: int)
    requires 0 <= j < BufferSize
    ensures InBounds(PixelX(j), PixelY(j))
    ensures j == Offset(PixelX(j), PixelY(j)) + j % 3
  {
    var q := j / 3;
    assert j == 3 * q + j % 3;
    assert q == W * (q / W) + q % W;
    assert q < W * H;
  }

  /** Byte j belongs to pixel (x, y) exactly when it is one of its three bytes. */
  lemma PixelBytes(j: int, x: int, y: int)
    requires 0 <= j < BufferSize
    ensures PixelX(j) == x && PixelY(j) == y <==> InBounds(x, y) && Offset(x, y) <= j < Offset(x, y) + 3
  {
    PixelOffset(j);
    if InBounds(x, y) && Offset(x, y) <= j < Offset(x, y) + 3 {
      OffsetPixel(x, y, j - Offset(x, y));
    }
  }

  // ---------------------------------------------------------------------
  // setPixel and blendPixel
  // ---------------------------------------------------------------------

  /** The buffer after `setPixel(buf, x, y, c.r, c.g, c.b)`. */
  function Painted(s: seq<byte>, x: int, y: int, c: Rgb): (t: seq<byte>)
    requires |s| == BufferSize
    ensures |t| == BufferSize
  {
    seq(|s|, j requires 0 <= j < |s| =>
      if PixelX(j) == x && PixelY(j) == y then ToUint8(Channel(c, j % 3)) else s[j])
  }

  /** One channel of `blendPixel`: the old byte and the colour mixed by alpha clamped to [0, 1]. */
  function BlendedByte(v: byte, c: int, a: real): byte
  {
    var ia := Clamp01(a);
    ToUint8(Round(v as real * (1.0 - ia) + c as real * ia))
  }

  /** The buffer after `blendPixel(buf, x, y, c.r, c.g, c.b, a)`. */
  function Blended(s: seq<byte>, x: int, y: int, c: Rgb, a: real): (t: seq<byte>)
    requires |s| == BufferSize
    ensures |t| == BufferSize
  {
    seq(|s|, j requires 0 <= j < |s| =>
      if PixelX(j) == x && PixelY(j) == y then BlendedByte(s[j], Channel(c, j % 3), a) else s[j])
  }

  /**
   * `setPixel` writes nothing outside the image, and otherwise exactly the
   * three bytes from `(y * W + x) * 3`.
   */
  lemma PaintedBytes(s: seq<byte>, x: int, y: int, c: Rgb)
    requires |s| == BufferSize
    ensures !InBounds(x, y) ==> Painted(s, x, y, c) == s
    ensures forall j :: 0 <= j < |s| && !(Offset(x, y) <= j < Offset(x, y) + 3) ==> Painted(s, x, y, c)[j] == s[j]
    ensures InBounds(x, y) ==>
      var i := Offset(x, y);
      && Painted(s, x, y, c)[i] == ToUint8(c.r)
      && Painted(s, x, y, c)[i + 1] == ToUint8(c.g)
      && Painted(s, x, y, c)[i + 2] == ToUint8(c.b)
  {
    forall j | 0 <= j < |s| {
      PixelBytes(j, x, y);
    }
    if InBounds(x, y) {
      OffsetPixel(x, y, 0);
      OffsetPixel(x, y, 1);
      OffsetPixel(x, y, 2);
    }
  }

  /**
   * `blendPixel` writes nothing outside the image, and otherwise only the
   * three bytes from `(y * W + x) * 3`.
   */
  lemma BlendedBytes(s: seq<byte>, x: int, y: int, c: Rgb, a: real)
    requires |s| == BufferSize
    ensures !InBounds(x, y) ==> Blended(s, x, y, c, a) == s
    ensures forall j :: 0 <= j < |s| && !(Offset(x, y) <= j < Offset(x, y) + 3) ==> Blended(s, x, y, c, a)[j] == s[j]
    ensures InBounds(x, y) ==>
      var i := Offset(x, y);
      && Blended(s, x, y, c, a)[i] == BlendedByte(s[i], c.r, a)
      && Blended(s, x, y, c, a)[i + 1] == BlendedByte(s[i + 1], c.g, a)
      && Blended(s, x, y, c, a)[i + 2] == BlendedByte(s[i + 2], c.b, a)
  {
    forall j | 0 <= j < |s| {
      PixelBytes(j, x, y);
    }
    if InBounds(x, y) {
      OffsetPixel(x, y, 0);
      OffsetPixel(x, y, 1);
      OffsetPixel(x, y, 2);
    }
  }

  /** Alpha at or below 0 leaves a byte as it was. */
  lemma BlendTransparent(v: byte, c: int, a: real)
    requires a <= 0.0
    ensures BlendedByte(v, c, a) == v
  {
  }

  /** Alpha at or above 1 replaces a byte by the colour channel, as setPixel would. */
  lemma BlendOpaque(v: byte, c: int, a: real)
    requires a >= 1.0
    ensures BlendedByte(v, c, a) == ToUint8(c)
  {
  }

  /**
   * A blend is a rounded convex combination: with the colour channel a
   * byte value, the result lies between the old byte and the channel, so
   * the store never wraps.
   */
  lemma BlendConvex(v: byte, c: int, a: real)
    requires 0 <= c < 256
    ensures v <= c ==> v <= BlendedByte(v, c, a) <= c
    ensures c <= v ==> c <= BlendedByte(v, c, a) <= v
    ensures BlendedByte(v, c, a) == Round(Lerp(v as real, c as real, Clamp01(a)))
  {
    var ia := Clamp01(a);
    MixIsLerp(v as real, c as real, ia);
    LerpRoundBetween(v, c, ia);
  }

  /** Opaque blending of a byte colour is the same as setPixel. */
  lemma BlendOpaquePaints(s: seq<byte>, x: int, y: int, c: Rgb, a: real)
    requires |s| == BufferSize && a >= 1.0
    ensures Blended(s, x, y, c, a) == Painted(s, x, y, c)
  {
    forall j | 0 <= j < |s|
      ensures Blended(s, x, y, c, a)[j] == Painted(s, x, y, c)[j]
    {
      BlendOpaque(s[j], Channel(c, j % 3), a);
    }
  }

  /** Transparent blending changes nothing. */
  lemma BlendTransparentKeeps(s: seq<byte>, x: int, y: int, c: Rgb, a: real)
    requires |s| == BufferSize && a <= 0.0
    ensures Blended(s, x, y, c, a) == s
  {
    forall j | 0 <= j < |s|
      ensures Blended(s, x, y, c, a)[j] == s[j]
    {
      BlendTransparent(s[j], Channel(c, j % 3), a);
    }
  }

  /** `setPixel` */
  method SetPixel(buf: array<byte>, x: int, y: int, r: int, g: int, b: int)
    requires buf.Length == BufferSize
    modifies buf
    ensures buf[..] == Painted(old(buf[..]), x, y, Rgb(r, g, b))
  {
    PaintedBytes(buf[..], x, y, Rgb(r, g, b));
    if x < 0 || y < 0 || x >= W || y >= H {
      return;
    }
    var i := (y * W + x) * 3;
    OffsetPixel(x, y, 2);
    buf[i] := ToUint8(r);
    buf[i + 1] := ToUint8(g);
    buf[i + 2] := ToUint8(b);
  }

  /** `blendPixel` */
  method BlendPixel(buf: array<byte>, x: int, y: int, r: int, g: int, b: int, a: real)
    requires buf.Length == BufferSize
    modifies buf
    ensures buf[..] == Blended(old(buf[..]), x, y, Rgb(r, g, b), a)
  {
    BlendedBytes(buf[..], x, y, Rgb(r, g, b), a);
    if x < 0 || y < 0 || x >= W || y >= H {
      return;
    }
    var i := (y * W + x) * 3;
    OffsetPixel(x, y, 2);
    buf[i] := BlendedByte(buf[i], r, a);
    buf[i + 1] := BlendedByte(buf[i + 1], g, a);
    buf[i + 2] := BlendedByte(buf[i + 2], b, a);
  }

  // ---------------------------------------------------------------------
  // Filling a box of pixels row by row
  // ---------------------------------------------------------------------

  /** An inclusive box of pixel coordinates. */
  datatype Box = Box(left: int, top: int, right: int, bottom: int)

  predicate InBox(b: Box, px: int, py: int)
  {
    b.left <= px <= b.right && b.top <= py <= b.bottom
  }

  function Abs(n: int): nat
  {
    if n < 0 then -n else n
  }

  /**
   * Alpha of the line kernel at Manhattan distance d from the centre:
   * 1 at the centre, 0.65 next to it, 0.28 at distance 2, 0.12 beyond.
   */
  function KernelAlpha(d: int): (a: real)
    ensures 0.0 < a <= 1.0
    ensures a == 1.0 <==> d == 0
  {
    if d == 0 then 1.0 else if d == 1 then 0.65 else if d == 2 then 0.28 else 0.12
  }

  /** The kernel never gets stronger further from the centre. */
  lemma KernelFalloff(d1: nat, d2: nat)
    requires d1 <= d2
    ensures KernelAlpha(d2) <= KernelAlpha(d1)
  {
  }

  /** How the alpha of a fill is chosen: one alpha, or the line kernel around a centre. */
  datatype Brush = Flat(alpha: real) | Kernel(cx: int, cy: int)

  function AlphaAt(brush: Brush, px: int, py: int): real
  {
    match brush
    case Flat(a) => a
    case Kernel(cx, cy) => KernelAlpha(Abs(px - cx) + Abs(py - cy))
  }

  /**
   * A row-major sweep over the box has reached pixel (px, py) when the
   * cursor (xcur, ycur) is past it.
   */
  predicate Reached(b: Box, px: int, py: int, ycur: int, xcur: int)
  {
    InBox(b, px, py) && (py < ycur || (py == ycur && px < xcur))
  }

  /** The buffer once every pixel of the box is blended with the brush's alpha. */
  function Filled(s: seq<byte>, b: Box, brush: Brush, c: Rgb): (t: seq<byte>)
    requires |s| == BufferSize
    ensures |t| == BufferSize
  {
    seq(|s|, j requires 0 <= j < |s| =>
      if InBox(b, PixelX(j), PixelY(j))
      then BlendedByte(s[j], Channel(c, j % 3), AlphaAt(brush, PixelX(j), PixelY(j)))
      else s[j])
  }

  /** The buffer part-way through the sweep: only the pixels already reached are blended. */
  function Swept(s: seq<byte>, b: Box, brush: Brush, c: Rgb, ycur: int, xcur: int): (t: seq<byte>)
    requires |s| == BufferSize
    ensures |t| == BufferSize
  {
    seq(|s|, j requires 0 <= j < |s| =>
      if Reached(b, PixelX(j), PixelY(j), ycur, xcur)
      then BlendedByte(s[j], Channel(c, j % 3), AlphaAt(brush, PixelX(j), PixelY(j)))
      else s[j])
  }

  lemma SweptStart(s: seq<byte>, b: Box, brush: Brush, c: Rgb)
    requires |s| == BufferSize
    ensures Swept(s, b, brush, c, b.top, b.left) == s
  {
  }

  /** Blending the cursor pixel moves the cursor one pixel right. */
  lemma SweptStep(s: seq<byte>, b: Box, brush: Brush, c: Rgb, yy: int, xx: int)
    requires |s| == BufferSize && InBox(b, xx, yy)
    ensures Blended(Swept(s, b, brush, c, yy, xx), xx, yy, c, AlphaAt(brush, xx, yy))
         == Swept(s, b, brush, c, yy, xx + 1)
  {
  }

  /** Past the right edge, the sweep continues at the left edge of the next row. */
  lemma SweptRowEnd(s: seq<byte>, b: Box, brush: Brush, c: Rgb, yy: int, xx: int)
    requires |s| == BufferSize && xx > b.right
    ensures Swept(s, b, brush, c, yy, xx) == Swept(s, b, brush, c, yy + 1, b.left)
  {
  }

  /** Below the bottom edge, the sweep is complete. */
  lemma SweptEnd(s: seq<byte>, b: Box, brush: Brush, c: Rgb, yy: int, xx: int)
    requires |s| == BufferSize && yy > b.bottom
    ensures Swept(s, b, brush, c, yy, xx) == Filled(s, b, brush, c)
  {
  }

  /** Bytes of pixels outside the box are not touched by a fill. */
  lemma FilledOutside(s: seq<byte>, b: Box, brush: Brush, c: Rgb, j: int)
    requires |s| == BufferSize && 0 <= j < |s|
    requires !InBox(b, PixelX(j), PixelY(j))
    ensures Filled(s, b, brush, c)[j] == s[j]
  {
  }

  // ---------------------------------------------------------------------
  // drawRect
  // ---------------------------------------------------------------------

  function Ceil(x: real): (n: int)
    ensures n as real - 1.0 < x <= n as real
  {
    -((-x).Floor)
  }

  function Max(a: int, b: int): int { if a < b then b else a }

  /** The pixels `drawRect(buf, x, y, w, h, ...)` visits. */
  function RectBox(x: real, y: real, w: real, h: real): Box
  {
    Box(Max(0, x.Floor), Max(0, y.Floor), Min(W - 1, Ceil(x + w)), Min(H - 1, Ceil(y + h)))
  }

  /**
   * A pixel of the image is covered exactly when it lies between the
   * floor of the near edge and the ceiling of the far edge, both inclusive.
   */
  lemma RectBoxCovers(x: real, y: real, w: real, h: real, px: int, py: int)
    requires InBounds(px, py)
    ensures InBox(RectBox(x, y, w, h), px, py)
        <==> x.Floor <= px <= Ceil(x + w) && y.Floor <= py <= Ceil(y + h)
  {
  }

  /** The box never leaves the image. */
  lemma RectBoxClipped(x: real, y: real, w: real, h: real, px: int, py: int)
    requires InBox(RectBox(x, y, w, h), px, py)
    ensures InBounds(px, py)
  {
  }

  /** With whole-number arguments inside the image, the rectangle spans w + 1 columns and h + 1 rows. */
  lemma RectBoxWhole(x: int, y: int, w: nat, h: nat)
    requires InBounds(x, y) && InBounds(x + w, y + h)
    ensures RectBox(x as real, y as real, w as real, h as real) == Box(x, y, x + w, y + h)
  {
    assert (x + w) as real == x as real + w as real;
    assert (y + h) as real == y as real + h as real;
  }

  /** `drawRect` */
  method DrawRect(buf: array<byte>, x: real, y: real, w: real, h: real, c: Rgb, a: real)
    requires buf.Length == BufferSize
    modifies buf
    ensures buf[..] == Filled(old(buf[..]), RectBox(x, y, w, h), Flat(a), c)
  {
    var x0 := Max(0, x.Floor);
    var y0 := Max(0, y.Floor);
    var x1 := Min(W - 1, Ceil(x + w));
    var y1 := Min(H - 1, Ceil(y + h));
    ghost var box := Box(x0, y0, x1, y1);
    ghost var s := buf[..];
    SweptStart(s, box, Flat(a), c);
    var yy := y0;
    while yy <= y1
      invariant y0 <= yy && (yy <= y1 + 1 || yy == y0)
      invariant buf[..] == Swept(s, box, Flat(a), c, yy, x0)
      decreases y1 + 1 - yy
    {
      var xx := x0;
      while xx <= x1
        invariant x0 <= xx && (xx <= x1 + 1 || xx == x0)
        invariant buf[..] == Swept(s, box, Flat(a), c, yy, xx)
        decreases x1 + 1 - xx
      {
        SweptStep(s, box, Flat(a), c, yy, xx);
        BlendPixel(buf, xx, yy, c.r, c.g, c.b, a);
        xx := xx + 1;
      }
      SweptRowEnd(s, box, Flat(a), c, yy, xx);
      yy := yy + 1;
    }
    SweptEnd(s, box, Flat(a), c, yy, x0);
  }

  // ---------------------------------------------------------------------
  // drawLine
  // ---------------------------------------------------------------------

  /** The thickness kernel around one line centre: a (2t+1)×(2t+1) square. */
  function KernelBox(cx: int, cy: int, t: int): Box
  {
    Box(cx - t, cy - t, cx + t, cy + t)
  }

  /** The buffer after one kernel stamp at (cx, cy). */
  function Stamp(s: seq<byte>, cx: int, cy: int, t: int, c: Rgb): (r: seq<byte>)
    requires |s| == BufferSize
    ensures |r| == BufferSize
  {
    Filled(s, KernelBox(cx, cy, t), Kernel(cx, cy), c)
  }

  /** The two nested offset loops of `drawLine` around one centre. */
  method StampKernel(buf: array<byte>, cx: int, cy: int, t: int, c: Rgb)
    requires buf.Length == BufferSize
    modifies buf
    ensures buf[..] == Stamp(old(buf[..]), cx, cy, t, c)
  {
    ghost var s := buf[..];
    SweptStart(s, KernelBox(cx, cy, t), Kernel(cx, cy), c);
    var oy := -t;
    while oy <= t
      invariant -t <= oy && (oy <= t + 1 || oy == -t)
      invariant buf[..] == Swept(s, KernelBox(cx, cy, t), Kernel(cx, cy), c, cy + oy, cx - t)
      decreases t + 1 - oy
    {
      StampRow(buf, cx, cy, t, c, oy, s);
      oy := oy + 1;
    }
    SweptEnd(s, KernelBox(cx, cy, t), Kernel(cx, cy), c, cy + oy, cx - t);
  }

  /** One step of the kernel sweep, with the alpha the loop computes from the offsets. */
  lemma KernelStep(s: seq<byte>, cx: int, cy: int, t: int, c: Rgb, ox: int, oy: int)
    requires |s| == BufferSize && -t <= ox <= t && -t <= oy <= t
    ensures var box := KernelBox(cx, cy, t);
      Blended(Swept(s, box, Kernel(cx, cy), c, cy + oy, cx + ox), cx + ox, cy + oy, c, KernelAlpha(Abs(ox) + Abs(oy)))
        == Swept(s, box, Kernel(cx, cy), c, cy + oy, cx + ox + 1)
  {
    assert AlphaAt(Kernel(cx, cy), cx + ox, cy + oy) == KernelAlpha(Abs(ox) + Abs(oy));
    SweptStep(s, KernelBox(cx, cy, t), Kernel(cx, cy), c, cy + oy, cx + ox);
  }

  /** The inner offset loop: one row of the kernel square. */
  method StampRow(buf: array<byte>, cx: int, cy: int, t: int, c: Rgb, oy: int, ghost s: seq<byte>)
    requires buf.Length == BufferSize && |s| == BufferSize
    requires -t <= oy <= t
    requires buf[..] == Swept(s, KernelBox(cx, cy, t), Kernel(cx, cy), c, cy + oy, cx - t)
    modifies buf
    ensures buf[..] == Swept(s, KernelBox(cx, cy, t), Kernel(cx, cy), c, cy + oy + 1, cx - t)
  {
    ghost var box := KernelBox(cx, cy, t);
    var ox := -t;
    while ox <= t
      invariant -t <= ox && (ox <= t + 1 || ox == -t)
      invariant buf[..] == Swept(s, box, Kernel(cx, cy), c, cy + oy, cx + ox)
      decreases t + 1 - ox
    {
      var dist := Abs(ox) + Abs(oy);
      var a := KernelAlpha(dist);
      KernelStep(s, cx, cy, t, c, ox, oy);
      BlendPixel(buf, cx + ox, cy + oy, c.r, c.g, c.b, a);
      ox := ox + 1;
    }
    SweptRowEnd(s, box, Kernel(cx, cy), c, cy + oy, cx + ox);
  }

  /** Stamping the kernel at each centre in turn. */
  function StampAll(s: seq<byte>, centres: seq<(int, int)>, t: int, c: Rgb): (r: seq<byte>)
    requires |s| == BufferSize
    ensures |r| == BufferSize
  {
    if |centres| == 0 then s
    else
      var last := centres[|centres| - 1];
      Stamp(StampAll(s, centres[..|centres| - 1], t, c), last.0, last.1, t, c)
  }

  lemma StampAllSnoc(s: seq<byte>, centres: seq<(int, int)>, p: (int, int), t: int, c: Rgb)
    requires |s| == BufferSize
    ensures StampAll(s, centres + [p], t, c) == Stamp(StampAll(s, centres, t, c), p.0, p.1, t, c)
  {
    assert (centres + [p])[..|centres|] == centres;
  }

  /** The kernel stamp of one loop pass, as a step of the fold over the centres. */
  method StampCentre(buf: array<byte>, cx: int, cy: int, t: int, c: Rgb, ghost s: seq<byte>, ghost done: seq<(int, int)>)
    requires buf.Length == BufferSize && |s| == BufferSize
    requires buf[..] == StampAll(s, done, t, c)
    modifies buf
    ensures buf[..] == StampAll(s, done + [(cx, cy)], t, c)
  {
    StampKernel(buf, cx, cy, t, c);
    StampAllSnoc(s, done, (cx, cy), t, c);
  }

  /** A pixel farther than t (in x or y) from every centre keeps its bytes. */
  lemma {:induction false} LineFootprint(s: seq<byte>, centres: seq<(int, int)>, t: int, c: Rgb, j: int)
    requires |s| == BufferSize && 0 <= j < |s|
    requires forall k :: 0 <= k < |centres| ==> !InBox(KernelBox(centres[k].0, centres[k].1, t), PixelX(j), PixelY(j))
    ensures StampAll(s, centres, t, c)[j] == s[j]
  {
    if |centres| > 0 {
      var init := centres[..|centres| - 1];
      LineFootprint(s, init, t, c, j);
    }
  }

  /** The endpoints of a line after rounding. */
  datatype Line = Line(x0: int, y0: int, x1: int, y1: int)

  function Dx(l: Line): nat { Abs(l.x1 - l.x0) }
  function Dy(l: Line): nat { Abs(l.y1 - l.y0) }
  function Sx(l: Line): int { if l.x0 < l.x1 then 1 else -1 }
  function Sy(l: Line): int { if l.y0 < l.y1 then 1 else -1 }

  /** The x of the walk after i steps in x, and the y after j steps in y. */
  function XAt(l: Line, i: int): int { if l.x0 < l.x1 then l.x0 + i else l.x0 - i }
  function YAt(l: Line, j: int): int { if l.y0 < l.y1 then l.y0 + j else l.y0 - j }

  /** The Bresenham error term after i steps in x and j steps in y. */
  function Err(l: Line, i: int, j: int): int
  {
    Times(j + 1, Dx(l)) - Times(i + 1, Dy(l))
  }

  /**
   * n * k for n >= 0, by repeated addition, so that the loop's error
   * term stays linear for the solver.
   */
  function Times(n: int, k: int): int
  {
    if n <= 0 then 0 else Times(n - 1, k) + k
  }

  lemma {:induction false} TimesIsProduct(n: nat, k: int)
    ensures Times(n, k) == n * k
  {
    if n > 0 {
      TimesIsProduct(n - 1, k);
    }
  }

  /** A step in x lowers the error term by Dy, a step in y raises it by Dx. */
  lemma ErrSteps(l: Line, i: int, j: int)
    requires 0 <= i && 0 <= j
    ensures Err(l, 0, 0) == Dx(l) - Dy(l)
    ensures Err(l, i + 1, j) == Err(l, i, j) - Dy(l)
    ensures Err(l, i, j + 1) == Err(l, i, j) + Dx(l)
    ensures Err(l, i + 1, j + 1) == Err(l, i, j) + Dx(l) - Dy(l)
  {
    assert Times(1, Dx(l)) == Times(0, Dx(l)) + Dx(l);
    assert Times(1, Dy(l)) == Times(0, Dy(l)) + Dy(l);
  }

  predicate StepsX(l: Line, i: int, j: int) { 2 * Err(l, i, j) > -(Dy(l) as int) }
  predicate StepsY(l: Line, i: int, j: int) { 2 * Err(l, i, j) < Dx(l) }

  /** With x at its end, the error term is at most minus dy. */
  lemma ErrAtXEnd(dx: nat, dy: nat, j: nat)
    requires j + 1 <= dy
    ensures (j + 1) * dx - (dx + 1) * dy + dy <= 0
  {
    assert (j + 1) * dx <= dy * dx;
  }

  /** With y at its end, the error term is at least dx. */
  lemma ErrAtYEnd(dx: nat, dy: nat, i: nat)
    requires i + 1 <= dx
    ensures (dy + 1) * dx - (i + 1) * dy >= dx
  {
    assert (i + 1) * dy <= dx * dy;
  }

  /**
   * Until both end coordinates are reached, a step moves x, y or both,
   * and never moves past an end coordinate.
   */
  lemma StepProgress(l: Line, i: nat, j: nat)
    requires i <= Dx(l) && j <= Dy(l) && !(i == Dx(l) && j == Dy(l))
    ensures StepsX(l, i, j) ==> i < Dx(l)
    ensures StepsY(l, i, j) ==> j < Dy(l)
    ensures StepsX(l, i, j) || StepsY(l, i, j)
  {
    var dx, dy := Dx(l), Dy(l);
    TimesIsProduct(j + 1, dx);
    TimesIsProduct(i + 1, dy);
    if i == dx {
      ErrAtXEnd(dx, dy, j);
    } else if j == dy {
      ErrAtYEnd(dx, dy, i);
    }
  }

  predicate Between(v: int, a: int, b: int)
  {
    (a <= v <= b) || (b <= v <= a)
  }

  /** q follows p: x moves by Sx or stays, y moves by Sy or stays, and not both stay. */
  predicate IsStep(l: Line, p: (int, int), q: (int, int))
  {
    && (q.0 == p.0 || q.0 == p.0 + Sx(l))
    && (q.1 == p.1 || q.1 == p.1 + Sy(l))
    && q != p
  }

  /** The state after one pass of the loop body, from i steps in x and j in y. */
  function NextI(l: Line, i: int, j: int): int { if StepsX(l, i, j) then i + 1 else i }
  function NextJ(l: Line, i: int, j: int): int { if StepsY(l, i, j) then j + 1 else j }

  /** What one pass of the loop body does to the position and the error term. */
  lemma StepEffect(l: Line, i: nat, j: nat)
    requires i <= Dx(l) && j <= Dy(l) && !(i == Dx(l) && j == Dy(l))
    ensures NextI(l, i, j) <= Dx(l) && NextJ(l, i, j) <= Dy(l)
    ensures XAt(l, NextI(l, i, j)) == XAt(l, i) + (if StepsX(l, i, j) then Sx(l) else 0)
    ensures YAt(l, NextJ(l, i, j)) == YAt(l, j) + (if StepsY(l, i, j) then Sy(l) else 0)
    ensures Err(l, NextI(l, i, j), NextJ(l, i, j))
      == Err(l, i, j) - (if StepsX(l, i, j) then Dy(l) else 0) + (if StepsY(l, i, j) then Dx(l) else 0)
  {
    StepProgress(l, i, j);
    ErrSteps(l, i, j);
  }

  /**
   * The centres the Bresenham loop stamps, from the state reached after
   * i steps in x and j steps in y.
   */
  function Walk(l: Line, i: nat, j: nat): (r: seq<(int, int)>)
    requires i <= Dx(l) && j <= Dy(l)
    ensures |r| >= 1 && r[0] == (XAt(l, i), YAt(l, j))
    decreases Dx(l) - i + Dy(l) - j
  {
    var p := (XAt(l, i), YAt(l, j));
    if i == Dx(l) && j == Dy(l) then [p]
    else
      StepProgress(l, i, j);
      [p] + Walk(l, NextI(l, i, j), NextJ(l, i, j))
  }

  /** One pass of the loop body emits the current centre and moves to the next state. */
  lemma WalkAdvance(l: Line, i: nat, j: nat)
    requires i <= Dx(l) && j <= Dy(l) && !(i == Dx(l) && j == Dy(l))
    ensures NextI(l, i, j) <= Dx(l) && NextJ(l, i, j) <= Dy(l)
    ensures Walk(l, i, j) == [(XAt(l, i), YAt(l, j))] + Walk(l, NextI(l, i, j), NextJ(l, i, j))
  {
    StepProgress(l, i, j);
  }

  /** The walk ends exactly at the rounded end point. */
  lemma {:induction false} WalkEnds(l: Line, i: nat, j: nat)
    requires i <= Dx(l) && j <= Dy(l)
    ensures Walk(l, i, j)[|Walk(l, i, j)| - 1] == (l.x1, l.y1)
    decreases Dx(l) - i + Dy(l) - j
  {
    if !(i == Dx(l) && j == Dy(l)) {
      StepProgress(l, i, j);
      WalkEnds(l, NextI(l, i, j), NextJ(l, i, j));
    }
  }

  /** Each centre follows the previous one by a single step in x, in y, or in both. */
  lemma {:induction false} WalkSteps(l: Line, i: nat, j: nat)
    requires i <= Dx(l) && j <= Dy(l)
    ensures forall k {:trigger Walk(l, i, j)[k]} :: 0 <= k < |Walk(l, i, j)| - 1 ==>
      IsStep(l, Walk(l, i, j)[k], Walk(l, i, j)[k + 1])
    decreases Dx(l) - i + Dy(l) - j
  {
    if !(i == Dx(l) && j == Dy(l)) {
      StepProgress(l, i, j);
      var r := Walk(l, i, j);
      var rest := Walk(l, NextI(l, i, j), NextJ(l, i, j));
      WalkSteps(l, NextI(l, i, j), NextJ(l, i, j));
      assert r == [r[0]] + rest;
      forall k | 0 <= k < |r| - 1
        ensures IsStep(l, r[k], r[k + 1])
      {
        if k > 0 {
          assert r[k] == rest[k - 1] && r[k + 1] == rest[k];
        }
      }
    }
  }

  /** Every centre lies inside the bounding box of the rounded end points. */
  lemma {:induction false} WalkInSpan(l: Line, i: nat, j: nat)
    requires i <= Dx(l) && j <= Dy(l)
    ensures forall k :: 0 <= k < |Walk(l, i, j)| ==>
      Between(Walk(l, i, j)[k].0, l.x0, l.x1) && Between(Walk(l, i, j)[k].1, l.y0, l.y1)
    decreases Dx(l) - i + Dy(l) - j
  {
    if !(i == Dx(l) && j == Dy(l)) {
      StepProgress(l, i, j);
      WalkInSpan(l, NextI(l, i, j), NextJ(l, i, j));
    }
  }

  /** The rounded endpoints `drawLine` works with. */
  function RoundedLine(x0: real, y0: real, x1: real, y1: real): Line
  {
    Line(Round(x0), Round(y0), Round(x1), Round(y1))
  }

  /** Every centre `drawLine(buf, x0, y0, x1, y1, ...)` stamps, in order. */
  function LineCentres(x0: real, y0: real, x1: real, y1: real): (r: seq<(int, int)>)
    ensures |r| >= 1
    ensures r[0] == (Round(x0), Round(y0)) && r[|r| - 1] == (Round(x1), Round(y1))
  {
    WalkEnds(RoundedLine(x0, y0, x1, y1), 0, 0);
    Walk(RoundedLine(x0, y0, x1, y1), 0, 0)
  }

  /** `drawLine` */
  method DrawLine(buf: array<byte>, fx0: real, fy0: real, fx1: real, fy1: real, c: Rgb, thickness: int)
    requires buf.Length == BufferSize
    modifies buf
    ensures buf[..] == StampAll(old(buf[..]), LineCentres(fx0, fy0, fx1, fy1), thickness, c)
  {
    var x0 := Round(fx0);
    var y0 := Round(fy0);
    var x1 := Round(fx1);
    var y1 := Round(fy1);

    var dx: int := Abs(x1 - x0);
    var dy: int := Abs(y1 - y0);
    var sx := if x0 < x1 then 1 else -1;
    var sy := if y0 < y1 then 1 else -1;
    var err := dx - dy;

    ghost var l := Line(x0, y0, x1, y1);
    ErrSteps(l, 0, 0);
    ghost var i: nat, j: nat := 0, 0;
    ghost var done: seq<(int, int)> := [];
    ghost var all := Walk(l, 0, 0);
    while true
      invariant dx == Dx(l) && dy == Dy(l) && sx == Sx(l) && sy == Sy(l)
      invariant i <= dx && j <= dy
      invariant x0 == XAt(l, i) && y0 == YAt(l, j) && err == Err(l, i, j)
      invariant done + Walk(l, i, j) == all
      invariant buf[..] == StampAll(old(buf[..]), done, thickness, c)
      decreases dx - i + dy - j
    {
      ghost var p := (x0, y0);
      StampCentre(buf, x0, y0, thickness, c, old(buf[..]), done);
      if x0 == x1 && y0 == y1 {
        WalkAtEnd(l, i, j);
        done := done + [p];
        break;
      }
      x0, y0, err, i, j := BresenhamStep(l, i, j, x0, y0, err, dx, dy, sx, sy);
      ConcatAssoc(done, [p], Walk(l, i, j));
      done := done + [p];
    }
  }

  /** Once the walk stands on the end point, it has taken every step and stamps only there. */
  lemma WalkAtEnd(l: Line, i: nat, j: nat)
    requires i <= Dx(l) && j <= Dy(l)
    requires XAt(l, i) == l.x1 && YAt(l, j) == l.y1
    ensures i == Dx(l) && j == Dy(l)
    ensures Walk(l, i, j) == [(l.x1, l.y1)]
  {
  }

  /**
   * The step at the end of `drawLine`'s loop body: `e2 = 2 * err`, then a
   * step in x when `e2 > -dy` and a step in y when `e2 < dx`.
   */
  method BresenhamStep(ghost l: Line, ghost i: nat, ghost j: nat, x0: int, y0: int, err: int, dx: int, dy: int, sx: int, sy: int)
    returns (x: int, y: int, e: int, ghost i': nat, ghost j': nat)
    requires dx == Dx(l) && dy == Dy(l) && sx == Sx(l) && sy == Sy(l) && i <= dx && j <= dy
    requires x0 == XAt(l, i) && y0 == YAt(l, j) && err == Err(l, i, j)
    requires !(x0 == l.x1 && y0 == l.y1)
    ensures i' <= dx && j' <= dy
    ensures x == XAt(l, i') && y == YAt(l, j') && e == Err(l, i', j')
    ensures Walk(l, i, j) == [(x0, y0)] + Walk(l, i', j')
    ensures dx - i' + dy - j' < dx - i + dy - j
  {
    AtEndPoint(l, i, j);
    StepEffect(l, i, j);
    WalkAdvance(l, i, j);
    i', j' := NextI(l, i, j), NextJ(l, i, j);
    x, y, e := x0, y0, err;
    var e2 := 2 * err;
    if e2 > -dy {
      e := e - dy;
      x := x + sx;
    }
    if e2 < dx {
      e := e + dx;
      y := y + sy;
    }
  }

  /** After every step in x and in y, the walk stands on the end point. */
  lemma AtEndPoint(l: Line, i: nat, j: nat)
    requires i <= Dx(l) && j <= Dy(l)
    ensures i == Dx(l) && j == Dy(l) ==> XAt(l, i) == l.x1 && YAt(l, j) == l.y1
  {
  }


  // ---------------------------------------------------------------------
  // The tactical HUD grid
  // ---------------------------------------------------------------------

  const GridColour: Rgb := Rgb(148, 163, 184)
  const GridAlpha: real := 0.016
  const GridStepX: int := 80
  const GridStepY: int := 60

  /** The buffer once the grid columns left of xlim are blended in. */
  function Columns(s: seq<byte>, xlim: int): (t: seq<byte>)
    requires |s| == BufferSize
    ensures |t| == BufferSize
  {
    seq(|s|, j requires 0 <= j < |s| =>
      if PixelX(j) % GridStepX == 0 && PixelX(j) < xlim
      then BlendedByte(s[j], Channel(GridColour, j % 3), GridAlpha)
      else s[j])
  }

  /** The buffer once the grid rows above ylim are blended in. */
  function Rows(s: seq<byte>, ylim: int): (t: seq<byte>)
    requires |s| == BufferSize
    ensures |t| == BufferSize
  {
    seq(|s|, j requires 0 <= j < |s| =>
      if PixelY(j) % GridStepY == 0 && PixelY(j) < ylim
      then BlendedByte(s[j], Channel(GridColour, j % 3), GridAlpha)
      else s[j])
  }

  /** Filling grid column x, a multiple of 80, extends the blended columns by one. */
  lemma ColumnFilled(s: seq<byte>, x: int)
    requires |s| == BufferSize && 0 <= x && x % GridStepX == 0
    ensures Filled(Columns(s, x), Box(x, 0, x, H - 1), Flat(GridAlpha), GridColour) == Columns(s, x + GridStepX)
  {
    var a := Filled(Columns(s, x), Box(x, 0, x, H - 1), Flat(GridAlpha), GridColour);
    var b := Columns(s, x + GridStepX);
    forall j | 0 <= j < |s|
      ensures a[j] == b[j]
    {
      PixelOffset(j);
      var px := PixelX(j);
      if px % GridStepX == 0 && x <= px < x + GridStepX {
        assert px == x;
      }
    }
    assert a == b;
  }

  /** Filling grid row y, a multiple of 60, extends the blended rows by one. */
  lemma RowFilled(s: seq<byte>, y: int)
    requires |s| == BufferSize && 0 <= y && y % GridStepY == 0
    ensures Filled(Rows(s, y), Box(0, y, W - 1, y), Flat(GridAlpha), GridColour) == Rows(s, y + GridStepY)
  {
    var a := Filled(Rows(s, y), Box(0, y, W - 1, y), Flat(GridAlpha), GridColour);
    var b := Rows(s, y + GridStepY);
    forall j | 0 <= j < |s|
      ensures a[j] == b[j]
    {
      PixelOffset(j);
      var py := PixelY(j);
      if py % GridStepY == 0 && y <= py < y + GridStepY {
        assert py == y;
      }
    }
    assert a == b;
  }

  /** The first grid loop: a vertical line every 80 pixels. */
  method GridColumns(buf: array<byte>)
    requires buf.Length == BufferSize
    modifies buf
    ensures buf[..] == Columns(old(buf[..]), W)
  {
    ghost var s := buf[..];
    var x := 0;
    while x < W
      invariant 0 <= x <= W && x % GridStepX == 0
      invariant buf[..] == Columns(s, x)
    {
      ghost var box := Box(x, 0, x, H - 1);
      ghost var before := buf[..];
      SweptStart(before, box, Flat(GridAlpha), GridColour);
      for y := 0 to H
        invariant buf[..] == Swept(before, box, Flat(GridAlpha), GridColour, y, x)
      {
        SweptStep(before, box, Flat(GridAlpha), GridColour, y, x);
        BlendPixel(buf, x, y, GridColour.r, GridColour.g, GridColour.b, GridAlpha);
        SweptRowEnd(before, box, Flat(GridAlpha), GridColour, y, x + 1);
      }
      SweptEnd(before, box, Flat(GridAlpha), GridColour, H, x);
      ColumnFilled(s, x);
      x := x + GridStepX;
    }
  }

  /** The second grid loop: a horizontal line every 60 pixels. */
  method GridRows(buf: array<byte>)
    requires buf.Length == BufferSize
    modifies buf
    ensures buf[..] == Rows(old(buf[..]), H)
  {
    ghost var s := buf[..];
    var y := 0;
    while y < H
      invariant 0 <= y <= H && y % GridStepY == 0
      invariant buf[..] == Rows(s, y)
    {
      ghost var box := Box(0, y, W - 1, y);
      ghost var before := buf[..];
      SweptStart(before, box, Flat(GridAlpha), GridColour);
      for x := 0 to W
        invariant buf[..] == Swept(before, box, Flat(GridAlpha), GridColour, y, x)
      {
        SweptStep(before, box, Flat(GridAlpha), GridColour, y, x);
        BlendPixel(buf, x, y, GridColour.r, GridColour.g, GridColour.b, GridAlpha);
      }
      SweptRowEnd(before, box, Flat(GridAlpha), GridColour, y, W);
      SweptEnd(before, box, Flat(GridAlpha), GridColour, y + 1, 0);
      RowFilled(s, y);
      y := y + GridStepY;
    }
  }

  /** The tactical HUD grid: columns first, then rows. */
  method HudGrid(buf: array<byte>)
    requires buf.Length == BufferSize
    modifies buf
    ensures buf[..] == Rows(Columns(old(buf[..]), W), H)
  {
    GridColumns(buf);
    GridRows(buf);
  }

  /**
   * The grid is a faint overlay: bytes off the grid lines keep their
   * value, and every byte on them moves towards the grid colour without
   * passing it (twice where a row crosses a column).
   */
  lemma HudGridOverlay(s: seq<byte>, j: int)
    requires |s| == BufferSize && 0 <= j < |s|
    ensures PixelX(j) % GridStepX != 0 && PixelY(j) % GridStepY != 0 ==> Rows(Columns(s, W), H)[j] == s[j]
    ensures var g := Channel(GridColour, j % 3);
      var v := Rows(Columns(s, W), H)[j];
      Between(v, s[j], g)
  {
    PixelOffset(j);
    var g := Channel(GridColour, j % 3);
    var v1 := Columns(s, W)[j];
    BlendConvex(s[j], g, GridAlpha);
    BlendConvex(v1, g, GridAlpha);
  }

  // ---------------------------------------------------------------------
  // Frames as binary PPM files
  // ---------------------------------------------------------------------

  const Fps: int := 15
  const Seconds: int := 3
  /** The number of frames rendered. */
  const Frames: int := Fps * Seconds

  /** `Buffer.alloc(W * H * 3)`: a zero-filled frame. */
  method NewFrame() returns (buf: array<byte>)
    ensures fresh(buf) && buf.Length == BufferSize
    ensures forall j :: 0 <= j < buf.Length ==> buf[j] == 0
  {
    buf := new byte[BufferSize](_ => 0);
  }

  /** `Buffer.from(s, 'ascii')`: one byte per character, its low eight bits. */
  function Ascii(s: string): (b: seq<byte>)
    ensures |b| == |s|
    ensures forall i :: 0 <= i < |s| && (s[i] as int) < 128 ==> b[i] == s[i] as int
  {
    seq(|s|, i requires 0 <= i < |s| => ToUint8(s[i] as int))
  }

  /** The P6 header: magic number, width and height, maximum channel value. */
  function PpmHeader(): seq<byte>
  {
    Ascii("P6\n" + NatToString(W) + " " + NatToString(H) + "\n255\n")
  }

  /** The header is the 16 bytes of `P6\n1200 300\n255\n`. */
  lemma PpmHeaderBytes()
    ensures PpmHeader() == [80, 54, 10] + [49, 50, 48, 48] + [32] + [51, 48, 48] + [10, 50, 53, 53, 10]
  {
    WidthDigits();
    HeightDigits();
    var p, w, sp, h, tail := "P6\n", "1200", " ", "300", "\n255\n";
    assert PpmHeader() == Ascii(p + w + sp + h + tail);
    assert Ascii(p + w + sp + h + tail) == Ascii(p) + Ascii(w) + Ascii(sp) + Ascii(h) + Ascii(tail) by {
      AsciiAppend(p, w);
      AsciiAppend(p + w, sp);
      AsciiAppend(p + w + sp, h);
      AsciiAppend(p + w + sp + h, tail);
    }
    assert Ascii(p) == [80, 54, 10];
    assert Ascii(w) == [49, 50, 48, 48];
    assert Ascii(sp) == [32];
    assert Ascii(h) == [51, 48, 48];
    assert Ascii(tail) == [10, 50, 53, 53, 10];
  }

  lemma WidthDigits()
    ensures NatToString(W) == "1200"
  {
    assert NatToString(12) == "12";
    assert NatToString(120) == "120";
  }

  lemma HeightDigits()
    ensures NatToString(H) == "300"
  {
    assert NatToString(30) == "30";
  }

  lemma AsciiAppend(a: string, b: string)
    ensures Ascii(a + b) == Ascii(a) + Ascii(b)
  {
  }

  /** The bytes written to a frame file; a frame's bytes read back as that frame. */
  function PpmFile(buf: seq<byte>): (bytes: seq<byte>)
    ensures |bytes| == |PpmHeader()| + |buf|
    ensures |buf| == BufferSize ==> ParsePpm(bytes) == Some(buf)
  {
    var bytes := PpmHeader() + buf;
    assert bytes[..|PpmHeader()|] == PpmHeader() && bytes[|PpmHeader()|..] == buf;
    bytes
  }

  /** Reading a frame file back: check the header and the pixel count. */
  function ParsePpm(bytes: seq<byte>): (r: Option<seq<byte>>)
    ensures r.Some? ==> |r.value| == BufferSize
  {
    var n := |PpmHeader()|;
    if |bytes| == n + BufferSize && bytes[..n] == PpmHeader() then Some(bytes[n..]) else None
  }

  /** A frame file is the header followed by exactly W·H·3 pixel bytes, and reads back as the frame. */
  lemma PpmRoundTrip(buf: seq<byte>)
    requires |buf| == BufferSize
    ensures |PpmFile(buf)| == 16 + W * H * 3
    ensures ParsePpm(PpmFile(buf)) == Some(buf)
  {
    PpmHeaderBytes();
    assert PpmFile(buf)[..16] == PpmHeader();
    assert PpmFile(buf)[16..] == buf;
  }

  /** Only frame files parse. */
  lemma ParsePpmOnlyFrames(bytes: seq<byte>)
    requires ParsePpm(bytes).Some?
    ensures bytes == PpmFile(ParsePpm(bytes).value)
  {
    var n := |PpmHeader()|;
    assert bytes == bytes[..n] + bytes[n..];
  }

  /**
   * `frame${String(f).padStart(3, '0')}.ppm`: the frame number, at least
   * three digits, between the prefix `frame` and the suffix `.ppm`.
   */
  function FrameFileName(f: nat): (name: string)
    ensures |name| >= 12
    ensures name[..5] == "frame" && name[|name| - 4..] == ".ppm"
    ensures forall i :: 5 <= i < |name| - 4 ==> IsDigit(name[i])
  {
    var digits := PadStart(NatToString(f), 3, '0');
    var name := "frame" + digits + ".ppm";
    assert name[..5] == "frame" && name[5..|name| - 4] == digits && name[|name| - 4..] == ".ppm";
    name
  }

  /** A frame number below 1000 prints as at most three digits. */
  lemma AtMostThreeDigits(f: nat)
    requires f < 1000
    ensures |NatToString(f)| <= 3
  {
    if f >= 100 {
      assert |NatToString(f / 10 / 10)| == 1;
      assert |NatToString(f / 10)| == 2;
    } else if f >= 10 {
      assert |NatToString(f / 10)| == 1;
    }
  }

  /** Below 1000, the name carries f as exactly three digits, so names of distinct frames differ. */
  lemma FrameFileNameDigits(f: nat)
    requires f < 1000
    ensures |FrameFileName(f)| == 12
    ensures FrameFileName(f)[..5] == "frame" && FrameFileName(f)[8..] == ".ppm"
    ensures forall i :: 5 <= i < 8 ==> IsDigit(FrameFileName(f)[i])
    ensures ParseNat(FrameFileName(f)[5..8]) == f
  {
    var d := NatToString(f);
    AtMostThreeDigits(f);
    var padded := PadStart(d, 3, '0');
    var z := padded[..3 - |d|];
    assert padded == z + d;
    assert forall i :: 0 <= i < 3 ==> IsDigit(padded[i]) by {
      forall i | 0 <= i < 3
        ensures IsDigit(padded[i])
      {
        if i >= 3 - |d| {
          assert padded[i] == d[i - (3 - |d|)];
        }
      }
    }
    ParseNatLeadingZeros(z, d);
    ParseNatToString(f);
    FileNameLayout(padded);
  }

  lemma FileNameLayout(padded: string)
    requires |padded| == 3
    ensures var name := "frame" + padded + ".ppm";
      |name| == 12 && name[..5] == "frame" && name[5..8] == padded && name[8..] == ".ppm"
      && forall i :: 5 <= i < 8 ==> name[i] == padded[i - 5]
  {
  }

  /**
   * The `FRAMES` files one run writes are named by ffmpeg's `frame%03d.ppm`
   * input pattern (three digits that read back as the frame number) and no
   * two of them share a name, so no frame overwrites another.
   */
  lemma RunFrameNames(f: nat, g: nat)
    requires f < Frames && g < Frames
    ensures |FrameFileName(f)| == 12 && ParseNat(FrameFileName(f)[5..8]) == f
    ensures f != g ==> FrameFileName(f) != FrameFileName(g)
  {
    FrameFileNameDigits(f);
    if f != g {
      FrameFileNamesDistinct(f, g);
    }
  }

  /** Distinct frames below 1000 get distinct file names. */
  lemma FrameFileNamesDistinct(f: nat, g: nat)
    requires f < 1000 && g < 1000 && f != g
    ensures FrameFileName(f) != FrameFileName(g)
  {
    FrameFileNameDigits(f);
    FrameFileNameDigits(g);
  }
}
