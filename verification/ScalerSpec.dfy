/** What the scaler of scaler.c computes: a four-tap cubic filter along each row and a two-tap
    linear filter between rows, in 8.8 fixed point, with no cache in between. */
module ScalerSpec {
  import opened Arith
  import opened Bytes

  datatype Taps = Taps(c0: int, c1: int, c2: int, c3: int)

  /** cubic_coeff. */
  function CubicCoeff(row: nat): Taps
    requires row < 32
  {
    match row
    case 0 => Taps(0, 256, 0, 0)
    case 1 => Taps(-3, 255, 4, 0)
    case 2 => Taps(-6, 254, 10, 0)
    case 3 => Taps(-9, 251, 16, 0)
    case 4 => Taps(-11, 247, 23, -1)
    case 5 => Taps(-13, 242, 31, -2)
    case 6 => Taps(-15, 236, 39, -3)
    case 7 => Taps(-16, 229, 48, -4)
    case 8 => Taps(-17, 222, 58, -5)
    case 9 => Taps(-18, 214, 68, -6)
    case 10 => Taps(-18, 205, 78, -8)
    case 11 => Taps(-18, 196, 89, -9)
    case 12 => Taps(-18, 186, 100, -10)
    case 13 => Taps(-17, 176, 111, -12)
    case 14 => Taps(-17, 166, 122, -13)
    case 15 => Taps(-16, 155, 133, -14)
    case 16 => Taps(-15, 144, 144, -15)
    case 17 => Taps(-14, 133, 155, -16)
    case 18 => Taps(-13, 122, 166, -17)
    case 19 => Taps(-12, 111, 176, -17)
    case 20 => Taps(-10, 100, 186, -18)
    case 21 => Taps(-9, 89, 196, -18)
    case 22 => Taps(-8, 78, 205, -18)
    case 23 => Taps(-6, 68, 214, -18)
    case 24 => Taps(-5, 58, 222, -17)
    case 25 => Taps(-4, 48, 229, -16)
    case 26 => Taps(-3, 39, 236, -15)
    case 27 => Taps(-2, 31, 242, -13)
    case 28 => Taps(-1, 23, 247, -11)
    case 29 => Taps(0, 16, 251, -9)
    case 30 => Taps(0, 10, 254, -6)
    case _ => Taps(0, 4, 255, -3)
  }

  /** SC_HOR_FILTER_COEFF0: every other row of the table. */
  function HorCoeff(i: nat): Taps
    requires i < 16
  {
    CubicCoeff(2 * i)
  }

  /** SC_VER_FILTER_COEFF[i] is (VerWeight(i), 256 - VerWeight(i)). */
  function VerWeight(i: nat): nat
    requires i < 32
  {
    (32 - i) * 8
  }

  function Clip(r: int): byte {
    if r > 255 then 255 else if r > 0 then r else 0
  }

  /** The pixel at p, the edge pixels repeating beyond the ends. */
  function Pixel(line: seq<byte>, p: int): byte
    requires line != []
  {
    if p < 0 then line[0] else if p >= |line| then line[|line| - 1] else line[p]
  }

  /** The four pixels around `base`, weighted. */
  function FourTaps(line: seq<byte>, base: int, c: Taps): int
    requires line != []
  {
    Pixel(line, base - 1) * c.c0 + Pixel(line, base) * c.c1 + Pixel(line, base + 1) * c.c2 + Pixel(line, base + 2) * c.c3
  }

  /** One horizontally filtered pixel at position `pos`, in 256ths of a source pixel. */
  function HorPixel(line: seq<byte>, pos: int): byte
    requires line != []
  {
    Clip((FourTaps(line, pos / 256, HorCoeff(pos % 256 / 16)) + 128) / 256)
  }

  /** One pixel between two rows, `phase` 256ths of the way from a to b. */
  function VerPixel(a: byte, b: byte, phase: nat): byte
    requires phase < 256
  {
    var w := VerWeight(phase / 8);
    Clip((a * w + b * (256 - w) + 128) / 256)
  }

  /** One plane of the source and how it is to be scaled. */
  datatype Plane = Plane(
    base: nat, stride: nat, width: nat, height: nat,          // where its rows are
    dstWidth: nat,
    hratio: nat, hphase: nat, vratio: nat, vphase: nat)       // in 256ths of a pixel

  function RowStart(g: Plane, r: nat): nat {
    MulMonotone(0, r, g.stride);
    g.base + r * g.stride
  }

  ghost predicate Fits(src: seq<byte>, g: Plane) {
    && 0 < g.width && 0 < g.height
    && forall r: nat :: r < g.height ==> RowStart(g, r) + g.width <= |src|
  }

  function Line(src: seq<byte>, g: Plane, r: nat): (line: seq<byte>)
    requires 0 < g.width && RowStart(g, r) + g.width <= |src|
    ensures |line| == g.width
  {
    src[RowStart(g, r)..RowStart(g, r) + g.width]
  }

  /** f(0), ..., f(n - 1). */
  function Tabulate(n: nat, f: nat -> byte): (r: seq<byte>)
    ensures |r| == n
  {
    if n == 0 then [] else Tabulate(n - 1, f) + [f(n - 1)]
  }

  lemma {:induction false} TabulateAt(n: nat, f: nat -> byte, j: nat)
    requires j < n
    ensures Tabulate(n, f)[j] == f(j)
  {
    if j == n - 1 {
    } else {
      TabulateAt(n - 1, f, j);
    }
  }

  /** Output pixel j of a row, as a function of j. */
  function RowFilter(line: seq<byte>, ratio: nat, phase: nat): nat -> byte
    requires line != []
  {
    (j: nat) => HorPixel(line, j * ratio + phase)
  }

  /** A row, horizontally filtered to `n` pixels. */
  function FilteredRow(line: seq<byte>, n: nat, ratio: nat, phase: nat): (r: seq<byte>)
    requires line != []
    ensures |r| == n
  {
    Tabulate(n, RowFilter(line, ratio, phase))
  }

  function HorLine(src: seq<byte>, g: Plane, r: nat): (line: seq<byte>)
    requires 0 < g.width && RowStart(g, r) + g.width <= |src|
    ensures |line| == g.dstWidth
  {
    FilteredRow(Line(src, g, r), g.dstWidth, g.hratio, g.hphase)
  }

  /** The position of output row i, in 256ths of a source row. */
  function VerPos(g: Plane, i: nat): nat {
    MulMonotone(0, i, g.vratio);
    i * g.vratio + g.vphase
  }

  /** The source rows output row i lies between. */
  function BaseLine(g: Plane, i: nat): nat
    requires 0 < g.height
  {
    var l := VerPos(g, i) / 256;
    if l >= g.height then g.height - 1 else l
  }

  function NextLine(g: Plane, i: nat): nat
    requires 0 < g.height
  {
    var l := BaseLine(g, i) + 1;
    if l >= g.height then g.height - 1 else l
  }

  /** Two filtered rows, blended. */
  function Blend(a: seq<byte>, b: seq<byte>, phase: nat): (r: seq<byte>)
    requires |a| == |b| && phase < 256
    ensures |r| == |a|
  {
    if a == [] then []
    else
      var n := |a| - 1;
      Blend(a[..n], b[..n], phase) + [VerPixel(a[n], b[n], phase)]
  }

  lemma {:induction false} BlendAt(a: seq<byte>, b: seq<byte>, phase: nat, j: nat)
    requires |a| == |b| && phase < 256 && j < |a|
    ensures Blend(a, b, phase)[j] == VerPixel(a[j], b[j], phase)
  {
    if j == |a| - 1 {
    } else {
      BlendAt(a[..|a| - 1], b[..|a| - 1], phase, j);
    }
  }

  /** Output row i of the two-pass filter. */
  ghost function OutLine(src: seq<byte>, g: Plane, i: nat): (line: seq<byte>)
    requires Fits(src, g)
    ensures |line| == g.dstWidth
  {
    Blend(HorLine(src, g, BaseLine(g, i)), HorLine(src, g, NextLine(g, i)), VerPos(g, i) % 256)
  }

  lemma WeightedMean(a: nat, b: nat, lo: nat, hi: nat, w: nat)
    requires w <= 256 && lo <= a <= hi && lo <= b <= hi
    ensures lo * 256 <= a * w + b * (256 - w) <= hi * 256
  {
    MulMonotone(lo, a, w);
    MulMonotone(lo, b, 256 - w);
    MulMonotone(a, hi, w);
    MulMonotone(b, hi, 256 - w);
    assert lo * w + lo * (256 - w) == lo * 256 && hi * w + hi * (256 - w) == hi * 256;
  }

  // ---- Facts about the filters ---------------------------------------------------------

  /** Vertical weights add up to one: the result lies between the two pixels. */
  lemma VerPixelIsBetween(a: byte, b: byte, phase: nat)
    requires phase < 256
    ensures (if a <= b then a else b) <= VerPixel(a, b, phase) <= (if a <= b then b else a)
    ensures phase < 8 ==> VerPixel(a, b, phase) == a
  {
    var w := VerWeight(phase / 8);
    var lo, hi := if a <= b then a else b, if a <= b then b else a;
    WeightedMean(a, b, lo, hi, w);
  }

  /** The rows of the cubic table that are used add up to 256, 257 or 258. */
  lemma HorCoeffSum(i: nat)
    requires i < 16
    ensures var c := HorCoeff(i); 256 <= c.c0 + c.c1 + c.c2 + c.c3 <= 258
  {
  }

  lemma WeightedSum(v: nat, c: Taps)
    requires 256 <= c.c0 + c.c1 + c.c2 + c.c3 <= 258
    ensures v * 256 <= v * c.c0 + v * c.c1 + v * c.c2 + v * c.c3 <= v * 258
  {
    var sum := c.c0 + c.c1 + c.c2 + c.c3;
    assert v * c.c0 + v * c.c1 + v * c.c2 + v * c.c3 == sum * v;
    MulMonotone(256, sum, v);
    MulMonotone(sum, 258, v);
  }

  predicate Flat(line: seq<byte>, v: byte) {
    forall k :: 0 <= k < |line| ==> line[k] == v
  }

  /** A constant row can only become brighter, and by at most two. */
  lemma FlatRowBrightensByAtMostTwo(line: seq<byte>, v: byte, pos: int)
    requires line != [] && Flat(line, v)
    ensures v <= HorPixel(line, pos) <= (if v + 2 <= 255 then v + 2 else 255)
  {
    var c := HorCoeff(pos % 256 / 16);
    HorCoeffSum(pos % 256 / 16);
    WeightedSum(v, c);
  }

  /** Less than a sixteenth behind a source pixel the horizontal filter returns that pixel. */
  lemma NearPixelIsExact(line: seq<byte>, pos: nat)
    requires pos / 256 < |line| && pos % 256 < 16
    ensures HorPixel(line, pos) == line[pos / 256]
  {
    assert HorCoeff(pos % 256 / 16) == Taps(0, 256, 0, 0);
  }

  lemma OnPixelIsExact(line: seq<byte>, p: nat)
    requires p < |line|
    ensures HorPixel(line, p * 256) == line[p]
  {
  }

  /** With a whole ratio every output pixel falls on a source pixel. */
  lemma WholeRatioPositions(g: Plane, kw: nat, kh: nat, i: nat, j: nat)
    requires g.hratio == 256 * kw && g.vratio == 256 * kh && g.hphase == g.vphase == 0
    ensures VerPos(g, i) == (i * kh) * 256 && j * g.hratio + g.hphase == (j * kw) * 256
  {
  }

  lemma OnLineIsExact(src: seq<byte>, g: Plane, r: nat, i: nat, p: nat, j: nat)
    requires Fits(src, g) && VerPos(g, i) == r * 256 && j * g.hratio + g.hphase == p * 256
    requires r < g.height && p < g.width && j < g.dstWidth
    ensures OutLine(src, g, i)[j] == src[RowStart(g, r) + p]
  {
    DivUnique(r * 256, 256, r, 0);
    var last, cur := HorLine(src, g, r), HorLine(src, g, NextLine(g, i));
    TabulateAt(g.dstWidth, RowFilter(Line(src, g, r), g.hratio, g.hphase), j);
    OnPixelIsExact(Line(src, g, r), p);
    BlendAt(last, cur, 0, j);
    VerPixelIsBetween(last[j], cur[j], 0);
  }

  /** Scaling by whole numbers is decimation. */
  lemma WholeRatioDecimates(src: seq<byte>, g: Plane, kw: nat, kh: nat, i: nat, j: nat)
    requires Fits(src, g) && g.hratio == 256 * kw && g.vratio == 256 * kh && g.hphase == g.vphase == 0
    requires j < g.dstWidth && 0 <= j * kw < g.width && 0 <= i * kh < g.height
    ensures OutLine(src, g, i)[j] == src[RowStart(g, i * kh) + j * kw]
  {
    WholeRatioPositions(g, kw, kh, i, j);
    OnLineIsExact(src, g, i * kh, i, j * kw, j);
  }

  /** The ratio scaler() computes for an exact multiple. */
  lemma ExactRatio(k: nat, dst: nat)
    requires 0 < dst
    ensures (k * dst * 256 + dst / 2) / dst == 256 * k
  {
    DivUnique(k * dst * 256 + dst / 2, dst, 256 * k, dst / 2);
  }

  // ---- Laws that do not mention the filters' parts -----------------------------------------------

  /** The rows of the cubic table mirror each other. */
  lemma CubicRowsMirror(i: nat)
    requires 1 <= i < 32
    ensures var (r, m) := (CubicCoeff(i), CubicCoeff(32 - i)); m == Taps(r.c3, r.c2, r.c1, r.c0)
  {
  }

  /** The centre of gravity of the taps used for phase i is i sixteenths of the way to the next pixel, or
      less than one hundredth of a pixel further. */
  lemma TapsCentred(i: nat)
    requires i < 16
    ensures var c := HorCoeff(i); 16 * i <= c.c2 + 2 * c.c3 - c.c0 <= 16 * i + 2
  {
  }

  lemma RampSum(v: int, d: int, c: Taps)
    ensures (v - d) * c.c0 + v * c.c1 + (v + d) * c.c2 + (v + 2 * d) * c.c3
         == v * (c.c0 + c.c1 + c.c2 + c.c3) + d * (c.c2 + 2 * c.c3 - c.c0)
  {
  }

  lemma RampTaps(line: seq<byte>, b: nat, c: Taps, d: int)
    requires 1 <= b && b + 2 < |line|
    requires var v: int := line[b]; line[b - 1] == v - d && line[b + 1] == v + d && line[b + 2] == v + 2 * d
    ensures FourTaps(line, b, c) == line[b] * (c.c0 + c.c1 + c.c2 + c.c3) + d * (c.c2 + 2 * c.c3 - c.c0)
  {
    RampSum(line[b], d, c);
  }

  lemma Within(x: int, lo: int, hi: int, d: int)
    requires lo <= x <= hi
    ensures 0 <= d ==> lo * d <= x * d <= hi * d
    ensures d <= 0 ==> hi * d <= x * d <= lo * d
  {
    if 0 <= d {
      MulMonotone(x, hi, d);
      MulMonotone(lo, x, d);
    } else {
      MulMonotone(x, hi, -d);
      MulMonotone(lo, x, -d);
    }
  }

  lemma RampBounds(v: nat, d: int, t: int, sum: int, m: int)
    requires 256 <= sum <= 258 && t <= m <= t + 2
    ensures var e := v * sum + d * m - (256 * v + t * d);
            (if d < 0 then 2 * d else 0) <= e <= 2 * v + (if d < 0 then 0 else 2 * d)
  {
    Within(sum, 256, 258, v);
    Within(m, t, t + 2, d);
    assert (t + 2) * d == t * d + 2 * d;
  }

  /** A point between two bytes. */
  lemma BetweenBytes(v: byte, u: byte, t: nat)
    requires t <= 256
    ensures var d: int := u - v; 0 <= 256 * v + t * d <= 255 * 256
  {
    WeightedMean(v, u, 0, 255, 256 - t);
    assert 256 * v + t * (u - v) == v * (256 - t) + u * t;
  }

  lemma ClippedNear(f: int, t: int)
    requires 0 <= t <= 255 * 256
    ensures (if f < t then f else t) - 128 <= 256 * Clip((f + 128) / 256) <= (if f > t then f else t) + 128
  {
  }

  lemma HorPixelOn(line: seq<byte>, b: nat, q: nat, rest: nat, c: Taps)
    requires line != [] && q < 16 && rest < 16 && c == HorCoeff(q)
    ensures HorPixel(line, b * 256 + q * 16 + rest) == Clip((FourTaps(line, b, c) + 128) / 256)
  {
    DivUnique(b * 256 + q * 16 + rest, 256, b, q * 16 + rest);
    DivUnique(q * 16 + rest, 16, q, rest);
  }

  predicate OnRamp(line: seq<byte>, b: nat, d: int) {
    && 1 <= b && b + 2 < |line|
    && var v: int := line[b]; line[b - 1] == v - d && line[b + 1] == v + d && line[b + 2] == v + 2 * d
  }

  lemma RampWithTaps(line: seq<byte>, b: nat, t: nat, d: int, c: Taps)
    requires OnRamp(line, b, d) && t <= 256
    requires 256 <= c.c0 + c.c1 + c.c2 + c.c3 <= 258 && t <= c.c2 + 2 * c.c3 - c.c0 <= t + 2
    ensures var (v: int, p: int) := (line[b], Clip((FourTaps(line, b, c) + 128) / 256));
            && 256 * v + t * d + (if d < 0 then 2 * d else 0) - 128 <= 256 * p
            && 256 * p <= 256 * v + t * d + 2 * v + (if d < 0 then 0 else 2 * d) + 128
  {
    RampTaps(line, b, c, d);
    RampBounds(line[b], d, t, c.c0 + c.c1 + c.c2 + c.c3, c.c2 + 2 * c.c3 - c.c0);
    BetweenBytes(line[b], line[b + 1], t);
    ClippedNear(FourTaps(line, b, c), 256 * line[b] + t * d);
  }

  /** On a ramp of slope d, away from the ends, the horizontal filter gives the point of the ramp at its
      position (rounded down to sixteenths), up to rounding and the brightening by two 256ths. */
  lemma RampIsFollowed(line: seq<byte>, b: nat, q: nat, rest: nat, d: int)
    requires OnRamp(line, b, d) && q < 16 && rest < 16
    ensures var (v: int, p: int) := (line[b], HorPixel(line, b * 256 + q * 16 + rest));
            && 256 * v + 16 * q * d + (if d < 0 then 2 * d else 0) - 128 <= 256 * p
            && 256 * p <= 256 * v + 16 * q * d + 2 * v + (if d < 0 then 0 else 2 * d) + 128
  {
    var c := HorCoeff(q);
    HorCoeffSum(q);
    TapsCentred(q);
    HorPixelOn(line, b, q, rest, c);
    RampWithTaps(line, b, 16 * q, d, c);
  }

  /** The line with one more pixel before it and two behind it. */
  function Padded(line: seq<byte>): (r: seq<byte>)
    requires line != []
    ensures r != []
  {
    [line[0]] + line + [line[|line| - 1], line[|line| - 1]]
  }

  lemma PaddedPixel(line: seq<byte>, p: int)
    requires line != [] && -1 <= p < |line| + 2
    ensures Pixel(line, p) == Padded(line)[p + 1] == Pixel(Padded(line), p + 1)
  {
  }

  /** Beyond its ends a line goes on with its first and its last pixel. */
  lemma EndsRepeat(line: seq<byte>, pos: nat)
    requires line != [] && pos / 256 < |line|
    ensures HorPixel(line, pos) == HorPixel(Padded(line), pos + 256)
  {
    var b := pos / 256;
    DivUnique(pos + 256, 256, b + 1, pos % 256);
    PaddedPixel(line, b - 1);
    PaddedPixel(line, b);
    PaddedPixel(line, b + 1);
    PaddedPixel(line, b + 2);
  }

  /** From the end of a line on there is only its last pixel. */
  lemma PastTheEnd(line: seq<byte>, pos: nat)
    requires line != [] && |line| + 1 <= pos / 256
    ensures var v: int := line[|line| - 1]; v <= HorPixel(line, pos) <= v + 2
  {
    var c := HorCoeff(pos % 256 / 16);
    HorCoeffSum(pos % 256 / 16);
    WeightedSum(line[|line| - 1], c);
  }

  /** The vertical filter is linear interpolation in steps of 1/32, rounded. */
  lemma VerPixelIsLinear(a: byte, b: byte, phase: nat)
    requires phase < 256
    ensures var (a', b', p: int, n) := (a as int, b as int, VerPixel(a, b, phase), phase / 8);
            -128 <= 256 * p - (a' * (256 - 8 * n) + b' * (8 * n)) <= 128
  {
    var n := phase / 8;
    WeightedMean(a, b, if a <= b then a else b, if a <= b then b else a, 256 - 8 * n);
    assert VerWeight(n) == 256 - 8 * n;
  }

  lemma HorLineAt(src: seq<byte>, g: Plane, r: nat, j: nat)
    requires Fits(src, g) && r < g.height && j < g.dstWidth
    ensures 0 <= g.base + r * g.stride <= g.base + r * g.stride + g.width <= |src| && 0 <= j * g.hratio + g.hphase
    ensures HorLine(src, g, r)[j]
         == HorPixel(src[g.base + r * g.stride..g.base + r * g.stride + g.width], j * g.hratio + g.hphase)
  {
    MulMonotone(0, j, g.hratio);
    assert RowStart(g, r) + g.width <= |src|;
    TabulateAt(g.dstWidth, RowFilter(Line(src, g, r), g.hratio, g.hphase), j);
  }

  lemma RowsBetween(g: Plane, i: nat)
    requires 0 < g.height
    ensures 0 <= i * g.vratio + g.vphase == VerPos(g, i)
    ensures var y := (i * g.vratio + g.vphase) / 256;
            && BaseLine(g, i) == (if y < g.height then y else g.height - 1)
            && NextLine(g, i) == (if y + 1 < g.height then y + 1 else g.height - 1)
  {
  }

  /** An output pixel of the two-pass filter, spelled out: which rows, which positions, which phase. */
  lemma OutPixel(src: seq<byte>, g: Plane, i: nat, j: nat, a: nat, b: nat)
    requires Fits(src, g) && j < g.dstWidth && 0 <= i * g.vratio
    requires var y := (i * g.vratio + g.vphase) / 256;
             a == (if y < g.height then y else g.height - 1) && b == (if y + 1 < g.height then y + 1 else g.height - 1)
    ensures 0 <= g.base + a * g.stride <= g.base + a * g.stride + g.width <= |src| && 0 <= j * g.hratio + g.hphase
    ensures 0 <= g.base + b * g.stride <= g.base + b * g.stride + g.width <= |src|
    ensures OutLine(src, g, i)[j]
         == VerPixel(HorPixel(src[g.base + a * g.stride..g.base + a * g.stride + g.width], j * g.hratio + g.hphase),
                     HorPixel(src[g.base + b * g.stride..g.base + b * g.stride + g.width], j * g.hratio + g.hphase),
                     (i * g.vratio + g.vphase) % 256)
  {
    RowsBetween(g, i);
    HorLineAt(src, g, a, j);
    HorLineAt(src, g, b, j);
    BlendAt(HorLine(src, g, a), HorLine(src, g, b), VerPos(g, i) % 256, j);
  }
}
