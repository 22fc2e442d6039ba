/** scaler.c: the scaler with its cache of two filtered rows. */
module Scaler {
  import opened Arith
  import opened Bytes
  import opened ScalerSpec

  /** One pixel of SC_hor_filter. */
  method FilterPixel(line: seq<byte>, pos: int) returns (v: byte)
    requires line != []
    ensures v == HorPixel(line, pos)
    ensures var first: int := line[0]; Flat(line, line[0]) ==> first <= v <= first + 2
    ensures 0 <= pos < 256 * |line| && pos % 256 < 16 ==> v == line[pos / 256]
  {
    if Flat(line, line[0]) {
      FlatRowBrightensByAtMostTwo(line, line[0], pos);
    }
    if 0 <= pos < 256 * |line| && pos % 256 < 16 {
      NearPixelIsExact(line, pos);
    }
    var basePixel := pos / 256;
    var hphase := pos - basePixel * 256;
    v := Clip((FourTaps(line, basePixel, HorCoeff(hphase / 16)) + 128) / 256);
  }

  /** The loop of SC_hor_filter, with two spare bytes on either side. */
  method FilterPixels(td: array<byte>, line: seq<byte>, dstWidth: nat, ratio: nat, phase: nat)
    requires line != [] && td.Length == dstWidth + 4
    modifies td
    ensures td[2..dstWidth + 2] == FilteredRow(line, dstWidth, ratio, phase)
  {
    var j := 0;
    while j < dstWidth
      invariant j <= dstWidth
      invariant td[2..j + 2] == FilteredRow(line, j, ratio, phase)
    {
      var v := FilterPixel(line, j * ratio + phase);
      td[j + 2] := v;
      j := j + 1;
      assert td[2..j + 2] == td[2..j + 1] + [v];
    }
  }

  /** SC_hor_filter: filters a source row into dst[at..]. */
  method HorFilter(dst: array<byte>, at: nat, line: seq<byte>, dstWidth: nat, ratio: nat, phase: nat)
    requires line != [] && at + dstWidth <= dst.Length
    modifies dst
    ensures dst[at..at + dstWidth] == FilteredRow(line, dstWidth, ratio, phase)
    ensures forall p :: 0 <= p < dst.Length && !(at <= p < at + dstWidth) ==> dst[p] == old(dst[p])
  {
    var td := new byte[dstWidth + 4];
    FilterPixels(td, line, dstWidth, ratio, phase);
    ghost var filtered := td[2..dstWidth + 2];
    td[1] := td[2];
    td[0] := td[1];
    td[3 + dstWidth] := td[1 + dstWidth];
    td[2 + dstWidth] := td[1 + dstWidth];
    assert td[2..dstWidth + 2] == filtered;
    Memcpy(dst, at, td[..], 2, dstWidth);
    assert dst[at..at + dstWidth] == td[2..dstWidth + 2];
  }

  predicate Uniform(rows: seq<seq<byte>>, width: nat) {
    forall r :: 0 <= r < |rows| ==> |rows[r]| == width
  }

  /** All rows of a plane, horizontally filtered. */
  ghost function FilteredRows(src: seq<byte>, g: Plane): (rows: seq<seq<byte>>)
    requires Fits(src, g)
    ensures |rows| == g.height && forall r :: 0 <= r < g.height ==> rows[r] == HorLine(src, g, r)
    ensures Uniform(rows, g.dstWidth)
  {
    seq(g.height, r requires 0 <= r < g.height => HorLine(src, g, r))
  }

  /** buf[at..] holds row r. */
  predicate HoldsRow(buf: seq<byte>, at: nat, r: int, rows: seq<seq<byte>>) {
    0 <= r < |rows| && at + |rows[r]| <= |buf| && buf[at..at + |rows[r]|] == rows[r]
  }

  /** line_num[0] and line_num[1] say what the two halves of scline_buf hold; -1 is nothing. */
  predicate CacheRight(buf: seq<byte>, half: nat, n0: int, n1: int, rows: seq<seq<byte>>) {
    && (n0 == -1 || HoldsRow(buf, 0, n0, rows))
    && (n1 == -1 || HoldsRow(buf, half, n1, rows))
  }

  /** Filling one half of the line buffer leaves the other half, and the row `kept` there, alone. */
  method FillLine(buf: array<byte>, half: nat, at: nat, src: seq<byte>, g: Plane, r: nat,
                  ghost kept: int, ghost rows: seq<seq<byte>>)
    requires Fits(src, g) && rows == FilteredRows(src, g) && r < g.height
    requires g.dstWidth <= half && buf.Length == 2 * half && (at == 0 || at == half)
    requires kept == -1 || HoldsRow(buf[..], half - at, kept, rows)
    modifies buf
    ensures HoldsRow(buf[..], at, r, rows)
    ensures kept == -1 || HoldsRow(buf[..], half - at, kept, rows)
  {
    HorFilter(buf, at, Line(src, g, r), g.dstWidth, g.hratio, g.hphase);
  }

  /** The cache look-up of one output row: afterwards lastline and curline hold the two rows that
      are asked for, and the cache is still right about itself. */
  method CacheLines(buf: array<byte>, half: nat, n0: int, n1: int, src: seq<byte>, g: Plane,
                    baseLine: nat, nextLine: nat, ghost rows: seq<seq<byte>>)
    returns (num0: int, num1: int, last: nat, cur: nat)
    requires Fits(src, g) && rows == FilteredRows(src, g) && baseLine < g.height && nextLine < g.height
    requires g.dstWidth <= half && buf.Length == 2 * half
    requires CacheRight(buf[..], half, n0, n1, rows)
    modifies buf
    ensures CacheRight(buf[..], half, num0, num1, rows)
    ensures HoldsRow(buf[..], last, baseLine, rows) && HoldsRow(buf[..], cur, nextLine, rows)
  {
    num0, num1 := n0, n1;
    if baseLine == num0 {
      last := 0;
    } else if baseLine == num1 {
      last := half;
    } else {
      last := 0;
      num0 := baseLine;
      FillLine(buf, half, last, src, g, baseLine, num1, rows);
    }
    if nextLine == num0 {
      cur := 0;
    } else if nextLine == num1 {
      cur := half;
    } else {
      if baseLine == num0 {
        num1 := nextLine;
        cur := half;
      } else {
        num0 := nextLine;
        cur := 0;
      }
      FillLine(buf, half, cur, src, g, nextLine, if cur == 0 then num1 else num0, rows);
    }
  }

  /** One pixel of the vertical filter. */
  method BlendPixel(a: byte, b: byte, vphase: nat) returns (v: byte)
    requires vphase < 256
    ensures v == VerPixel(a, b, vphase)
    ensures (if a <= b then a else b) <= v <= (if a <= b then b else a)
    ensures vphase < 8 ==> v == a
  {
    VerPixelIsBetween(a, b, vphase);
    var w := VerWeight(vphase / 8);
    v := Clip((a * w + b * (256 - w) + 128) / 256);
  }

  /** The vertical filter: blends the rows at `last` and `cur` of the line buffer. */
  method VerFilter(dst: array<byte>, ptr: nat, buf: array<byte>, last: nat, cur: nat, n: nat, vphase: nat,
                   ghost a: seq<byte>, ghost b: seq<byte>)
    requires vphase < 256 && buf != dst && |a| == |b| == n && (0 < n ==> ptr + n <= dst.Length)
    requires last + n <= buf.Length && buf[last..last + n] == a
    requires cur + n <= buf.Length && buf[cur..cur + n] == b
    modifies dst
    ensures 0 < n ==> dst[ptr..ptr + n] == Blend(a, b, vphase)
    ensures forall p :: 0 <= p < dst.Length && !(ptr <= p < ptr + n) ==> dst[p] == old(dst[p])
  {
    var j := 0;
    while j < n
      invariant j <= n
      invariant 0 < n ==> dst[ptr..ptr + j] == Blend(a[..j], b[..j], vphase)
      invariant forall p :: 0 <= p < dst.Length && !(ptr <= p < ptr + j) ==> dst[p] == old(dst[p])
    {
      assert buf[last + j] == buf[last..last + n][j] && buf[cur + j] == buf[cur..cur + n][j];
      var v := BlendPixel(buf[last + j], buf[cur + j], vphase);
      dst[ptr + j] := v;
      assert a[..j + 1][..j] == a[..j] && b[..j + 1][..j] == b[..j];
      j := j + 1;
      assert dst[ptr..ptr + j] == dst[ptr..ptr + (j - 1)] + [v];
    }
    assert a[..n] == a && b[..n] == b;
  }

  /** Which two source rows output row i lies between, and how far from the first. */
  method RowPosition(g: Plane, i: nat) returns (baseLine: nat, nextLine: nat, vphase: nat)
    requires 0 < g.height
    ensures baseLine == BaseLine(g, i) && nextLine == NextLine(g, i) && vphase == VerPos(g, i) % 256
    ensures baseLine < g.height && nextLine < g.height
  {
    var pos := VerPos(g, i);
    baseLine := pos / 256;
    vphase := pos - baseLine * 256;
    if baseLine >= g.height {
      baseLine := g.height - 1;
    }
    nextLine := baseLine + 1;
    if nextLine >= g.height {
      nextLine := g.height - 1;
    }
  }

  /** One output row, through the cache, at dst[ptr..]. */
  method ScaleRow(dst: array<byte>, ptr: nat, buf: array<byte>, half: nat, n0: int, n1: int,
                  src: seq<byte>, g: Plane, i: nat, ghost rows: seq<seq<byte>>)
    returns (num0: int, num1: int)
    requires Fits(src, g) && rows == FilteredRows(src, g)
    requires g.dstWidth <= half && buf.Length == 2 * half && buf != dst
    requires CacheRight(buf[..], half, n0, n1, rows) && (0 < g.dstWidth ==> ptr + g.dstWidth <= dst.Length)
    modifies buf, dst
    ensures CacheRight(buf[..], half, num0, num1, rows)
    ensures 0 < g.dstWidth ==> dst[ptr..ptr + g.dstWidth] == OutLine(src, g, i)
    ensures forall p :: 0 <= p < dst.Length && !(ptr <= p < ptr + g.dstWidth) ==> dst[p] == old(dst[p])
  {
    var baseLine, nextLine, vphase := RowPosition(g, i);
    var last, cur;
    num0, num1, last, cur := CacheLines(buf, half, n0, n1, src, g, baseLine, nextLine, rows);
    VerFilter(dst, ptr, buf, last, cur, g.dstWidth, vphase, rows[baseLine], rows[nextLine]);
  }

  /** Where output row i of a plane starts, rows being `pitch` bytes apart. */
  function OutStart(start: nat, pitch: nat, i: nat): nat {
    MulMonotone(0, i, pitch);
    start + i * pitch
  }

  lemma OutRowsApart(start: nat, pitch: nat, i: nat, k: nat)
    requires i < k
    ensures OutStart(start, pitch, i) + pitch <= OutStart(start, pitch, k)
    ensures OutStart(start, pitch, i + 1) == OutStart(start, pitch, i) + pitch
  {
    MulStrict(i, k, pitch);
  }

  /** Output row i of a plane is in place; it may have no pixels. */
  ghost predicate RowDone(dst: seq<byte>, start: nat, pitch: nat, src: seq<byte>, g: Plane, i: nat)
    requires Fits(src, g)
  {
    var at := OutStart(start, pitch, i);
    0 < g.dstWidth ==> at + g.dstWidth <= |dst| && dst[at..at + g.dstWidth] == OutLine(src, g, i)
  }

  /** The first n output rows of a plane are in place. */
  ghost predicate RowsDone(dst: seq<byte>, start: nat, pitch: nat, src: seq<byte>, g: Plane, n: nat)
    requires Fits(src, g)
  {
    forall i: nat :: i < n ==> RowDone(dst, start, pitch, src, g, i)
  }

  /** Nothing before `limit` has changed. */
  predicate SameBefore(was: seq<byte>, now: seq<byte>, limit: nat) {
    |was| == |now| && forall p :: 0 <= p < |was| && p < limit ==> now[p] == was[p]
  }

  /** Rows that end before `limit` only depend on what is before it. */
  lemma RowsBelow(was: seq<byte>, now: seq<byte>, start: nat, pitch: nat, src: seq<byte>, g: Plane, n: nat, limit: nat)
    requires Fits(src, g) && RowsDone(was, start, pitch, src, g, n) && g.dstWidth <= pitch
    requires OutStart(start, pitch, n) <= limit && SameBefore(was, now, limit)
    ensures RowsDone(now, start, pitch, src, g, n)
  {
    forall i: nat | i < n ensures RowDone(now, start, pitch, src, g, i) {
      OutRowsApart(start, pitch, i, n);
      assert RowDone(was, start, pitch, src, g, i);
      if 0 < g.dstWidth {
        var at := OutStart(start, pitch, i);
        assert now[at..at + g.dstWidth] == was[at..at + g.dstWidth];
      }
    }
  }

  /** Writing output row n leaves the rows above it, and everything before the plane, alone. */
  lemma RowAdded(was: seq<byte>, now: seq<byte>, start: nat, pitch: nat, src: seq<byte>, g: Plane, n: nat)
    requires Fits(src, g) && RowsDone(was, start, pitch, src, g, n) && g.dstWidth <= pitch
    requires SameBefore(was, now, OutStart(start, pitch, n)) && RowDone(now, start, pitch, src, g, n)
    ensures RowsDone(now, start, pitch, src, g, n + 1) && SameBefore(was, now, start)
  {
    MulMonotone(0, n, pitch);
    RowsBelow(was, now, start, pitch, src, g, n, OutStart(start, pitch, n));
  }

  /** Where the last pixel of the first n rows of a plane ends; padding is not written. */
  function WrittenEnd(start: nat, pitch: nat, width: nat, n: nat): nat {
    if n == 0 || width == 0 then 0 else OutStart(start, pitch, n - 1) + width
  }

  lemma RowFits(start: nat, pitch: nat, width: nat, i: nat, n: nat)
    requires i < n && 0 < width
    ensures OutStart(start, pitch, i) + width <= WrittenEnd(start, pitch, width, n)
  {
    MulMonotone(i, n - 1, pitch);
  }

  /** One turn of a plane loop of do_scaler: the next output row. */
  method PlaneRow(dst: array<byte>, ghost start: nat, ghost pitch: nat, ptr: nat, buf: array<byte>, half: nat, n0: int, n1: int,
                  src: seq<byte>, g: Plane, i: nat, ghost rows: seq<seq<byte>>)
    returns (num0: int, num1: int)
    requires Fits(src, g) && rows == FilteredRows(src, g)
    requires g.dstWidth <= half && buf.Length == 2 * half && buf != dst
    requires CacheRight(buf[..], half, n0, n1, rows)
    requires ptr == OutStart(start, pitch, i) && (0 < g.dstWidth ==> ptr + g.dstWidth <= dst.Length)
    modifies buf, dst
    ensures CacheRight(buf[..], half, num0, num1, rows)
    ensures RowDone(dst[..], start, pitch, src, g, i)
    ensures SameBefore(old(dst[..]), dst[..], ptr)
  {
    num0, num1 := ScaleRow(dst, ptr, buf, half, n0, n1, src, g, i, rows);
  }

  /** One of the three plane loops of do_scaler: `n` output rows, `pad` bytes skipped after each. */
  method ScalePlane(dst: array<byte>, start: nat, pad: nat, buf: array<byte>, half: nat, src: seq<byte>, g: Plane, n: nat)
    returns (ptr: nat)
    requires Fits(src, g) && g.dstWidth <= half && buf.Length == 2 * half && buf != dst
    requires WrittenEnd(start, g.dstWidth + pad, g.dstWidth, n) <= dst.Length
    modifies buf, dst
    ensures ptr == OutStart(start, g.dstWidth + pad, n)
    ensures RowsDone(dst[..], start, g.dstWidth + pad, src, g, n)
    ensures SameBefore(old(dst[..]), dst[..], start)
  {
    ghost var pitch, rows := g.dstWidth + pad, FilteredRows(src, g);
    var num0, num1 := -1, -1;
    ptr := start;
    var i := 0;
    while i < n
      invariant i <= n && ptr == OutStart(start, pitch, i)
      invariant CacheRight(buf[..], half, num0, num1, rows)
      invariant RowsDone(dst[..], start, pitch, src, g, i)
      invariant SameBefore(old(dst[..]), dst[..], start)
    {
      ghost var was := dst[..];
      if 0 < g.dstWidth {
        RowFits(start, pitch, g.dstWidth, i, n);
      }
      OutRowsApart(start, pitch, i, n);
      num0, num1 := PlaneRow(dst, start, pitch, ptr, buf, half, num0, num1, src, g, i, rows);
      RowAdded(was, dst[..], start, pitch, src, g, i);
      ptr := ptr + g.dstWidth + pad;
      i := i + 1;
    }
  }

  /** (x + a - 1) & ~(a - 1), for a power of two a. */
  function AlignUp(x: nat, a: nat): (r: nat)
    requires 0 < a
    ensures x <= r < x + a && r % a == 0
    ensures x % a == 0 ==> r == x
  {
    DivUnique((x + a - 1) / a * a, a, (x + a - 1) / a, 0);
    assert (x + a - 1) / a * a + (x + a - 1) % a == x + a - 1;
    if x % a == 0 then
      DivUnique(x + a - 1, a, x / a, a - 1);
      (x + a - 1) / a * a
    else
      (x + a - 1) / a * a
  }

  /** The sizes of one conversion. The source has whole chroma samples; align is a power of two. */
  datatype Sizes = Sizes(srcW: nat, srcH: nat, dstW: nat, dstH: nat, align: nat) {
    predicate Valid() {
      2 <= srcW && 2 <= srcH && 0 < dstW && 0 < dstH && 2 <= align && align % 2 == 0
    }

    /** Source row pitches, align_width and cro_align_width. */
    function Pitch(): (r: nat) requires Valid() ensures srcW <= r { AlignUp(srcW, align) }
    function ChromaPitch(): (r: nat) requires Valid() ensures srcW / 2 <= r { AlignUp(srcW / 2, align / 2) }

    /** Output row pitches: each row is followed by sub_num or cro_sub_num skipped bytes. */
    function OutPitch(): nat requires Valid() { dstW + Pitch() - srcW }
    function ChromaOutPitch(): nat requires Valid() { dstW / 2 + ChromaPitch() - srcW / 2 }

    function HorRatio(): nat requires Valid() { (srcW * 256 + dstW / 2) / dstW }
    function VerRatio(): nat requires Valid() { (srcH * 256 + dstH / 2) / dstH }

    function Y(): Plane requires Valid() {
      Plane(0, Pitch(), srcW, srcH, dstW, HorRatio(), 0, VerRatio(), 0)
    }
    function Cb(): Plane requires Valid() {
      Plane(RowStart(Y(), srcH), ChromaPitch(), srcW / 2, srcH / 2, dstW / 2, HorRatio(), 0, VerRatio(), 0)
    }
    function Cr(): Plane requires Valid() {
      Cb().(base := RowStart(Cb(), srcH / 2))
    }
    function SourceSize(): nat requires Valid() { RowStart(Cr(), srcH / 2) }

    /** Where the output planes start, and where dst_ptr ends up. */
    function CbStart(): nat requires Valid() { OutStart(0, OutPitch(), dstH) }
    function CrStart(): nat requires Valid() { OutStart(CbStart(), ChromaOutPitch(), dstH / 2) }
    function OutEnd(): nat requires Valid() { OutStart(CrStart(), ChromaOutPitch(), dstH / 2) }

    /** All pixels that are written fit a buffer of `len` bytes. */
    predicate OutputFits(len: nat) requires Valid() {
      && WrittenEnd(0, OutPitch(), dstW, dstH) <= len
      && WrittenEnd(CrStart(), ChromaOutPitch(), dstW / 2, dstH / 2) <= len
    }

    /** outpicsize: dst_w * dst_h * 1.5, truncated. */
    function OutPicSize(): nat {
      MulMonotone(0, dstW, dstH);
      dstW * dstH * 3 / 2
    }
  }

  predicate Near(x: int, d: int) {
    -d <= x <= d
  }

  /** The ratios are 256 times the quotients of the sizes, rounded. */
  lemma RatioRounded(z: Sizes)
    requires z.Valid()
    ensures Near(2 * (z.HorRatio() * z.dstW - 256 * z.srcW), z.dstW)
    ensures Near(2 * (z.VerRatio() * z.dstH - 256 * z.srcH), z.dstH)
  {
    Quotient(z.srcW * 256 + z.dstW / 2, z.dstW);
    Quotient(z.srcH * 256 + z.dstH / 2, z.dstH);
  }

  lemma TimesIndex(e: int, d: int, j: nat)
    requires Near(e, d)
    ensures Near(j * e, j * d)
  {
    MulMonotone(-d, e, j);
    MulMonotone(e, d, j);
  }

  lemma SamplePosition(ratio: nat, dst: nat, src: nat, j: nat)
    requires Near(2 * (ratio * dst - 256 * src), dst)
    ensures Near(2 * (j * ratio * dst - 256 * j * src), j * dst)
  {
    TimesIndex(2 * (ratio * dst - 256 * src), dst, j);
    assert j * (2 * (ratio * dst - 256 * src)) == 2 * (j * ratio * dst - 256 * j * src);
  }

  /** Output pixel j samples the source at j * srcW / dstW, up to j 512ths of a pixel, and output row i in
      the same way. */
  lemma SamplePositions(z: Sizes, i: nat, j: nat)
    requires z.Valid()
    ensures Near(2 * (j * z.HorRatio() * z.dstW - 256 * j * z.srcW), j * z.dstW)
    ensures Near(2 * (i * z.VerRatio() * z.dstH - 256 * i * z.srcH), i * z.dstH)
  {
    RatioRounded(z);
    SamplePosition(z.HorRatio(), z.dstW, z.srcW, j);
    SamplePosition(z.VerRatio(), z.dstH, z.srcH, i);
  }

  /** Where the planes are: Cb behind the luma rows, Cr behind the Cb rows, rows aligned, and output rows
      with the same padding as source rows. */
  lemma PlaneLayout(z: Sizes)
    requires z.Valid()
    ensures var (p, q, w, h) := (z.Pitch(), z.ChromaPitch(), z.srcW / 2, z.srcH / 2);
            && p % z.align == 0 && z.srcW <= p < z.srcW + z.align
            && q % (z.align / 2) == 0 && w <= q < w + z.align / 2
            && z.Y().base == 0 && z.Y().stride == p && z.Y().width == z.srcW && z.Y().height == z.srcH && z.Y().dstWidth == z.dstW
            && z.Cb().base == p * z.srcH && z.Cb().stride == q && z.Cb().width == w && z.Cb().height == h
            && z.Cr().base == p * z.srcH + q * h && z.Cr().stride == q && z.Cr().width == w && z.Cr().height == h
            && z.Cb().dstWidth == z.Cr().dstWidth == z.dstW / 2
            && z.OutPitch() == z.dstW + (p - z.srcW) && z.ChromaOutPitch() == z.dstW / 2 + (q - w)
            && z.CbStart() == z.dstH * z.OutPitch() && z.CrStart() == z.CbStart() + z.dstH / 2 * z.ChromaOutPitch()
  {
  }

  lemma PlaneFits(src: seq<byte>, g: Plane)
    requires 0 < g.width <= g.stride && 0 < g.height && RowStart(g, g.height) <= |src|
    ensures Fits(src, g)
  {
    forall r: nat | r < g.height ensures RowStart(g, r) + g.width <= |src| {
      MulStrict(r, g.height, g.stride);
    }
  }

  lemma PlanesFit(src: seq<byte>, z: Sizes)
    requires z.Valid() && z.SourceSize() <= |src|
    ensures Fits(src, z.Y()) && Fits(src, z.Cb()) && Fits(src, z.Cr())
  {
    MulMonotone(0, z.srcH / 2, z.ChromaPitch());
    PlaneFits(src, z.Y());
    PlaneFits(src, z.Cb());
    PlaneFits(src, z.Cr());
  }

  /** If Cr fits, so does Cb before it. */
  lemma CbFits(z: Sizes, len: nat)
    requires z.Valid() && z.OutputFits(len)
    ensures WrittenEnd(z.CbStart(), z.ChromaOutPitch(), z.dstW / 2, z.dstH / 2) <= len
  {
    MulMonotone(0, z.dstH / 2, z.ChromaOutPitch());
  }

  /** The picture buffer holds the three planes, each the uncached two-pass filter of its source. */
  ghost predicate PlanesDone(full: seq<byte>, src: seq<byte>, z: Sizes)
    requires z.Valid() && z.SourceSize() <= |src|
  {
    PlanesFit(src, z);
    && RowsDone(full, 0, z.OutPitch(), src, z.Y(), z.dstH)
    && RowsDone(full, z.CbStart(), z.ChromaOutPitch(), src, z.Cb(), z.dstH / 2)
    && RowsDone(full, z.CrStart(), z.ChromaOutPitch(), src, z.Cr(), z.dstH / 2)
  }

  /** do_scaler up to the last memcpy. */
  method ScalePlanes(dstBuf: array<byte>, sclineBuf: array<byte>, src: seq<byte>, z: Sizes)
    requires z.Valid() && z.SourceSize() <= |src| && dstBuf != sclineBuf && sclineBuf.Length == 2 * z.dstW
    requires z.OutputFits(dstBuf.Length)
    modifies dstBuf, sclineBuf
    ensures PlanesDone(dstBuf[..], src, z)
  {
    PlanesFit(src, z);
    var ptr := ScalePlane(dstBuf, 0, z.Pitch() - z.srcW, sclineBuf, z.dstW, src, z.Y(), z.dstH);
    ghost var y := dstBuf[..];
    CbFits(z, dstBuf.Length);
    ptr := ScalePlane(dstBuf, ptr, z.ChromaPitch() - z.srcW / 2, sclineBuf, z.dstW, src, z.Cb(), z.dstH / 2);
    ghost var cb := dstBuf[..];
    RowsBelow(y, cb, 0, z.OutPitch(), src, z.Y(), z.dstH, z.CbStart());
    ptr := ScalePlane(dstBuf, ptr, z.ChromaPitch() - z.srcW / 2, sclineBuf, z.dstW, src, z.Cr(), z.dstH / 2);
    RowsBelow(cb, dstBuf[..], z.CbStart(), z.ChromaOutPitch(), src, z.Cb(), z.dstH / 2, z.CrStart());
    MulMonotone(0, z.dstH / 2, z.ChromaOutPitch());
    RowsBelow(cb, dstBuf[..], 0, z.OutPitch(), src, z.Y(), z.dstH, z.CrStart());
  }

  /** scaler, for 4:2:0 planar pictures: fills the output picture with the beginning of a buffer
      in which the three planes are in place. */
  method ScalePicture(psrc: array<byte>, pdst: array<byte>, z: Sizes) returns (ghost full: seq<byte>)
    requires z.Valid() && z.SourceSize() <= psrc.Length && z.OutPicSize() <= pdst.Length
    requires z.OutputFits(3 * z.OutPicSize())
    modifies pdst
    ensures |full| == 3 * z.OutPicSize() && PlanesDone(full, old(psrc[..]), z)
    ensures pdst[..z.OutPicSize()] == full[..z.OutPicSize()]
    ensures pdst[z.OutPicSize()..] == old(pdst[z.OutPicSize()..])
  {
    var src := psrc[..];
    var sclineBuf := new byte[2 * z.dstW];
    var dstBuf := new byte[3 * z.OutPicSize()];
    ScalePlanes(dstBuf, sclineBuf, src, z);
    full := dstBuf[..];
    Memcpy(pdst, 0, dstBuf[..], 0, z.OutPicSize());
  }

  // ---- Whole ratios ------------------------------------------------------------------------

  /** Source sizes are kw and kh times even destination sizes, and rows need no padding. */
  predicate Whole(z: Sizes, kw: nat, kh: nat) {
    && z.Valid() && z.srcW == kw * z.dstW && z.srcH == kh * z.dstH
    && z.dstW % 2 == 0 && z.dstH % 2 == 0 && z.srcW % z.align == 0
  }

  lemma HalfOfMultiple(k: nat, n: nat)
    requires n % 2 == 0
    ensures k * n / 2 == k * (n / 2) && k * n % 2 == 0
  {
    DivUnique(k * n, 2, k * (n / 2), 0);
  }

  lemma MultipleOfHalf(x: nat, a: nat)
    requires 2 <= a && a % 2 == 0 && x % a == 0
    ensures x / 2 % (a / 2) == 0
  {
    var q := x / a;
    assert x == q * (a / 2) * 2;
    DivUnique(x / 2, a / 2, q, 0);
  }

  lemma WrittenBeforeEnd(z: Sizes)
    requires z.Valid()
    ensures z.OutputFits(z.OutEnd())
  {
    MulMonotone(0, z.dstH / 2, z.ChromaOutPitch());
    OutRowsApart(0, z.OutPitch(), z.dstH - 1, z.dstH);
    if 0 < z.dstH / 2 {
      OutRowsApart(z.CrStart(), z.ChromaOutPitch(), z.dstH / 2 - 1, z.dstH / 2);
    }
  }

  lemma NoPadding(z: Sizes)
    requires z.Valid() && z.dstW % 2 == 0 && z.dstH % 2 == 0
    requires z.Pitch() == z.srcW && z.ChromaPitch() == z.srcW / 2
    ensures z.OutEnd() == z.OutPicSize()
  {
    var w, h := z.dstW / 2, z.dstH / 2;
    assert z.OutEnd() == (2 * h) * (2 * w) + h * w + h * w;
    assert z.dstW * z.dstH * 3 == (w * h) * 12;
  }

  /** Then the ratios are whole, no row is padded, and the planes fill the output, and so fit DstBuf, exactly. */
  lemma WholeLayout(z: Sizes, kw: nat, kh: nat)
    requires Whole(z, kw, kh)
    ensures z.HorRatio() == 256 * kw && z.VerRatio() == 256 * kh
    ensures z.Pitch() == z.srcW && z.ChromaPitch() == z.srcW / 2
    ensures z.srcW / 2 == kw * (z.dstW / 2) && z.srcH / 2 == kh * (z.dstH / 2)
    ensures z.OutEnd() == z.OutPicSize() && z.OutputFits(z.OutPicSize())
  {
    ExactRatio(kw, z.dstW);
    ExactRatio(kh, z.dstH);
    HalfOfMultiple(kw, z.dstW);
    HalfOfMultiple(kh, z.dstH);
    MultipleOfHalf(z.srcW, z.align);
    NoPadding(z);
    WrittenBeforeEnd(z);
  }

  /** Output pixel (i, j) of the plane is the source pixel at the top left of its kw by kh block. */
  ghost predicate DecimatedAt(dst: seq<byte>, start: nat, src: seq<byte>, g: Plane, kw: nat, kh: nat, i: nat, j: nat) {
    MulMonotone(0, i, kh);
    MulMonotone(0, j, kw);
    && OutStart(start, g.dstWidth, i) + j < |dst|
    && RowStart(g, i * kh) + j * kw < |src|
    && dst[OutStart(start, g.dstWidth, i) + j] == src[RowStart(g, i * kh) + j * kw]
  }

  ghost predicate Decimated(dst: seq<byte>, start: nat, src: seq<byte>, g: Plane, n: nat, kw: nat, kh: nat) {
    forall i: nat, j: nat :: i < n && j < g.dstWidth ==> DecimatedAt(dst, start, src, g, kw, kh, i, j)
  }

  lemma PixelDecimates(dst: seq<byte>, start: nat, src: seq<byte>, g: Plane, n: nat, kw: nat, kh: nat, i: nat, j: nat)
    requires Fits(src, g) && RowsDone(dst, start, g.dstWidth, src, g, n)
    requires g.hratio == 256 * kw && g.vratio == 256 * kh && g.hphase == g.vphase == 0
    requires g.width == kw * g.dstWidth && g.height == kh * n && i < n && j < g.dstWidth
    ensures DecimatedAt(dst, start, src, g, kw, kh, i, j)
  {
    MulMonotone(0, i, kh);
    MulMonotone(0, j, kw);
    MulStrict(i, n, kh);
    MulStrict(j, g.dstWidth, kw);
    assert 0 < kw && 0 < kh;
    WholeRatioDecimates(src, g, kw, kh, i, j);
    var a := OutStart(start, g.dstWidth, i);
    assert RowDone(dst, start, g.dstWidth, src, g, i);
    assert dst[a..a + g.dstWidth][j] == dst[a + j];
  }

  lemma PlaneDecimates(dst: seq<byte>, start: nat, src: seq<byte>, g: Plane, n: nat, kw: nat, kh: nat)
    requires Fits(src, g) && RowsDone(dst, start, g.dstWidth, src, g, n)
    requires g.hratio == 256 * kw && g.vratio == 256 * kh && g.hphase == g.vphase == 0
    requires g.width == kw * g.dstWidth && g.height == kh * n
    ensures Decimated(dst, start, src, g, n, kw, kh)
  {
    forall i: nat, j: nat | i < n && j < g.dstWidth
      ensures DecimatedAt(dst, start, src, g, kw, kh, i, j)
    {
      PixelDecimates(dst, start, src, g, n, kw, kh, i, j);
    }
  }

  /** Main result for whole ratios: the three planes are decimated, without gaps, and the
      picture is exactly as long as outpicsize says. */
  lemma ScalerDecimates(full: seq<byte>, src: seq<byte>, z: Sizes, kw: nat, kh: nat)
    requires Whole(z, kw, kh) && z.SourceSize() <= |src| && PlanesDone(full, src, z)
    ensures Decimated(full, 0, src, z.Y(), z.dstH, kw, kh)
    ensures Decimated(full, z.CbStart(), src, z.Cb(), z.dstH / 2, kw, kh)
    ensures Decimated(full, z.CrStart(), src, z.Cr(), z.dstH / 2, kw, kh)
    ensures z.Pitch() == z.srcW && z.ChromaPitch() == z.srcW / 2
    ensures z.OutPitch() == z.dstW && z.ChromaOutPitch() == z.dstW / 2 && z.OutEnd() == z.OutPicSize()
  {
    WholeLayout(z, kw, kh);
    PlanesFit(src, z);
    PlaneDecimates(full, 0, src, z.Y(), z.dstH, kw, kh);
    PlaneDecimates(full, z.CbStart(), src, z.Cb(), z.dstH / 2, kw, kh);
    PlaneDecimates(full, z.CrStart(), src, z.Cr(), z.dstH / 2, kw, kh);
  }

  lemma EqualLayout(z: Sizes)
    requires Whole(z, 1, 1)
    ensures z.Y().base == 0 && z.Cb().base == z.CbStart() && z.Cr().base == z.CrStart() && z.SourceSize() == z.OutEnd()
  {
    WholeLayout(z, 1, 1);
  }

  predicate Copied(dst: seq<byte>, start: nat, src: seq<byte>, base: nat, q: nat) {
    start <= q < |dst| && base + (q - start) < |src| && dst[q] == src[base + (q - start)]
  }

  lemma SamePlace(dst: seq<byte>, start: nat, src: seq<byte>, g: Plane, i: nat, j: nat)
    requires DecimatedAt(dst, start, src, g, 1, 1, i, j) && g.stride == g.dstWidth
    ensures 0 <= i * g.dstWidth && start + (i * g.dstWidth + j) < |dst| && g.base + (i * g.dstWidth + j) < |src|
    ensures dst[start + (i * g.dstWidth + j)] == src[g.base + (i * g.dstWidth + j)]
  {
    MulMonotone(0, i, g.dstWidth);
  }

  lemma RowAndColumn(p: nat, w: nat, h: nat)
    requires p < h * w
    ensures 0 < w && p / w < h && p == p / w * w + p % w
  {
    if w == 0 {
      assert false;
    }
    if p / w >= h {
      MulMonotone(h, p / w, w);
    }
  }

  lemma PlaneCopied(dst: seq<byte>, start: nat, src: seq<byte>, g: Plane, n: nat)
    requires Decimated(dst, start, src, g, n, 1, 1) && g.stride == g.dstWidth
    ensures forall q: nat :: start <= q < OutStart(start, g.dstWidth, n) ==> Copied(dst, start, src, g.base, q)
  {
    forall q: nat | start <= q < OutStart(start, g.dstWidth, n)
      ensures Copied(dst, start, src, g.base, q)
    {
      var w := g.dstWidth;
      RowAndColumn(q - start, w, n);
      var i, j := (q - start) / w, (q - start) % w;
      assert DecimatedAt(dst, start, src, g, 1, 1, i, j);
      SamePlace(dst, start, src, g, i, j);
    }
  }

  /** With equal sizes the scaler is the identity. */
  lemma EqualSizesCopy(full: seq<byte>, src: seq<byte>, z: Sizes)
    requires Whole(z, 1, 1) && z.SourceSize() <= |src| && |full| >= z.OutPicSize() && PlanesDone(full, src, z)
    ensures z.OutPicSize() <= |src| && full[..z.OutPicSize()] == src[..z.OutPicSize()]
  {
    ScalerDecimates(full, src, z, 1, 1);
    WholeLayout(z, 1, 1);
    PlaneCopied(full, 0, src, z.Y(), z.dstH);
    PlaneCopied(full, z.CbStart(), src, z.Cb(), z.dstH / 2);
    PlaneCopied(full, z.CrStart(), src, z.Cr(), z.dstH / 2);
    EqualLayout(z);
    forall q: nat | q < z.OutPicSize() ensures q < |src| && full[q] == src[q] {
      assert Copied(full, 0, src, 0, q) || Copied(full, z.CbStart(), src, z.Cb().base, q) || Copied(full, z.CrStart(), src, z.Cr().base, q);
    }
  }
}
