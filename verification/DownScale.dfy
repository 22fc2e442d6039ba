/** yuv420spDownScale: dropping pixels of a semi-planar 4:2:0 picture. */
module DownScale {
  import opened Arith
  import opened Bytes

  /** Bytes of a picture as the code reckons them, and of the two planes that are scaled. */
  function PictureSize(w: nat, h: nat): nat {
    Idx(w, h, 0) * 3 / 2
  }

  function PlanesSize(w: nat, h: nat): nat {
    Idx(w, h, 0) + Idx(w, h / 2, 0)
  }

  /** The bytes a chroma row may spill: the end of an odd row's last pair. */
  function Spill(n: nat, scale: nat): nat {
    if scale > 1 then n % 2 else 0
  }

  /** The sizes of source and destination. */
  datatype Sizes = Sizes(srcW: nat, srcH: nat, dstW: nat, dstH: nat) {
    predicate Valid() {
      0 < dstW && 0 < dstH
    }

    predicate Shrinks() {
      dstW <= srcW && dstH <= srcH
    }

    /** The whole-number scale, or 1 when the two directions differ: then the picture is cropped. */
    function Scale(): nat requires Valid() {
      DivAtLeast(srcW, dstW, 0);
      var scaleW: int, scaleH: int := srcW / dstW, srcH / dstH;
      if scaleW == scaleH then scaleW else 1
    }

    /** Dropping pixels stores chroma pairs even where an odd row ends in half a pair. */
    function Overhang(): nat requires Valid() {
      if 2 <= dstH then Spill(dstW, Scale()) else 0
    }

    /** How much of the destination is written. */
    function Written(): nat requires Valid() {
      if !Shrinks() then 0
      else if srcW == dstW && srcH == dstH then PictureSize(dstW, dstH)
      else PlanesSize(dstW, dstH) + Overhang()
    }
  }

  /** The source column of chroma byte x: pairs stay together. */
  function ChromaCol(x: nat, scale: nat): nat {
    MulMonotone(0, x - x % 2, scale);
    (x - x % 2) * scale + x % 2
  }

  function Times(k: nat, scale: nat): nat {
    MulMonotone(0, k, scale);
    k * scale
  }

  lemma TimesPlus(k: nat, l: nat, scale: nat)
    ensures Times(k + l, scale) == Times(k, scale) + Times(l, scale)
  {
  }

  lemma ChromaColPair(x: nat, scale: nat)
    requires x % 2 == 0
    ensures ChromaCol(x, scale) == Times(x, scale) && ChromaCol(x + 1, scale) == Times(x, scale) + 1
  {
    assert (x + 1) % 2 == 1;
  }

  /** One byte of each plane. */
  predicate LumaAt(dst: seq<byte>, src: seq<byte>, z: Sizes, scale: nat, y: nat, x: nat) {
    && Idx(z.dstW, y, x) < |dst| && Idx(z.srcW, Times(y, scale), Times(x, scale)) < |src|
    && dst[Idx(z.dstW, y, x)] == src[Idx(z.srcW, Times(y, scale), Times(x, scale))]
  }

  predicate ChromaAt(dst: seq<byte>, src: seq<byte>, z: Sizes, scale: nat, y: nat, x: nat) {
    var (to, from) := (Idx(z.dstW, z.dstH, 0) + Idx(z.dstW, y, x),
                       Idx(z.srcW, z.srcH, 0) + Idx(z.srcW, Times(y, scale), ChromaCol(x, scale)));
    to < |dst| && from < |src| && dst[to] == src[from]
  }

  /** dst is src scaled down: every scale-th pixel of every scale-th row, chroma pairs kept whole. */
  ghost predicate Scaled(dst: seq<byte>, src: seq<byte>, z: Sizes, scale: nat) {
    && (forall y: nat, x: nat :: y < z.dstH && x < z.dstW ==> LumaAt(dst, src, z, scale, y, x))
    && (forall y: nat, x: nat :: y < z.dstH / 2 && x < z.dstW ==> ChromaAt(dst, src, z, scale, y, x))
  }

  /** Scaling never leaves the source picture. */
  lemma ScaleFits(z: Sizes)
    requires z.Valid() && z.Shrinks()
    ensures 1 <= z.Scale() && Times(z.dstW, z.Scale()) <= z.srcW && Times(z.dstH, z.Scale()) <= z.srcH
  {
    DivAtLeast(z.srcW, z.dstW, 1);
    assert z.srcW == z.srcW / z.dstW * z.dstW + z.srcW % z.dstW;
    assert z.srcH == z.srcH / z.dstH * z.dstH + z.srcH % z.dstH;
  }

  lemma LumaFits(z: Sizes, scale: nat, y: nat)
    requires 1 <= scale && 0 < z.dstW && Times(z.dstW, scale) <= z.srcW && Times(z.dstH, scale) <= z.srcH && y < z.dstH
    ensures Idx(z.srcW, Times(y, scale), 0) + Times(z.dstW - 1, scale) < Idx(z.srcW, z.srcH, 0)
  {
    MulStrict(y, z.dstH, scale);
    MulStrict(z.dstW - 1, z.dstW, scale);
    IdxBound(z.srcW, Times(y, scale), Times(z.dstW - 1, scale), z.srcH);
  }

  /** The last column a chroma pair starts in. */
  function LastPair(w: nat): nat
    requires 0 < w
  {
    (w - 1) / 2 * 2
  }

  /** Where chroma row h starts in a picture of w by rows pixels. */
  function ChromaStart(w: nat, rows: nat, h: nat): nat {
    Idx(w, rows, 0) + Idx(w, h, 0)
  }

  /** A chroma row lies inside its picture. */
  lemma ChromaRowInside(w: nat, rows: nat, h: nat)
    requires h < rows / 2
    ensures ChromaStart(w, rows, h) + w <= PlanesSize(w, rows)
  {
    MulStrict(h, rows / 2, w);
  }

  lemma ChromaRowFits(z: Sizes, scale: nat, y: nat)
    requires 1 <= scale && Times(z.dstH, scale) <= z.srcH && y < z.dstH / 2
    ensures ChromaStart(z.srcW, z.srcH, Times(y, scale)) + z.srcW <= PlanesSize(z.srcW, z.srcH)
  {
    MulMonotone(2 * y + 2, z.dstH, scale);
    assert Times(2 * y + 2, scale) == 2 * Times(y, scale) + 2 * scale;
    ChromaRowInside(z.srcW, z.srcH, Times(y, scale));
  }

  lemma PairFits(z: Sizes, scale: nat)
    requires 2 <= scale && z.Valid() && Times(z.dstW, scale) <= z.srcW
    ensures Times(LastPair(z.dstW), scale) + 1 < z.srcW
  {
    MulMonotone(LastPair(z.dstW), z.dstW - 1, scale);
    assert Times(z.dstW, scale) == Times(z.dstW - 1, scale) + scale;
  }

  // ---- Rows -------------------------------------------------------------------------------------

  predicate Takes(b: byte, src: seq<byte>, from: nat) {
    from < |src| && b == src[from]
  }

  /** A row that is copied whole, luma or chroma. */
  method CopyRow(dst: array<byte>, at: nat, n: nat, src: seq<byte>, from: nat)
    requires at + n <= dst.Length && from + n <= |src|
    modifies dst
    ensures forall p :: at <= p < at + n ==> Takes(dst[p], src, from + Times(p - at, 1)) && Takes(dst[p], src, from + ChromaCol(p - at, 1))
    ensures forall p :: 0 <= p < dst.Length && !(at <= p < at + n) ==> dst[p] == old(dst[p])
  {
    Memcpy(dst, at, src, from, n);
  }

  /** A luma row of which every scale-th byte is kept. */
  method DropPixels(dst: array<byte>, at: nat, n: nat, src: seq<byte>, from: nat, scale: nat)
    requires 0 < n && at + n <= dst.Length && from + Times(n - 1, scale) < |src|
    modifies dst
    ensures forall p :: at <= p < at + n ==> Takes(dst[p], src, from + Times(p - at, scale))
    ensures forall p :: 0 <= p < dst.Length && !(at <= p < at + n) ==> dst[p] == old(dst[p])
  {
    var w := 0;
    while w < n
      invariant w <= n
      invariant forall p :: at <= p < at + w ==> Takes(dst[p], src, from + Times(p - at, scale))
      invariant forall p :: 0 <= p < dst.Length && !(at <= p < at + w) ==> dst[p] == old(dst[p])
    {
      MulMonotone(w, n - 1, scale);
      dst[at + w] := src[from + Times(w, scale)];
      w := w + 1;
    }
  }

  /** A luma row. */
  method LumaRow(dst: array<byte>, at: nat, n: nat, src: seq<byte>, from: nat, scale: nat)
    requires 0 < n && 0 < scale && at + n <= dst.Length && from + Times(n - 1, scale) < |src|
    modifies dst
    ensures forall p :: at <= p < at + n ==> Takes(dst[p], src, from + Times(p - at, scale))
    ensures forall p :: 0 <= p < dst.Length && !(at <= p < at + n) ==> dst[p] == old(dst[p])
  {
    if scale == 1 {
      CopyRow(dst, at, n, src, from);
    } else {
      DropPixels(dst, at, n, src, from, scale);
    }
  }

  /** Every scale-th pair from `from` on, k of them. */
  function Pairs(src: seq<byte>, from: nat, k: nat, scale: nat): (r: seq<byte>)
    requires 0 < k ==> from + Times(2 * (k - 1), scale) + 1 < |src|
    ensures |r| == 2 * k
  {
    if k == 0 then []
    else
      MulMonotone(2 * (k - 1) - 2, 2 * (k - 1), scale);
      var p := from + Times(2 * (k - 1), scale);
      Pairs(src, from, k - 1, scale) + [src[p], src[p + 1]]
  }

  lemma {:induction false} PairsAt(src: seq<byte>, from: nat, k: nat, scale: nat, x: nat)
    requires x < 2 * k && from + Times(2 * (k - 1), scale) + 1 < |src|
    ensures Takes(Pairs(src, from, k, scale)[x], src, from + ChromaCol(x, scale))
  {
    if x < 2 * (k - 1) {
      MulMonotone(2 * (k - 1) - 2, 2 * (k - 1), scale);
      PairsAt(src, from, k - 1, scale, x);
    } else {
      ChromaColPair(2 * (k - 1), scale);
    }
  }

  /** One pair, as a 16-bit store, behind the w bytes before it. */
  method StorePair(dst: array<byte>, at: nat, w: nat, src: seq<byte>, p: nat)
    requires at + w + 1 < dst.Length && p + 1 < |src|
    modifies dst
    ensures dst[at..at + w + 2] == old(dst[at..at + w]) + [src[p], src[p + 1]]
    ensures forall k :: 0 <= k < dst.Length && k != at + w && k != at + w + 1 ==> dst[k] == old(dst[k])
  {
    dst[at + w] := src[p];
    dst[at + w + 1] := src[p + 1];
  }

  /** The loop over a chroma row, k pairs. */
  method StorePairs(dst: array<byte>, at: nat, n: nat, src: seq<byte>, from: nat, scale: nat, ghost k: nat)
    requires 0 < n && 2 * k == n + n % 2 && at + 2 * k <= dst.Length && from + Times(2 * (k - 1), scale) + 1 < |src|
    modifies dst
    ensures dst[at..at + 2 * k] == Pairs(src, from, k, scale)
    ensures forall p :: 0 <= p < dst.Length && !(at <= p < at + 2 * k) ==> dst[p] == old(dst[p])
  {
    ghost var q := 0;
    var w := 0;
    MulMonotone(0, 2 * (k - 1), scale);
    while w < n
      invariant w == 2 * q && q <= k && (0 < q ==> from + Times(2 * (q - 1), scale) + 1 < |src|)
      invariant dst[at..at + w] == Pairs(src, from, q, scale)
      invariant forall p :: 0 <= p < dst.Length && !(at <= p < at + w) ==> dst[p] == old(dst[p])
    {
      MulMonotone(w, 2 * (k - 1), scale);
      StorePair(dst, at, w, src, from + Times(w, scale));
      w, q := w + 2, q + 1;
    }
  }

  /** A chroma row of which every scale-th pair is kept. */
  method DropPairs(dst: array<byte>, at: nat, n: nat, src: seq<byte>, from: nat, scale: nat)
    requires 0 < n && at + n + n % 2 <= dst.Length && from + Times(LastPair(n), scale) + 1 < |src|
    modifies dst
    ensures forall p :: at <= p < at + n ==> Takes(dst[p], src, from + ChromaCol(p - at, scale))
    ensures forall p :: 0 <= p < dst.Length && !(at <= p < at + n + n % 2) ==> dst[p] == old(dst[p])
  {
    ghost var k := (n + 1) / 2;
    StorePairs(dst, at, n, src, from, scale, k);
    forall p | at <= p < at + n ensures Takes(dst[p], src, from + ChromaCol(p - at, scale)) {
      PairsAt(src, from, k, scale, p - at);
      assert dst[p] == dst[at..at + 2 * k][p - at];
    }
  }

  /** A chroma row; dropping pairs may write a byte behind it. */
  method ChromaRow(dst: array<byte>, at: nat, n: nat, src: seq<byte>, from: nat, scale: nat, ghost spill: nat)
    requires 0 < n && 0 < scale && at + n + spill <= dst.Length && from + n <= |src|
    requires scale > 1 ==> spill == n % 2 && from + Times(LastPair(n), scale) + 1 < |src|
    modifies dst
    ensures forall p :: at <= p < at + n ==> Takes(dst[p], src, from + ChromaCol(p - at, scale))
    ensures forall p :: 0 <= p < dst.Length && !(at <= p < at + n + spill) ==> dst[p] == old(dst[p])
  {
    if scale == 1 {
      CopyRow(dst, at, n, src, from);
    } else {
      DropPairs(dst, at, n, src, from, scale);
    }
  }

  // ---- Planes -----------------------------------------------------------------------------------

  ghost predicate LumaDone(dst: seq<byte>, src: seq<byte>, z: Sizes, scale: nat, rows: nat) {
    forall y: nat, x: nat :: y < rows && x < z.dstW ==> LumaAt(dst, src, z, scale, y, x)
  }

  ghost predicate ChromaDone(dst: seq<byte>, src: seq<byte>, z: Sizes, scale: nat, rows: nat) {
    forall y: nat, x: nat :: y < rows && x < z.dstW ==> ChromaAt(dst, src, z, scale, y, x)
  }

  /** What is needed of sizes, scale and buffers. */
  predicate Ready(dstLen: nat, srcLen: nat, z: Sizes, scale: nat) {
    && z.Valid() && 1 <= scale && Times(z.dstW, scale) <= z.srcW && Times(z.dstH, scale) <= z.srcH
    && PlanesSize(z.dstW, z.dstH) <= dstLen && PlanesSize(z.srcW, z.srcH) <= srcLen
  }

  lemma LumaRowDone(was: seq<byte>, dst: seq<byte>, src: seq<byte>, z: Sizes, scale: nat, i: nat, at: nat, from: nat)
    requires Ready(|dst|, |src|, z, scale) && |was| == |dst| && i < z.dstH
    requires at == Idx(z.dstW, i, 0) && from == Idx(z.srcW, Times(i, scale), 0)
    requires LumaDone(was, src, z, scale, i)
    requires at + z.dstW <= |dst|
    requires forall p :: 0 <= p < at ==> dst[p] == was[p]
    requires forall p :: at <= p < at + z.dstW ==> Takes(dst[p], src, from + Times(p - at, scale))
    ensures LumaDone(dst, src, z, scale, i + 1)
  {
    forall y: nat, x: nat | y < i + 1 && x < z.dstW ensures LumaAt(dst, src, z, scale, y, x) {
      if y < i {
        IdxBound(z.dstW, y, x, i);
        assert LumaAt(was, src, z, scale, y, x);
      } else {
        assert Takes(dst[at + x], src, from + Times(x, scale));
      }
    }
  }

  lemma ChromaRowDone(was: seq<byte>, dst: seq<byte>, src: seq<byte>, z: Sizes, scale: nat, i: nat, at: nat, from: nat)
    requires Ready(|dst|, |src|, z, scale) && |was| == |dst| && i < z.dstH / 2
    requires at == ChromaStart(z.dstW, z.dstH, i) && from == ChromaStart(z.srcW, z.srcH, Times(i, scale))
    requires ChromaDone(was, src, z, scale, i)
    requires at + z.dstW <= |dst|
    requires forall p :: 0 <= p < at ==> dst[p] == was[p]
    requires forall p :: at <= p < at + z.dstW ==> Takes(dst[p], src, from + ChromaCol(p - at, scale))
    ensures ChromaDone(dst, src, z, scale, i + 1)
  {
    forall y: nat, x: nat | y < i + 1 && x < z.dstW ensures ChromaAt(dst, src, z, scale, y, x) {
      if y < i {
        IdxBound(z.dstW, y, x, i);
        assert ChromaAt(was, src, z, scale, y, x);
      } else {
        assert Takes(dst[at + x], src, from + ChromaCol(x, scale));
      }
    }
  }

  /** Rows that end below `limit` only depend on what is below it. */
  lemma LumaStays(was: seq<byte>, dst: seq<byte>, src: seq<byte>, z: Sizes, scale: nat)
    requires LumaDone(was, src, z, scale, z.dstH) && Idx(z.dstW, z.dstH, 0) <= |was| == |dst|
    requires forall p :: 0 <= p < Idx(z.dstW, z.dstH, 0) ==> dst[p] == was[p]
    ensures LumaDone(dst, src, z, scale, z.dstH)
  {
    forall y: nat, x: nat | y < z.dstH && x < z.dstW ensures LumaAt(dst, src, z, scale, y, x) {
      IdxBound(z.dstW, y, x, z.dstH);
      assert LumaAt(was, src, z, scale, y, x);
    }
  }

  method LumaPlane(dst: array<byte>, src: seq<byte>, z: Sizes, scale: nat)
    requires Ready(dst.Length, |src|, z, scale)
    modifies dst
    ensures LumaDone(dst[..], src, z, scale, z.dstH)
    ensures forall p :: Idx(z.dstW, z.dstH, 0) <= p < dst.Length ==> dst[p] == old(dst[p])
  {
    var h := 0;
    while h < z.dstH
      invariant h <= z.dstH && LumaDone(dst[..], src, z, scale, h)
      invariant forall p :: Idx(z.dstW, z.dstH, 0) <= p < dst.Length ==> dst[p] == old(dst[p])
    {
      ghost var was := dst[..];
      var at, from := Idx(z.dstW, h, 0), Idx(z.srcW, Times(h, scale), 0);
      MulStrict(h, z.dstH, z.dstW);
      LumaFits(z, scale, h);
      LumaRow(dst, at, z.dstW, src, from, scale);
      LumaRowDone(was, dst[..], src, z, scale, h, at, from);
      h := h + 1;
    }
  }

  /** A chroma row fits source and destination, what it spills included. */
  lemma ChromaLineFits(z: Sizes, scale: nat, h: nat, dstLen: nat, srcLen: nat)
    requires Ready(dstLen, srcLen, z, scale) && h < z.dstH / 2
    ensures ChromaStart(z.dstW, z.dstH, h) + z.dstW <= PlanesSize(z.dstW, z.dstH)
    ensures ChromaStart(z.srcW, z.srcH, Times(h, scale)) + z.srcW <= srcLen
    ensures scale > 1 ==> Times(LastPair(z.dstW), scale) + 1 < z.srcW
  {
    ChromaRowInside(z.dstW, z.dstH, h);
    ChromaRowFits(z, scale, h);
    if scale > 1 {
      PairFits(z, scale);
    }
  }

  lemma NotWider(z: Sizes, scale: nat)
    requires 1 <= scale && Times(z.dstW, scale) <= z.srcW
    ensures z.dstW <= z.srcW
  {
    MulMonotone(1, scale, z.dstW);
  }

  method ChromaPlane(dst: array<byte>, src: seq<byte>, z: Sizes, scale: nat, ghost end: nat)
    requires Ready(dst.Length, |src|, z, scale)
    requires 2 <= z.dstH ==> end == PlanesSize(z.dstW, z.dstH) + Spill(z.dstW, scale) <= dst.Length
    modifies dst
    ensures ChromaDone(dst[..], src, z, scale, z.dstH / 2)
    ensures forall p :: 0 <= p < dst.Length && !(Idx(z.dstW, z.dstH, 0) <= p < end) ==> dst[p] == old(dst[p])
  {
    var h := 0;
    while h < z.dstH / 2
      invariant h <= z.dstH / 2 && ChromaDone(dst[..], src, z, scale, h)
      invariant forall p :: 0 <= p < dst.Length && !(Idx(z.dstW, z.dstH, 0) <= p < end) ==> dst[p] == old(dst[p])
    {
      ghost var was := dst[..];
      var at, from := ChromaStart(z.dstW, z.dstH, h), ChromaStart(z.srcW, z.srcH, Times(h, scale));
      ChromaLineFits(z, scale, h, dst.Length, |src|);
      NotWider(z, scale);
      ChromaRow(dst, at, z.dstW, src, from, scale, Spill(z.dstW, scale));
      ChromaRowDone(was, dst[..], src, z, scale, h, at, from);
      h := h + 1;
    }
  }

  /** Equal sizes have scale 1. */
  lemma SizesDiffer(z: Sizes)
    requires z.Valid() && z.Shrinks() && !(z.Scale() == 1 && z.srcW == z.dstW && z.srcH == z.dstH)
    ensures z.Written() == PlanesSize(z.dstW, z.dstH) + z.Overhang()
  {
    if z.srcW == z.dstW && z.srcH == z.dstH {
      DivUnique(z.srcW, z.dstW, 1, 0);
      DivUnique(z.srcH, z.dstH, 1, 0);
    }
  }

  lemma PlaneSizes(w: nat, h: nat)
    ensures PlanesSize(w, h) <= PictureSize(w, h)
  {
    MulMonotone(2 * (h / 2), h, w);
    assert Idx(w, 2 * (h / 2), 0) == 2 * Idx(w, h / 2, 0);
  }

  lemma CopyIsScaled(dst: seq<byte>, src: seq<byte>, z: Sizes)
    requires z.Valid() && z.srcW == z.dstW && z.srcH == z.dstH
    requires PictureSize(z.dstW, z.dstH) <= |src| && PictureSize(z.dstW, z.dstH) <= |dst|
    requires forall p :: 0 <= p < PictureSize(z.dstW, z.dstH) ==> dst[p] == src[p]
    ensures Scaled(dst, src, z, 1)
  {
    PlaneSizes(z.dstW, z.dstH);
    forall y: nat, x: nat | y < z.dstH && x < z.dstW ensures LumaAt(dst, src, z, 1, y, x) {
      IdxBound(z.dstW, y, x, z.dstH);
    }
    forall y: nat, x: nat | y < z.dstH / 2 && x < z.dstW ensures ChromaAt(dst, src, z, 1, y, x) {
      IdxBound(z.dstW, y, x, z.dstH / 2);
    }
  }

  /** Both directions shrink by k and a fraction less than one. */
  predicate WholeScale(z: Sizes, k: nat) {
    && 0 < k
    && k * z.dstW <= z.srcW < (k + 1) * z.dstW
    && k * z.dstH <= z.srcH < (k + 1) * z.dstH
  }

  lemma BothQuotients(z: Sizes, k: nat)
    requires z.Valid() && WholeScale(z, k)
    ensures z.srcW / z.dstW == k == z.srcH / z.dstH
  {
    DivUnique(z.srcW, z.dstW, k, z.srcW - k * z.dstW);
    DivUnique(z.srcH, z.dstH, k, z.srcH - k * z.dstH);
  }

  /** The code's scale is that k, and 1 if there is none. */
  lemma ScaleIsWhole(z: Sizes)
    requires z.Valid() && z.Shrinks()
    ensures forall k: nat :: WholeScale(z, k) ==> z.Scale() == k
    ensures (forall k: nat :: !WholeScale(z, k)) ==> z.Scale() == 1
  {
    forall k: nat | WholeScale(z, k) ensures z.Scale() == k {
      BothQuotients(z, k);
    }
    if z.srcW / z.dstW == z.srcH / z.dstH {
      DivAtLeast(z.srcW, z.dstW, 1);
      Quotient(z.srcW, z.dstW);
      Quotient(z.srcH, z.dstH);
      assert WholeScale(z, z.srcW / z.dstW);
    }
  }

  /** yuv420spDownScale: refuses to enlarge; whichever of copying, cropping and dropping pixels it
      chooses, the result is the one picture Scaled describes. */
  method Yuv420spDownScale(src: seq<byte>, dst: array<byte>, z: Sizes) returns (ok: bool)
    requires z.Valid() && PictureSize(z.srcW, z.srcH) <= |src| && z.Written() <= dst.Length
    modifies dst
    ensures ok <==> z.dstW <= z.srcW && z.dstH <= z.srcH
    ensures ok ==> Scaled(dst[..], src, z, z.Scale())
    ensures ok ==> forall k: nat :: WholeScale(z, k) ==> Scaled(dst[..], src, z, k)
    ensures ok && (forall k: nat :: !WholeScale(z, k)) ==> Scaled(dst[..], src, z, 1)
    ensures forall p :: z.Written() <= p < dst.Length ==> dst[p] == old(dst[p])
  {
    if z.dstW > z.srcW || z.dstH > z.srcH {
      return false;
    }
    var scale := z.Scale();
    ScaleIsWhole(z);
    ScaleFits(z);
    PlaneSizes(z.srcW, z.srcH);
    PlaneSizes(z.dstW, z.dstH);
    if scale == 1 && z.srcW == z.dstW && z.srcH == z.dstH {
      Memcpy(dst, 0, src, 0, PictureSize(z.dstW, z.dstH));
      CopyIsScaled(dst[..], src, z);
    } else {
      SizesDiffer(z);
      LumaPlane(dst, src, z, scale);
      ghost var was := dst[..];
      ChromaPlane(dst, src, z, scale, z.Written());
      LumaStays(was, dst[..], src, z, scale);
    }
    ok := true;
  }

  /** A scaled picture pixel by pixel: luma (y, x) is source pixel (y * k, x * k), and chroma pairs move whole. */
  lemma ScaledPixels(dst: seq<byte>, src: seq<byte>, z: Sizes, k: nat, y: nat, x: nat)
    requires Scaled(dst, src, z, k) && x < z.dstW
    ensures y < z.dstH ==>
              && 0 <= y * z.dstW + x < |dst| && 0 <= y * k * z.srcW + x * k < |src|
              && dst[y * z.dstW + x] == src[y * k * z.srcW + x * k]
    ensures y < z.dstH / 2 ==>
              var (to, from) := (z.dstH * z.dstW + y * z.dstW + x, z.srcH * z.srcW + y * k * z.srcW + x / 2 * 2 * k + x % 2);
              0 <= to < |dst| && 0 <= from < |src| && dst[to] == src[from]
  {
    if y < z.dstH {
      assert LumaAt(dst, src, z, k, y, x);
    }
    if y < z.dstH / 2 {
      assert ChromaAt(dst, src, z, k, y, x);
      assert x - x % 2 == x / 2 * 2;
    }
  }

  // ---- Composition --------------------------------------------------------------------------------

  lemma TimesTwice(k: nat, b: nat, a: nat)
    ensures Times(Times(k, b), a) == Times(k, Times(b, a))
  {
  }

  lemma ChromaColTwice(x: nat, b: nat, a: nat)
    ensures ChromaCol(ChromaCol(x, b), a) == ChromaCol(x, Times(b, a))
  {
    var even := Times(x - x % 2, b);
    assert even == 2 * Times(x / 2, b);
    TimesTwice(x - x % 2, b, a);
  }

  lemma ChromaInside(z: Sizes, b: nat, y: nat, x: nat)
    requires z.Valid() && 0 < b && z.srcW == Times(z.dstW, b) && z.srcH == Times(z.dstH, b) && y < z.dstH / 2 && x < z.dstW
    ensures Times(y, b) < z.srcH / 2 && ChromaCol(x, b) < z.srcW
  {
    MulMonotone(2 * y + 2, z.dstH, b);
    assert Times(2 * y + 2, b) == 2 * Times(y, b) + 2 * b;
    var even, r := x - x % 2, x % 2;
    MulMonotone(even + (1 + r), z.dstW, b);
    TimesPlus(even, 1 + r, b);
    MulMonotone(1, b, 1 + r);
  }

  /** Scaling by a and then by b is scaling by a * b. */
  lemma ScalesCompose(src: seq<byte>, mid: seq<byte>, out: seq<byte>, outer: Sizes, inner: Sizes, a: nat, b: nat)
    requires outer.Valid() && inner.Valid() && outer.dstW == inner.srcW && outer.dstH == inner.srcH && 0 < b
    requires inner.srcW == Times(inner.dstW, b) && inner.srcH == Times(inner.dstH, b)
    requires Scaled(mid, src, outer, a) && Scaled(out, mid, inner, b)
    ensures Scaled(out, src, Sizes(outer.srcW, outer.srcH, inner.dstW, inner.dstH), Times(b, a))
  {
    var z := Sizes(outer.srcW, outer.srcH, inner.dstW, inner.dstH);
    forall y: nat, x: nat | y < z.dstH && x < z.dstW ensures LumaAt(out, src, z, Times(b, a), y, x) {
      MulStrict(y, inner.dstH, b);
      MulStrict(x, inner.dstW, b);
      assert LumaAt(out, mid, inner, b, y, x) && LumaAt(mid, src, outer, a, Times(y, b), Times(x, b));
      TimesTwice(y, b, a);
      TimesTwice(x, b, a);
    }
    forall y: nat, x: nat | y < z.dstH / 2 && x < z.dstW ensures ChromaAt(out, src, z, Times(b, a), y, x) {
      ChromaInside(inner, b, y, x);
      assert ChromaAt(out, mid, inner, b, y, x) && ChromaAt(mid, src, outer, a, Times(y, b), ChromaCol(x, b));
      TimesTwice(y, b, a);
      ChromaColTwice(x, b, a);
    }
  }

  /** Exact multiples are scaled by their ratio. */
  lemma ExactScale(z: Sizes, k: nat)
    requires z.Valid() && 0 < k && z.srcW == Times(z.dstW, k) && z.srcH == Times(z.dstH, k)
    ensures z.Shrinks() && z.Scale() == k
  {
    MulMonotone(1, k, z.dstW);
    MulMonotone(1, k, z.dstH);
    DivUnique(z.srcW, z.dstW, k, 0);
    DivUnique(z.srcH, z.dstH, k, 0);
  }

  /** Main result: two exact downscalings give the same picture as one. */
  lemma TwoStepsAreOne(src: seq<byte>, mid: seq<byte>, out: seq<byte>, outer: Sizes, inner: Sizes, a: nat, b: nat)
    requires outer.Valid() && inner.Valid() && outer.dstW == inner.srcW && outer.dstH == inner.srcH && 0 < a && 0 < b
    requires outer.srcW == Times(outer.dstW, a) && outer.srcH == Times(outer.dstH, a)
    requires inner.srcW == Times(inner.dstW, b) && inner.srcH == Times(inner.dstH, b)
    requires Scaled(mid, src, outer, outer.Scale()) && Scaled(out, mid, inner, inner.Scale())
    ensures var z := Sizes(outer.srcW, outer.srcH, inner.dstW, inner.dstH); z.Shrinks() && Scaled(out, src, z, z.Scale())
  {
    var z := Sizes(outer.srcW, outer.srcH, inner.dstW, inner.dstH);
    ExactScale(outer, a);
    ExactScale(inner, b);
    TimesTwice(inner.dstW, b, a);
    TimesTwice(inner.dstH, b, a);
    MulStrict(0, b, a);
    ExactScale(z, Times(b, a));
    ScalesCompose(src, mid, out, outer, inner, a, b);
  }
}
