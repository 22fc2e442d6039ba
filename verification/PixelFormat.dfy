/** CallbackNotifier.cpp: conversions between 4:2:0 layouts, all of which keep the luma plane. */
module PixelFormat {
  import opened Arith
  import opened Bytes

  /** Bytes of a picture of w by h pixels: the luma plane, then two chroma samples for every four pixels. */
  function Luma(w: nat, h: nat): nat {
    MulMonotone(0, w, h);
    w * h
  }

  function Chroma(w: nat, h: nat): nat {
    Luma(w / 2, h / 2)
  }

  /** Bytes of a picture. */
  function PictureSize(w: nat, h: nat): nat {
    Luma(w, h) + 2 * Chroma(w, h)
  }

  /** Twelve bits a pixel. */
  lemma PictureSizeIs(w: nat, h: nat)
    requires w % 2 == 0 && h % 2 == 0
    ensures PictureSize(w, h) == w * h * 3 / 2 && Luma(w, h) == w * h && Chroma(w, h) == (w / 2) * (h / 2)
  {
    var v, k := w / 2, h / 2;
    assert w * h == v * k * 4;
  }

  predicate Even(w: nat, h: nat) {
    w % 2 == 0 && h % 2 == 0
  }

  /** Every other byte: s[at], s[at + 2], ..., q of them. */
  function EveryOther(s: seq<byte>, at: nat, q: nat): (r: seq<byte>)
    requires q > 0 ==> at + 2 * (q - 1) < |s|
    ensures |r| == q
  {
    if q == 0 then [] else EveryOther(s, at, q - 1) + [s[at + 2 * (q - 1)]]
  }

  /** s[a], s[b], s[a + 1], s[b + 1], ..., q pairs. */
  function Pairs(s: seq<byte>, a: nat, b: nat, q: nat): (r: seq<byte>)
    requires a + q <= |s| && b + q <= |s|
    ensures |r| == 2 * q
  {
    if q == 0 then [] else Pairs(s, a, b, q - 1) + [s[a + q - 1], s[b + q - 1]]
  }

  /** Semi-planar to planar: the bytes of each chroma pair go to two planes, the one at `first`
      (0 or 1) to the first of them. */
  function ToPlanar(s: seq<byte>, n: nat, c: nat, first: nat): (r: seq<byte>)
    requires n + 2 * c <= |s| && first < 2
    ensures |r| == n + 2 * c
  {
    s[..n] + EveryOther(s, n + first, c) + EveryOther(s, n + 1 - first, c)
  }

  /** Planar to semi-planar, the first plane giving the second byte of each pair. */
  function ToNV21(s: seq<byte>, n: nat, c: nat): (r: seq<byte>)
    requires n + 2 * c <= |s|
    ensures |r| == n + 2 * c
  {
    s[..n] + Pairs(s, n + c, n, c)
  }

  /** The j loop of the luma plane. */
  method CopyLumaRow(src: array<byte>, dst: array<byte>, at: nat, w: nat)
    requires src != dst && at + w <= src.Length && at + w <= dst.Length && dst[..at] == src[..at]
    modifies dst
    ensures dst[..at + w] == src[..at + w] && dst[at + w..] == old(dst[at + w..])
  {
    var j := 0;
    while j < w
      invariant j <= w && dst[..at + j] == src[..at + j] && dst[at + w..] == old(dst[at + w..])
    {
      dst[at + j] := src[at + j];
      j := j + 1;
    }
  }

  /** The luma loop the three conversions share. */
  method CopyLuma(src: array<byte>, dst: array<byte>, w: nat, h: nat)
    requires src != dst && Luma(w, h) <= src.Length && Luma(w, h) <= dst.Length
    modifies dst
    ensures dst[..Luma(w, h)] == src[..Luma(w, h)] && dst[Luma(w, h)..] == old(dst[Luma(w, h)..])
  {
    ghost var at := 0;
    var i := 0;
    while i < h
      invariant i <= h && at == Idx(w, i, 0) <= Luma(w, h)
      invariant dst[..at] == src[..at] && dst[Luma(w, h)..] == old(dst[Luma(w, h)..])
    {
      MulStrict(i, h, w);
      CopyLumaRow(src, dst, Idx(w, i, 0), w);
      i, at := i + 1, at + w;
    }
  }

  /** Row i starts i * w bytes into a chroma plane of pairs, and i * w / 2 bytes into one of samples. */
  lemma ChromaRow(w: nat, rows: nat, i: nat)
    requires w % 2 == 0 && i < rows
    ensures i * w / 2 == Idx(w / 2, i, 0) && i * w == 2 * Idx(w / 2, i, 0)
    ensures Idx(w / 2, i, 0) + w / 2 == Idx(w / 2, i + 1, 0) <= Idx(w / 2, rows, 0)
  {
    assert i * w == 2 * (i * (w / 2));
    MulStrict(i, rows, w / 2);
  }

  /** The first q pairs are split. */
  predicate Split(dst: seq<byte>, src: seq<byte>, n: nat, c: nat, first: nat, q: nat) {
    && first < 2 && q <= c && n + 2 * c <= |src| && n + 2 * c <= |dst|
    && if q == 0 then dst[..n] == src[..n]
       else
         && Split(dst, src, n, c, first, q - 1)
         && dst[n + q - 1] == src[n + first + 2 * (q - 1)]
         && dst[n + c + q - 1] == src[n + 1 - first + 2 * (q - 1)]
  }

  /** What comes after does not matter. */
  lemma {:induction false} SplitStays(was: seq<byte>, dst: seq<byte>, src: seq<byte>, n: nat, c: nat, first: nat, q: nat)
    requires Split(was, src, n, c, first, q) && |dst| == |was| && dst[..n + q] == was[..n + q]
    requires dst[n + c..n + c + q] == was[n + c..n + c + q]
    ensures Split(dst, src, n, c, first, q)
  {
    if q == 0 {
      assert dst[..n] == dst[..n + q];
    } else {
      assert dst[..n + (q - 1)] == dst[..n + q][..n + (q - 1)] == was[..n + (q - 1)];
      assert dst[n + c..n + c + (q - 1)] == dst[n + c..n + c + q][..q - 1] == was[n + c..n + c + (q - 1)];
      SplitStays(was, dst, src, n, c, first, q - 1);
      assert dst[n + q - 1] == dst[..n + q][n + q - 1];
      assert dst[n + c + q - 1] == dst[n + c..n + c + q][q - 1];
    }
  }

  lemma {:induction false} SplitLuma(dst: seq<byte>, src: seq<byte>, n: nat, c: nat, first: nat, q: nat)
    requires Split(dst, src, n, c, first, q)
    ensures dst[..n] == src[..n]
  {
    if q == 0 {
    } else {
      SplitLuma(dst, src, n, c, first, q - 1);
    }
  }

  lemma {:induction false} SplitAt(dst: seq<byte>, src: seq<byte>, n: nat, c: nat, first: nat, q: nat, p: nat)
    requires Split(dst, src, n, c, first, q) && p < q
    ensures dst[n + p] == src[n + first + 2 * p] && dst[n + c + p] == src[n + 1 - first + 2 * p]
  {
    if p == q - 1 {
    } else {
      SplitAt(dst, src, n, c, first, q - 1, p);
    }
  }

  /** The pair at offset `from` goes to `to` in both planes. */
  method SplitPair(src: array<byte>, dst: array<byte>, n: nat, c: nat, to: nat, from: nat, first: nat)
    requires src != dst && to < c && from == 2 * to && Split(dst[..], src[..], n, c, first, to)
    modifies dst
    ensures Split(dst[..], src[..], n, c, first, to + 1)
    ensures dst[n + 2 * c..] == old(dst[n + 2 * c..])
  {
    ghost var was := dst[..];
    dst[n + to] := src[n + from + first];
    dst[n + c + to] := src[n + from + 1 - first];
    SplitStays(was, dst[..], src[..], n, c, first, to);
  }

  /** The j loop of the semi-planar to planar conversions: one row of pairs. */
  method SplitRow(src: array<byte>, dst: array<byte>, n: nat, c: nat, to: nat, from: nat, cols: nat, first: nat)
    requires src != dst && to + cols <= c && from == 2 * to && Split(dst[..], src[..], n, c, first, to)
    modifies dst
    ensures Split(dst[..], src[..], n, c, first, to + cols)
    ensures dst[n + 2 * c..] == old(dst[n + 2 * c..])
  {
    ghost var q := to;
    var j := 0;
    while j < cols
      invariant j <= cols && q == to + j
      invariant Split(dst[..], src[..], n, c, first, q)
      invariant dst[n + 2 * c..] == old(dst[n + 2 * c..])
    {
      SplitPair(src, dst, n, c, to + j, from + j * 2, first);
      q, j := q + 1, j + 1;
    }
  }

  /** The first q pairs are joined. */
  predicate Joined(dst: seq<byte>, src: seq<byte>, n: nat, c: nat, q: nat) {
    && q <= c && n + 2 * c <= |src| && n + 2 * c <= |dst|
    && if q == 0 then dst[..n] == src[..n]
       else
         && Joined(dst, src, n, c, q - 1)
         && dst[n + 2 * (q - 1)] == src[n + c + q - 1]
         && dst[n + 2 * (q - 1) + 1] == src[n + q - 1]
  }

  /** What comes after does not matter. */
  lemma {:induction false} JoinedStays(was: seq<byte>, dst: seq<byte>, src: seq<byte>, n: nat, c: nat, q: nat)
    requires Joined(was, src, n, c, q) && |dst| == |was| && dst[..n + 2 * q] == was[..n + 2 * q]
    ensures Joined(dst, src, n, c, q)
  {
    if q == 0 {
      assert dst[..n] == dst[..n + 2 * q];
    } else {
      assert dst[..n + 2 * (q - 1)] == dst[..n + 2 * q][..n + 2 * (q - 1)] == was[..n + 2 * (q - 1)];
      JoinedStays(was, dst, src, n, c, q - 1);
      assert dst[n + 2 * (q - 1)] == dst[..n + 2 * q][n + 2 * (q - 1)];
      assert dst[n + 2 * (q - 1) + 1] == dst[..n + 2 * q][n + 2 * (q - 1) + 1];
    }
  }

  lemma {:induction false} JoinedLuma(dst: seq<byte>, src: seq<byte>, n: nat, c: nat, q: nat)
    requires Joined(dst, src, n, c, q)
    ensures dst[..n] == src[..n]
  {
    if q == 0 {
    } else {
      JoinedLuma(dst, src, n, c, q - 1);
    }
  }

  lemma {:induction false} JoinedAt(dst: seq<byte>, src: seq<byte>, n: nat, c: nat, q: nat, p: nat)
    requires Joined(dst, src, n, c, q) && p < q
    ensures dst[n + 2 * p] == src[n + c + p] && dst[n + 2 * p + 1] == src[n + p]
  {
    if p == q - 1 {
    } else {
      JoinedAt(dst, src, n, c, q - 1, p);
    }
  }

  /** Sample `from` of both planes goes to the pair at `to`. */
  method JoinPair(src: array<byte>, dst: array<byte>, n: nat, c: nat, from: nat, to: nat)
    requires src != dst && from < c && to == 2 * from && Joined(dst[..], src[..], n, c, from)
    modifies dst
    ensures Joined(dst[..], src[..], n, c, from + 1)
    ensures dst[n + 2 * c..] == old(dst[n + 2 * c..])
  {
    ghost var was := dst[..];
    dst[n + to + 1] := src[n + from];
    dst[n + to] := src[n + c + from];
    JoinedStays(was, dst[..], src[..], n, c, from);
  }

  /** The j loop of the planar to semi-planar conversion: one row of samples, from offset `from` of
      both planes, goes to `to`. */
  method JoinRow(src: array<byte>, dst: array<byte>, n: nat, c: nat, from: nat, to: nat, cols: nat)
    requires src != dst && from + cols <= c && to == 2 * from && Joined(dst[..], src[..], n, c, from)
    modifies dst
    ensures Joined(dst[..], src[..], n, c, from + cols)
    ensures dst[n + 2 * c..] == old(dst[n + 2 * c..])
  {
    ghost var q := from;
    var j := 0;
    while j < cols
      invariant j <= cols && q == from + j
      invariant Joined(dst[..], src[..], n, c, q)
      invariant dst[n + 2 * c..] == old(dst[n + 2 * c..])
    {
      JoinPair(src, dst, n, c, from + j, to + j * 2);
      q, j := q + 1, j + 1;
    }
  }

  /** Row i of chroma. */
  method SplitRowAt(src: array<byte>, dst: array<byte>, n: nat, c: nat, w: nat, rows: nat, i: nat, ghost q: nat, first: nat)
    requires src != dst && w % 2 == 0 && i < rows && c == Idx(w / 2, rows, 0) && q == Idx(w / 2, i, 0)
    requires Split(dst[..], src[..], n, c, first, q)
    modifies dst
    ensures q + w / 2 == Idx(w / 2, i + 1, 0) && Split(dst[..], src[..], n, c, first, q + w / 2)
    ensures dst[n + 2 * c..] == old(dst[n + 2 * c..])
  {
    ChromaRow(w, rows, i);
    SplitRow(src, dst, n, c, i * w / 2, i * w, w / 2, first);
  }

  /** The i loop of the semi-planar to planar conversions. */
  method SplitRows(src: array<byte>, dst: array<byte>, n: nat, c: nat, w: nat, rows: nat, first: nat)
    requires src != dst && w % 2 == 0 && c == Idx(w / 2, rows, 0) && Split(dst[..], src[..], n, c, first, 0)
    modifies dst
    ensures Split(dst[..], src[..], n, c, first, c)
    ensures dst[n + 2 * c..] == old(dst[n + 2 * c..])
  {
    ghost var q := 0;
    var i := 0;
    while i < rows
      invariant i <= rows && q == Idx(w / 2, i, 0)
      invariant Split(dst[..], src[..], n, c, first, q)
      invariant dst[n + 2 * c..] == old(dst[n + 2 * c..])
    {
      SplitRowAt(src, dst, n, c, w, rows, i, q, first);
      q := q + w / 2;
      i := i + 1;
    }
  }

  // ---- Round trips ---------------------------------------------------------------------------

  lemma {:induction false} EveryOtherAt(s: seq<byte>, at: nat, q: nat, p: nat)
    requires p < q && at + 2 * (q - 1) < |s|
    ensures EveryOther(s, at, q)[p] == s[at + 2 * p]
  {
    if p == q - 1 {
    } else {
      EveryOtherAt(s, at, q - 1, p);
    }
  }

  /** The bytes of ToPlanar. */
  lemma PlanarAt(s: seq<byte>, n: nat, c: nat, first: nat, p: nat)
    requires n + 2 * c <= |s| && first < 2 && p < c
    ensures ToPlanar(s, n, c, first)[n + p] == s[n + first + 2 * p]
    ensures ToPlanar(s, n, c, first)[n + c + p] == s[n + 1 - first + 2 * p]
  {
    EveryOtherAt(s, n + first, c, p);
    EveryOtherAt(s, n + 1 - first, c, p);
  }

  lemma SplitIsPlanar(dst: seq<byte>, src: seq<byte>, n: nat, c: nat, first: nat)
    requires Split(dst, src, n, c, first, c)
    ensures dst[..n + 2 * c] == ToPlanar(src, n, c, first)
  {
    SplitLuma(dst, src, n, c, first, c);
    var t := ToPlanar(src, n, c, first);
    forall k | 0 <= k < n + 2 * c ensures dst[..n + 2 * c][k] == t[k] {
      if k < n {
        assert dst[..n][k] == src[..n][k];
      } else {
        var p := if k < n + c then k - n else k - n - c;
        SplitAt(dst, src, n, c, first, c, p);
        PlanarAt(src, n, c, first, p);
      }
    }
  }

  /** NV12ToYVU420 (first == 0) and NV21ToYVU420 (first == 1). */
  method SemiPlanarToYVU420(src: array<byte>, dst: array<byte>, w: nat, h: nat, first: nat)
    requires src != dst && Even(w, h) && first < 2
    requires PictureSize(w, h) <= src.Length && PictureSize(w, h) <= dst.Length
    modifies dst
    ensures dst[..PictureSize(w, h)] == ToPlanar(src[..], Luma(w, h), Chroma(w, h), first)
    ensures dst[PictureSize(w, h)..] == old(dst[PictureSize(w, h)..])
  {
    CopyLuma(src, dst, w, h);
    SplitRows(src, dst, Luma(w, h), Chroma(w, h), w, h / 2, first);
    SplitIsPlanar(dst[..], src[..], Luma(w, h), Chroma(w, h), first);
  }

  method NV12ToYVU420(src: array<byte>, dst: array<byte>, w: nat, h: nat)
    requires src != dst && Even(w, h) && PictureSize(w, h) <= src.Length && PictureSize(w, h) <= dst.Length
    modifies dst
    ensures dst[..PictureSize(w, h)] == ToPlanar(src[..], Luma(w, h), Chroma(w, h), 0)
    ensures dst[PictureSize(w, h)..] == old(dst[PictureSize(w, h)..])
  {
    SemiPlanarToYVU420(src, dst, w, h, 0);
  }

  method NV21ToYVU420(src: array<byte>, dst: array<byte>, w: nat, h: nat)
    requires src != dst && Even(w, h) && PictureSize(w, h) <= src.Length && PictureSize(w, h) <= dst.Length
    modifies dst
    ensures dst[..PictureSize(w, h)] == ToPlanar(src[..], Luma(w, h), Chroma(w, h), 1)
    ensures dst[PictureSize(w, h)..] == old(dst[PictureSize(w, h)..])
  {
    SemiPlanarToYVU420(src, dst, w, h, 1);
  }

  lemma {:induction false} PairsAt(s: seq<byte>, a: nat, b: nat, q: nat, p: nat)
    requires a + q <= |s| && b + q <= |s| && p < q
    ensures Pairs(s, a, b, q)[2 * p] == s[a + p] && Pairs(s, a, b, q)[2 * p + 1] == s[b + p]
  {
    if p == q - 1 {
    } else {
      PairsAt(s, a, b, q - 1, p);
    }
  }

  /** The bytes of ToNV21. */
  lemma NV21At(s: seq<byte>, n: nat, c: nat, p: nat)
    requires n + 2 * c <= |s| && p < c
    ensures ToNV21(s, n, c)[n + 2 * p] == s[n + c + p] && ToNV21(s, n, c)[n + 2 * p + 1] == s[n + p]
  {
    PairsAt(s, n + c, n, c, p);
  }

  lemma JoinedIsNV21(dst: seq<byte>, src: seq<byte>, n: nat, c: nat)
    requires Joined(dst, src, n, c, c)
    ensures dst[..n + 2 * c] == ToNV21(src, n, c)
  {
    JoinedLuma(dst, src, n, c, c);
    var t := ToNV21(src, n, c);
    forall k | 0 <= k < n + 2 * c ensures dst[..n + 2 * c][k] == t[k] {
      if k < n {
        assert dst[..n][k] == src[..n][k];
      } else {
        var p := (k - n) / 2;
        JoinedAt(dst, src, n, c, c, p);
        NV21At(src, n, c, p);
        assert k == n + 2 * p || k == n + 2 * p + 1;
      }
    }
  }

  /** Row i of chroma. */
  method JoinRowAt(src: array<byte>, dst: array<byte>, n: nat, c: nat, w: nat, rows: nat, i: nat, ghost q: nat)
    requires src != dst && w % 2 == 0 && i < rows && c == Idx(w / 2, rows, 0) && q == Idx(w / 2, i, 0)
    requires Joined(dst[..], src[..], n, c, q)
    modifies dst
    ensures q + w / 2 == Idx(w / 2, i + 1, 0) && Joined(dst[..], src[..], n, c, q + w / 2)
    ensures dst[n + 2 * c..] == old(dst[n + 2 * c..])
  {
    ChromaRow(w, rows, i);
    JoinRow(src, dst, n, c, i * w / 2, i * w, w / 2);
  }

  /** The i loop of the planar to semi-planar conversion. */
  method JoinRows(src: array<byte>, dst: array<byte>, n: nat, c: nat, w: nat, rows: nat)
    requires src != dst && w % 2 == 0 && c == Idx(w / 2, rows, 0) && Joined(dst[..], src[..], n, c, 0)
    modifies dst
    ensures Joined(dst[..], src[..], n, c, c)
    ensures dst[n + 2 * c..] == old(dst[n + 2 * c..])
  {
    ghost var q := 0;
    var i := 0;
    while i < rows
      invariant i <= rows && q == Idx(w / 2, i, 0)
      invariant Joined(dst[..], src[..], n, c, q)
      invariant dst[n + 2 * c..] == old(dst[n + 2 * c..])
    {
      JoinRowAt(src, dst, n, c, w, rows, i, q);
      q := q + w / 2;
      i := i + 1;
    }
  }

  method YVU420ToNV21(src: array<byte>, dst: array<byte>, w: nat, h: nat)
    requires src != dst && Even(w, h) && PictureSize(w, h) <= src.Length && PictureSize(w, h) <= dst.Length
    modifies dst
    ensures dst[..PictureSize(w, h)] == ToNV21(src[..], Luma(w, h), Chroma(w, h))
    ensures dst[PictureSize(w, h)..] == old(dst[PictureSize(w, h)..])
  {
    CopyLuma(src, dst, w, h);
    JoinRows(src, dst, Luma(w, h), Chroma(w, h), w, h / 2);
    JoinedIsNV21(dst[..], src[..], Luma(w, h), Chroma(w, h));
  }

  /** NV21 to YVU420 and back is the identity on the whole buffer ... */
  lemma NV21RoundTrip(s: seq<byte>, n: nat, c: nat)
    requires |s| == n + 2 * c
    ensures ToNV21(ToPlanar(s, n, c, 1), n, c) == s
  {
    var t := ToNV21(ToPlanar(s, n, c, 1), n, c);
    forall k | 0 <= k < |s| ensures t[k] == s[k] {
      if n <= k {
        var p := (k - n) / 2;
        NV21At(ToPlanar(s, n, c, 1), n, c, p);
        PlanarAt(s, n, c, 1, p);
        assert k == n + 2 * p || k == n + 2 * p + 1;
      }
    }
  }

  /** ... and so is YVU420 to NV21 and back. */
  lemma YVU420RoundTrip(s: seq<byte>, n: nat, c: nat)
    requires |s| == n + 2 * c
    ensures ToPlanar(ToNV21(s, n, c), n, c, 1) == s
  {
    var t := ToPlanar(ToNV21(s, n, c), n, c, 1);
    forall k | 0 <= k < |s| ensures t[k] == s[k] {
      if n <= k {
        var p := if k < n + c then k - n else k - n - c;
        PlanarAt(ToNV21(s, n, c), n, c, 1, p);
        NV21At(s, n, c, p);
      }
    }
  }

  /** NV12 to YVU420 to NV21 keeps the luma plane and exchanges the bytes of every chroma pair. */
  lemma NV12ThroughYVU420SwapsPairs(s: seq<byte>, n: nat, c: nat, k: nat)
    requires |s| == n + 2 * c && k < |s|
    ensures var t := ToNV21(ToPlanar(s, n, c, 0), n, c);
            t[k] == if k < n then s[k] else if (k - n) % 2 == 0 then s[k + 1] else s[k - 1]
  {
    if n <= k {
      var p := (k - n) / 2;
      NV21At(ToPlanar(s, n, c, 0), n, c, p);
      PlanarAt(s, n, c, 0, p);
    }
  }

  // ---- The pictures pixel by pixel -------------------------------------------------------------

  /** Column j of chroma row i, in planes of w / 2 by h / 2 samples. */
  lemma SamplePlace(w: nat, h: nat, i: nat, j: nat)
    requires w % 2 == 0 && i < h / 2 && j < w / 2
    ensures 0 <= i * (w / 2) + j < Chroma(w, h)
    ensures 2 * (i * (w / 2) + j) == i * w + 2 * j
  {
    MulStrict(i, h / 2, w / 2);
    MulMonotone(0, i, w / 2);
    assert i * w == i * (w / 2) * 2;
  }

  /** NV12ToYVU420 and NV21ToYVU420: chroma sample (i, j) of either plane comes from pair (i, j), the first
      plane from the byte of it that `first` says. */
  lemma PlanarPixel(dst: seq<byte>, src: seq<byte>, w: nat, h: nat, first: nat, i: nat, j: nat)
    requires Even(w, h) && first < 2 && PictureSize(w, h) <= |src| && PictureSize(w, h) <= |dst|
    requires dst[..PictureSize(w, h)] == ToPlanar(src, Luma(w, h), Chroma(w, h), first) && i < h / 2 && j < w / 2
    ensures var (n, c, p, q) := (w * h, (w / 2) * (h / 2), i * (w / 2) + j, i * w + 2 * j);
            && 0 <= n && 0 <= c && 0 <= p && 0 <= q && n + c + p < |dst| && n + q + 1 < |src|
            && dst[n + p] == src[n + q + first] && dst[n + c + p] == src[n + q + 1 - first]
  {
    SamplePlace(w, h, i, j);
    PlanarAt(src, Luma(w, h), Chroma(w, h), first, i * (w / 2) + j);
  }

  /** YVU420ToNV21: pair (i, j) has sample (i, j) of the second plane first. */
  lemma NV21Pixel(dst: seq<byte>, src: seq<byte>, w: nat, h: nat, i: nat, j: nat)
    requires Even(w, h) && PictureSize(w, h) <= |src| && PictureSize(w, h) <= |dst|
    requires dst[..PictureSize(w, h)] == ToNV21(src, Luma(w, h), Chroma(w, h)) && i < h / 2 && j < w / 2
    ensures var (n, c, p, q) := (w * h, (w / 2) * (h / 2), i * (w / 2) + j, i * w + 2 * j);
            && 0 <= n && 0 <= c && 0 <= p && 0 <= q && n + c + p < |src| && n + q + 1 < |dst|
            && dst[n + q] == src[n + c + p] && dst[n + q + 1] == src[n + p]
  {
    SamplePlace(w, h, i, j);
    NV21At(src, Luma(w, h), Chroma(w, h), i * (w / 2) + j);
  }
}
