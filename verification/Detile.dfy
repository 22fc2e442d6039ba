/** Libve_Decoder.c: turning 32x32-tiled decoder frames into raster order with one source pointer
    that only moves forward. */
module Detile {
  import opened Arith
  import opened Bytes

  /** map32x32_to_yuv and its variants: `skip` drops every other line (skip_oneline), `swap`
      exchanges the bytes of each pair (nv21). */
  datatype Variant = Variant(skip: bool, swap: bool)

  /** The column of its tile that ends up in column c. */
  function Pair(swap: bool, c: nat): nat {
    if !swap then c else if c % 2 == 0 then c + 1 else c - 1
  }

  /** k copied lines further down in a tile. */
  function Down(skip: bool, k: nat): nat {
    if skip then k * 64 else k * 32
  }

  /** Output lines per line of tiles. */
  function Lines(skip: bool): nat {
    if skip then 16 else 32
  }

  // ---- The copying ------------------------------------------------------------------------

  /** Pixel (y, x) is copied from a tile that starts at `start` and whose top left pixel is (top, left). */
  predicate TilePixel(tar: seq<byte>, w: nat, y: nat, x: nat, src: seq<byte>, start: nat, top: nat, left: nat, v: Variant)
    requires top <= y && left <= x
  {
    var from := start + Down(v.skip, y - top) + Pair(v.swap, x - left);
    Idx(w, y, x) < |tar| && from < |src| && tar[Idx(w, y, x)] == src[from]
  }

  /** Pixel (y, x) is what it was. */
  predicate Kept(tar: seq<byte>, was: seq<byte>, w: nat, y: nat, x: nat) {
    Idx(w, y, x) < |tar| == |was| && tar[Idx(w, y, x)] == was[Idx(w, y, x)]
  }

  /** What storing `cols` bytes at `offset` does to one byte. */
  function Stored(was: seq<byte>, offset: nat, cols: nat, src: seq<byte>, ptr: nat, swap: bool, p: nat): byte
    requires p < |was| && ptr + cols <= |src| && cols % 2 == 0
  {
    if offset <= p < offset + cols then src[ptr + Pair(swap, p - offset)] else was[p]
  }

  /** The vld/vst sequences. */
  method StoreLine(tar: array<byte>, offset: nat, cols: nat, src: seq<byte>, ptr: nat, swap: bool)
    requires offset + cols <= tar.Length && ptr + cols <= |src| && cols % 2 == 0
    modifies tar
    ensures forall p :: 0 <= p < tar.Length ==> tar[p] == Stored(old(tar[..]), offset, cols, src, ptr, swap, p)
  {
    forall c | 0 <= c < cols {
      tar[offset + c] := src[ptr + Pair(swap, c)];
    }
  }

  /** One pixel after `cols` bytes were stored from (m, n) on. */
  lemma PixelStored(was: seq<byte>, tar: seq<byte>, w: nat, m: nat, n: nat, cols: nat, src: seq<byte>, ptr: nat, v: Variant,
                    y: nat, x: nat, rows: nat)
    requires n + cols <= w && m < rows && Idx(w, rows, 0) <= |tar| == |was|
    requires cols % 2 == 0 && ptr + cols <= |src| && y < rows && x < w
    requires forall p :: 0 <= p < |tar| ==> tar[p] == Stored(was, Idx(w, m, n), cols, src, ptr, v.swap, p)
    ensures if y == m && n <= x < n + cols then TilePixel(tar, w, m, x, src, ptr, m, n, v) else Kept(tar, was, w, y, x)
  {
    IdxBound(w, y, x, rows);
    IdxInLine(w, m, n, cols, y, x);
    assert tar[Idx(w, y, x)] == Stored(was, Idx(w, m, n), cols, src, ptr, v.swap, Idx(w, y, x));
  }

  /** One line of a tile: `cols` bytes from src[ptr..] to the raster at (m, n). */
  method CopyLine(tar: array<byte>, w: nat, m: nat, n: nat, cols: nat, src: seq<byte>, ptr: nat, v: Variant, ghost rows: nat)
    requires n + cols <= w && m < rows && Idx(w, rows, 0) <= tar.Length
    requires cols % 2 == 0 && ptr + cols <= |src|
    modifies tar
    ensures forall x: nat :: n <= x < n + cols ==> TilePixel(tar[..], w, m, x, src, ptr, m, n, v)
    ensures forall y: nat, x: nat :: y < rows && x < w && !(y == m && n <= x < n + cols) ==> Kept(tar[..], old(tar[..]), w, y, x)
    ensures forall p :: Idx(w, rows, 0) <= p < tar.Length ==> tar[p] == old(tar[p])
  {
    MulStrict(m, rows, w);
    StoreLine(tar, Idx(w, m, n), cols, src, ptr, v.swap);
    forall x: nat | n <= x < n + cols ensures TilePixel(tar[..], w, m, x, src, ptr, m, n, v) {
      PixelStored(old(tar[..]), tar[..], w, m, n, cols, src, ptr, v, m, x, rows);
    }
    forall y: nat, x: nat | y < rows && x < w && !(y == m && n <= x < n + cols) ensures Kept(tar[..], old(tar[..]), w, y, x) {
      PixelStored(old(tar[..]), tar[..], w, m, n, cols, src, ptr, v, y, x, rows);
    }
  }

  /** Line l of a tile extends the l lines above it. */
  lemma LineAdded(first: seq<byte>, was: seq<byte>, tar: seq<byte>, w: nat, src: seq<byte>, start: nat, v: Variant,
                  top: nat, left: nat, l: nat, cols: nat, m: nat, ptr: nat, rows: nat)
    requires left + cols <= w && top + l == m < rows && ptr == start + Down(v.skip, l)
    requires forall y: nat, x: nat :: top <= y < top + l && left <= x < left + cols ==> TilePixel(was, w, y, x, src, start, top, left, v)
    requires forall y: nat, x: nat :: y < rows && x < w && !(top <= y < top + l && left <= x < left + cols) ==> Kept(was, first, w, y, x)
    requires forall x: nat :: left <= x < left + cols ==> TilePixel(tar, w, m, x, src, ptr, m, left, v)
    requires forall y: nat, x: nat :: y < rows && x < w && !(y == m && left <= x < left + cols) ==> Kept(tar, was, w, y, x)
    ensures forall y: nat, x: nat :: top <= y < top + l + 1 && left <= x < left + cols ==> TilePixel(tar, w, y, x, src, start, top, left, v)
    ensures forall y: nat, x: nat :: y < rows && x < w && !(top <= y < top + l + 1 && left <= x < left + cols) ==> Kept(tar, first, w, y, x)
  {
    forall y: nat, x: nat | top <= y < top + l + 1 && left <= x < left + cols ensures TilePixel(tar, w, y, x, src, start, top, left, v) {
      if y == top + l {
        assert TilePixel(tar, w, m, x, src, ptr, m, left, v);
      } else {
        assert TilePixel(was, w, y, x, src, start, top, left, v) && Kept(tar, was, w, y, x);
      }
    }
    forall y: nat, x: nat | y < rows && x < w && !(top <= y < top + l + 1 && left <= x < left + cols) ensures Kept(tar, first, w, y, x) {
      assert Kept(was, first, w, y, x) && Kept(tar, was, w, y, x);
    }
  }

  /** The l loop: `n` lines of one tile, and the new value of ptr. */
  method CopyTile(tar: array<byte>, w: nat, top: nat, left: nat, n: nat, cols: nat, src: seq<byte>, start: nat, v: Variant, ghost rows: nat)
    returns (ptr: nat)
    requires left + cols <= w && top + n <= rows && Idx(w, rows, 0) <= tar.Length
    requires cols == 16 || cols == 32
    requires start + Down(v.skip, n) <= |src|
    modifies tar
    ensures ptr == start + Down(v.skip, n)
    ensures forall y: nat, x: nat :: top <= y < top + n && left <= x < left + cols ==> TilePixel(tar[..], w, y, x, src, start, top, left, v)
    ensures forall y: nat, x: nat :: y < rows && x < w && !(top <= y < top + n && left <= x < left + cols) ==>
              Kept(tar[..], old(tar[..]), w, y, x)
    ensures forall p :: Idx(w, rows, 0) <= p < tar.Length ==> tar[p] == old(tar[p])
  {
    forall y: nat, x: nat | y < rows && x < w ensures Kept(tar[..], tar[..], w, y, x) {
      IdxBound(w, y, x, rows);
    }
    ptr := start;
    var l := 0;
    while l < n
      invariant l <= n && ptr == start + Down(v.skip, l)
      invariant forall y: nat, x: nat :: top <= y < top + l && left <= x < left + cols ==> TilePixel(tar[..], w, y, x, src, start, top, left, v)
      invariant forall y: nat, x: nat :: y < rows && x < w && !(top <= y < top + l && left <= x < left + cols) ==>
                  Kept(tar[..], old(tar[..]), w, y, x)
      invariant forall p :: Idx(w, rows, 0) <= p < tar.Length ==> tar[p] == old(tar[p])
    {
      ghost var was := tar[..];
      CopyLine(tar, w, top + l, left, cols, src, ptr, v, rows);
      LineAdded(old(tar[..]), was, tar[..], w, src, start, v, top, left, l, cols, top + l, ptr, rows);
      ptr := ptr + 32;
      if v.skip {
        ptr := ptr + 32;
      }
      l := l + 1;
    }
  }

  /** Where tile j of a line of tiles starts, tiles being 1024 bytes apart, or 992 if `short`. */
  function TileAt(start: nat, j: nat, short: bool): nat {
    if short then start + j * 992 else start + j * 1024
  }

  /** A pair is exchanged only in a tile that is wholly inside the picture. */
  predicate Swapped(v: Variant, w: nat, x: nat) {
    v.swap && x / 32 * 32 + 32 <= w
  }

  /** The source byte of column x on copied line k of a line of tiles that starts at `start`. */
  function InTileLine(w: nat, v: Variant, start: nat, short: bool, k: nat, x: nat): nat {
    TileAt(start, x / 32, short) + Down(v.skip, k) + Pair(Swapped(v, w, x), x % 32)
  }

  /** Column x seen from tile j. */
  lemma InTile(w: nat, v: Variant, start: nat, short: bool, n: nat, k: nat, x: nat, j: nat, pad: nat, cols: nat)
    requires j * 32 <= x < j * 32 + cols && k < n && (cols == 32 || (cols == 16 && j * 32 + cols == w)) && j * 32 + cols <= w
    requires Down(v.skip, n) + pad == if short then 992 else 1024
    ensures InTileLine(w, v, start, short, k, x)
         == TileAt(start, j, short) + Down(v.skip, k) + Pair(v.swap && cols == 32, x - j * 32)
    ensures InTileLine(w, v, start, short, k, x) < start + (j + 1) * 1024
  {
    DivUnique(x, 32, j, x - j * 32);
  }

  /** Pixel (y, x) is copied from a line of tiles that starts at `start` and fills lines `top` on. */
  predicate LinePixel(tar: seq<byte>, w: nat, y: nat, x: nat, src: seq<byte>, v: Variant, start: nat, short: bool, top: nat)
    requires top <= y
  {
    && Idx(w, y, x) < |tar| && InTileLine(w, v, start, short, y - top, x) < |src|
    && tar[Idx(w, y, x)] == src[InTileLine(w, v, start, short, y - top, x)]
  }

  /** Tile j of a line of tiles. */
  method CopyTileAt(tar: array<byte>, w: nat, top: nat, j: nat, n: nat, cols: nat, src: seq<byte>, ghost start: nat,
                    ghost short: bool, at: nat, pad: nat, v: Variant, ghost rows: nat)
    returns (ptr: nat)
    requires top + n <= rows && Idx(w, rows, 0) <= tar.Length && j * 32 + cols <= w
    requires cols == 32 || (cols == 16 && j * 32 + cols == w)
    requires Down(v.skip, n) + pad == (if short then 992 else 1024) && at == TileAt(start, j, short)
    requires start + (j + 1) * 1024 <= |src|
    modifies tar
    ensures ptr == TileAt(start, j + 1, short)
    ensures forall y: nat, x: nat :: top <= y < top + n && j * 32 <= x < j * 32 + cols ==>
              LinePixel(tar[..], w, y, x, src, v, start, short, top)
    ensures forall y: nat, x: nat :: y < rows && x < w && !(top <= y < top + n && j * 32 <= x < j * 32 + cols) ==>
              Kept(tar[..], old(tar[..]), w, y, x)
    ensures forall p :: Idx(w, rows, 0) <= p < tar.Length ==> tar[p] == old(tar[p])
  {
    ptr := CopyTile(tar, w, top, j * 32, n, cols, src, at, if cols == 32 then v else v.(swap := false), rows);
    forall y: nat, x: nat | top <= y < top + n && j * 32 <= x < j * 32 + cols
      ensures LinePixel(tar[..], w, y, x, src, v, start, short, top)
    {
      InTile(w, v, start, short, n, y - top, x, j, pad, cols);
      assert TilePixel(tar[..], w, y, x, src, at, top, j * 32, if cols == 32 then v else v.(swap := false));
    }
    ptr := ptr + pad;
  }

  /** The first `cols` columns of lines top..top+n are in place. */
  ghost predicate ColumnsDone(tar: seq<byte>, w: nat, src: seq<byte>, v: Variant, start: nat, short: bool, top: nat, n: nat, cols: nat) {
    forall y: nat, x: nat :: top <= y < top + n && x < cols ==> LinePixel(tar, w, y, x, src, v, start, short, top)
  }

  ghost predicate OtherLinesKept(tar: seq<byte>, was: seq<byte>, w: nat, top: nat, n: nat, rows: nat) {
    forall y: nat, x: nat :: y < rows && x < w && !(top <= y < top + n) ==> Kept(tar, was, w, y, x)
  }

  /** One more tile extends the columns that are in place. */
  lemma TileAdded(first: seq<byte>, was: seq<byte>, tar: seq<byte>, w: nat, src: seq<byte>, v: Variant, start: nat, short: bool,
                  top: nat, n: nat, left: nat, cols: nat, rows: nat)
    requires left + cols <= w && top + n <= rows
    requires ColumnsDone(was, w, src, v, start, short, top, n, left) && OtherLinesKept(was, first, w, top, n, rows)
    requires forall y: nat, x: nat :: top <= y < top + n && left <= x < left + cols ==> LinePixel(tar, w, y, x, src, v, start, short, top)
    requires forall y: nat, x: nat :: y < rows && x < w && !(top <= y < top + n && left <= x < left + cols) ==> Kept(tar, was, w, y, x)
    ensures ColumnsDone(tar, w, src, v, start, short, top, n, left + cols) && OtherLinesKept(tar, first, w, top, n, rows)
  {
    forall y: nat, x: nat | top <= y < top + n && x < left + cols ensures LinePixel(tar, w, y, x, src, v, start, short, top) {
      if x < left {
        assert LinePixel(was, w, y, x, src, v, start, short, top) && Kept(tar, was, w, y, x);
      }
    }
    forall y: nat, x: nat | y < rows && x < w && !(top <= y < top + n) ensures Kept(tar, first, w, y, x) {
      assert Kept(was, first, w, y, x) && Kept(tar, was, w, y, x);
    }
  }

  function TilesAcross(w: nat): nat { (w + 31) / 32 }

  /** The j loop and the last tile: one line of tiles, `n` lines of it copied, `pad` bytes of
      each tile left over. */
  method CopyTileLine(tar: array<byte>, w: nat, top: nat, n: nat, src: seq<byte>, start: nat, pad: nat, v: Variant,
                      ghost short: bool, ghost rows: nat)
    returns (ptr: nat)
    requires 0 < w && w % 16 == 0 && top + n <= rows && Idx(w, rows, 0) <= tar.Length
    requires Down(v.skip, n) + pad == if short then 992 else 1024
    requires start + TilesAcross(w) * 1024 <= |src|
    modifies tar
    ensures ptr == TileAt(start, TilesAcross(w), short)
    ensures ColumnsDone(tar[..], w, src, v, start, short, top, n, w)
    ensures OtherLinesKept(tar[..], old(tar[..]), w, top, n, rows)
    ensures forall p :: Idx(w, rows, 0) <= p < tar.Length ==> tar[p] == old(tar[p])
  {
    forall y: nat, x: nat | y < rows && x < w ensures Kept(tar[..], tar[..], w, y, x) {
      IdxBound(w, y, x, rows);
    }
    ptr := start;
    var twombWidth := (w + 31) / 32;
    var j := 0;
    while j < twombWidth - 1
      invariant j <= twombWidth - 1 && ptr == TileAt(start, j, short)
      invariant ColumnsDone(tar[..], w, src, v, start, short, top, n, j * 32)
      invariant OtherLinesKept(tar[..], old(tar[..]), w, top, n, rows)
      invariant forall p :: Idx(w, rows, 0) <= p < tar.Length ==> tar[p] == old(tar[p])
    {
      ghost var was := tar[..];
      ptr := CopyTileAt(tar, w, top, j, n, 32, src, start, short, ptr, pad, v, rows);
      TileAdded(old(tar[..]), was, tar[..], w, src, v, start, short, top, n, j * 32, 32, rows);
      j := j + 1;
    }
    // the last tile sticks out of the picture unless the width is a multiple of 32
    var cols := if twombWidth * 32 == w then 32 else 16;
    ghost var was := tar[..];
    ptr := CopyTileAt(tar, w, top, j, n, cols, src, start, short, ptr, pad, v, rows);
    TileAdded(old(tar[..]), was, tar[..], w, src, v, start, short, top, n, j * 32, cols, rows);
  }

  // ---- The whole picture --------------------------------------------------------------------

  function TilesDown(h: nat): nat { (h + 31) / 32 }

  /** Output lines. */
  function Rows(h: nat, skip: bool): nat {
    if skip then h / 2 else h
  }

  function LineStart(w: nat, i: nat): nat {
    MulMonotone(0, i, TilesAcross(w) * 1024);
    i * (TilesAcross(w) * 1024)
  }

  /** In the bottom line of tiles of an odd picture the skipping variants advance 992 bytes a tile. */
  predicate Short(h: nat, skip: bool, i: nat) {
    skip && h % 2 == 1 && i + 1 == TilesDown(h)
  }

  /** The offset of the source byte that pixel (y, x) of the output is copied from. */
  function Source(w: nat, h: nat, v: Variant, y: nat, x: nat): nat {
    var i := y / Lines(v.skip);
    InTileLine(w, v, LineStart(w, i), Short(h, v.skip, i), y % Lines(v.skip), x)
  }

  lemma SourceInLine(w: nat, h: nat, v: Variant, i: nat, n: nat, y: nat, x: nat)
    requires i * Lines(v.skip) <= y < i * Lines(v.skip) + n && n <= Lines(v.skip)
    ensures Source(w, h, v, y, x) == InTileLine(w, v, LineStart(w, i), Short(h, v.skip, i), y - i * Lines(v.skip), x)
  {
    DivUnique(y, Lines(v.skip), i, y - i * Lines(v.skip));
  }

  /** Pixel (y, x) of the output is what Source says. */
  predicate PixelDone(tar: seq<byte>, w: nat, h: nat, src: seq<byte>, v: Variant, y: nat, x: nat) {
    Idx(w, y, x) < |tar| && Source(w, h, v, y, x) < |src| && tar[Idx(w, y, x)] == src[Source(w, h, v, y, x)]
  }

  /** The first `rows` lines of the output are in place. */
  ghost predicate Detiled(tar: seq<byte>, w: nat, h: nat, src: seq<byte>, v: Variant, rows: nat) {
    forall y: nat, x: nat :: y < rows && x < w ==> PixelDone(tar, w, h, src, v, y, x)
  }

  /** Copying one more line of tiles extends the finished part of the picture. */
  lemma LineDone(was: seq<byte>, tar: seq<byte>, w: nat, h: nat, src: seq<byte>, v: Variant,
                 i: nat, top: nat, n: nat, start: nat, short: bool, rows: nat)
    requires top == i * Lines(v.skip) && n <= Lines(v.skip) && start == LineStart(w, i) && short == Short(h, v.skip, i)
    requires Detiled(was, w, h, src, v, top) && top + n <= rows
    requires ColumnsDone(tar, w, src, v, start, short, top, n, w) && OtherLinesKept(tar, was, w, top, n, rows)
    ensures Detiled(tar, w, h, src, v, top + n)
  {
    forall y: nat, x: nat | y < top + n && x < w ensures PixelDone(tar, w, h, src, v, y, x) {
      if top <= y {
        SourceInLine(w, h, v, i, n, y, x);
        assert LinePixel(tar, w, y, x, src, v, start, short, top);
      } else {
        assert PixelDone(was, w, h, src, v, y, x) && Kept(tar, was, w, y, x);
      }
    }
  }

  /** One line of tiles, as a step of the whole picture. */
  method MapTileLine(src: seq<byte>, tar: array<byte>, w: nat, h: nat, v: Variant, i: nat, n: nat, start: nat, pad: nat, ghost rows: nat)
    returns (ptr: nat)
    requires 0 < w && w % 16 == 0 && i < TilesDown(h) && start == LineStart(w, i)
    requires n <= Lines(v.skip) && Down(v.skip, n) + pad == if Short(h, v.skip, i) then 992 else 1024
    requires LineStart(w, TilesDown(h)) <= |src| && i * Lines(v.skip) + n <= rows && Idx(w, rows, 0) <= tar.Length
    requires Detiled(tar[..], w, h, src, v, i * Lines(v.skip))
    modifies tar
    ensures Detiled(tar[..], w, h, src, v, i * Lines(v.skip) + n)
    ensures forall p :: Idx(w, rows, 0) <= p < tar.Length ==> tar[p] == old(tar[p])
    ensures ptr == TileAt(start, TilesAcross(w), Short(h, v.skip, i))
  {
    MulStrict(i, TilesDown(h), TilesAcross(w) * 1024);
    ghost var was, short := tar[..], Short(h, v.skip, i);
    var top := i * Lines(v.skip);
    ptr := CopyTileLine(tar, w, top, n, src, start, pad, v, short, rows);
    LineDone(was, tar[..], w, h, src, v, i, top, n, start, short, rows);
  }

  /** Line i + 1 of tiles starts behind the last tile of line i. */
  lemma NextLineStart(w: nat, i: nat)
    ensures TileAt(LineStart(w, i), TilesAcross(w), false) == LineStart(w, i + 1)
  {
  }

  /** The full lines of tiles and the valid lines of the bottom one make up the picture. */
  lemma BottomLine(h: nat, skip: bool)
    requires 0 < h
    ensures var i := TilesDown(h) - 1;
            var left := h - i * 32;
            var n := if skip then left / 2 else left;
            && 0 <= i && 0 < left <= 32 && n <= Lines(skip) && i * Lines(skip) + n == Rows(h, skip)
            && Down(skip, n) + (32 - left) * 32 == if Short(h, skip, i) then 992 else 1024
  {
  }

  /** map32x32_to_yuv (no skip, no swap) and its three variants. */
  method MapTiles(src: seq<byte>, tar: array<byte>, w: nat, h: nat, v: Variant) returns (ptr: nat)
    requires 0 < w && w % 16 == 0 && 0 < h
    requires LineStart(w, TilesDown(h)) <= |src| && Idx(w, Rows(h, v.skip), 0) <= tar.Length
    modifies tar
    ensures Detiled(tar[..], w, h, src, v, Rows(h, v.skip))
    ensures forall p :: Idx(w, Rows(h, v.skip), 0) <= p < tar.Length ==> tar[p] == old(tar[p])
    ensures ptr == TileAt(LineStart(w, TilesDown(h) - 1), TilesAcross(w), Short(h, v.skip, TilesDown(h) - 1))
  {
    ghost var rows := Rows(h, v.skip);
    BottomLine(h, v.skip);
    var mbHeight := (h + 31) / 32 * 32 / 16;
    var twombLine := (mbHeight + 1) / 2;
    assert twombLine == TilesDown(h);
    ptr := 0;
    var i := 0;
    while i < twombLine - 1
      invariant i <= twombLine - 1 && ptr == LineStart(w, i)
      invariant Detiled(tar[..], w, h, src, v, i * Lines(v.skip))
      invariant forall p :: Idx(w, rows, 0) <= p < tar.Length ==> tar[p] == old(tar[p])
    {
      NextLineStart(w, i);
      ptr := MapTileLine(src, tar, w, h, v, i, Lines(v.skip), ptr, 0, rows);
      i := i + 1;
    }
    var nLeftValidLine := h - (twombLine - 1) * 32;
    var n := if v.skip then nLeftValidLine / 2 else nLeftValidLine;
    ptr := MapTileLine(src, tar, w, h, v, i, n, ptr, (32 - nLeftValidLine) * 32, rows);
  }

  // ---- What the four variants have to do with each other ------------------------------------

  const PLAIN := Variant(false, false)

  /** map32x32_to_yuv: tile (y/32, x/32), and in it offset (y%32)*32 + x%32. */
  lemma PlainSource(w: nat, h: nat, y: nat, x: nat)
    ensures 0 <= y / 32 * TilesAcross(w)
    ensures Source(w, h, PLAIN, y, x) == (y / 32 * TilesAcross(w) + x / 32) * 1024 + y % 32 * 32 + x % 32
  {
    MulMonotone(0, y / 32, TilesAcross(w));
    assert y / 32 * (TilesAcross(w) * 1024) == y / 32 * TilesAcross(w) * 1024;
  }

  lemma SamePlaceOnlyOnce(y: nat, x: nat, y': nat, x': nat)
    requires (y, x) != (y', x')
    ensures (y / 32, x / 32) != (y' / 32, x' / 32) || (y % 32, x % 32) != (y' % 32, x' % 32)
  {
  }

  lemma OffsetsDiffer(t: nat, k: nat, l: nat, t': nat, k': nat, l': nat)
    requires k < 32 && l < 32 && k' < 32 && l' < 32 && (t != t' || (k, l) != (k', l'))
    ensures t * 1024 + k * 32 + l != t' * 1024 + k' * 32 + l'
  {
  }

  lemma TilesDoNotOverlap(across: nat, i: nat, j: nat, i': nat, j': nat)
    requires j < across && j' < across && (i, j) != (i', j')
    ensures i * across + j != i' * across + j'
  {
    if i < i' {
      MulStrict(i, i', across);
    } else if i' < i {
      MulStrict(i', i, across);
    }
  }

  /** What map32x32_to_yuv leaves in its target, spelled out for a picture of w by h. */
  lemma PlainPicture(tar: seq<byte>, w: nat, h: nat, src: seq<byte>, y: nat, x: nat)
    requires Detiled(tar, w, h, src, PLAIN, Rows(h, false)) && y < h && x < w
    ensures var (to, from) := (y * w + x, (y / 32 * ((w + 31) / 32) + x / 32) * 1024 + y % 32 * 32 + x % 32);
            0 <= to < |tar| && 0 <= from < |src| && tar[to] == src[from]
  {
    assert PixelDone(tar, w, h, src, PLAIN, y, x);
    PlainSource(w, h, y, x);
  }

  /** The skipping variants produce half as many lines. */
  lemma LinesProduced(h: nat)
    ensures Rows(h, false) == h && Rows(h, true) == h / 2
  {
  }

  /** Different pixels are stored at different offsets and copied from different bytes: nothing is
      written twice and nothing is used twice. */
  lemma PixelsDoNotOverlap(w: nat, h: nat, y: nat, x: nat, y': nat, x': nat)
    requires x < w && x' < w && (y, x) != (y', x')
    ensures Idx(w, y, x) != Idx(w, y', x')
    ensures Source(w, h, PLAIN, y, x) != Source(w, h, PLAIN, y', x')
  {
    IdxInLine(w, y, x, 1, y', x');
    PlainSource(w, h, y, x);
    PlainSource(w, h, y', x');
    var across := TilesAcross(w);
    var (i, j, k, l) := (y / 32, x / 32, y % 32, x % 32);
    var (i', j', k', l') := (y' / 32, x' / 32, y' % 32, x' % 32);
    SamePlaceOnlyOnce(y, x, y', x');
    if (i, j) != (i', j') {
      TilesDoNotOverlap(across, i, j, i', j');
    }
    OffsetsDiffer(i * across + j, k, l, i' * across + j', k', l');
  }

  predicate SkipAgrees(w: nat, h: nat, swap: bool, y: nat, x: nat) {
    Source(w, h, Variant(true, swap), y, x) == Source(w, h, Variant(false, swap), 2 * y, x)
  }

  lemma SkipAgreesAt(w: nat, h: nat, swap: bool, y: nat, x: nat)
    ensures SkipAgrees(w, h, swap, y, x) <==> !Short(h, true, y / 16) || x < 32
  {
    assert y / 16 == 2 * y / 32;
    assert Down(true, y % 16) == Down(false, 2 * y % 32);
  }

  lemma NoShortLineCopied(h: nat)
    requires h % 32 == 1
    ensures forall y: nat :: y < h / 2 ==> !Short(h, true, y / 16)
  {
  }

  predicate SkipIsExact(w: nat, h: nat) {
    h % 2 == 0 || w <= 32 || h % 32 == 1
  }

  /** Otherwise they drift apart in the second tile of the bottom line. */
  lemma SecondTileDiffers(w: nat, h: nat, swap: bool) returns (y: nat, y': nat)
    requires 0 < w && w % 16 == 0 && 0 < h && !SkipIsExact(w, h)
    ensures y < h / 2 && y' == 2 * y && 32 < w
    ensures Source(w, h, Variant(true, swap), y, 32) != Source(w, h, Variant(false, swap), y', 32)
  {
    y := (TilesDown(h) - 1) * 16;
    y' := 2 * y;
    SkipAgreesAt(w, h, swap, y, 32);
  }

  /** Exactly when the skipping variants read what the full ones read for the even lines: the height
      is even, or there is no second tile to drift in, or the odd bottom line is a tile line of its
      own and copies nothing. */
  lemma SkipSourcesAgreeIff(w: nat, h: nat, swap: bool)
    requires 0 < w && w % 16 == 0 && 0 < h
    ensures (forall y: nat, x: nat :: y < h / 2 && x < w ==> SkipAgrees(w, h, swap, y, x))
       <==> SkipIsExact(w, h)
  {
    forall y: nat, x: nat | y < h / 2 && x < w
      ensures SkipAgrees(w, h, swap, y, x) <==> !Short(h, true, y / 16) || x < 32
    {
      SkipAgreesAt(w, h, swap, y, x);
    }
    if h % 32 == 1 {
      NoShortLineCopied(h);
    }
    if !SkipIsExact(w, h) {
      var y, y' := SecondTileDiffers(w, h, swap);
      assert !SkipAgrees(w, h, swap, y, 32);
    }
  }

  predicate SwapAgrees(w: nat, h: nat, skip: bool, y: nat, x: nat) {
    Source(w, h, Variant(skip, true), y, x) == Source(w, h, Variant(skip, false), y, Pair(true, x))
  }

  lemma PairStaysInTile(x: nat)
    ensures Pair(true, x) / 32 == x / 32 && Pair(true, x) % 32 == Pair(true, x % 32)
  {
    var q, r := x / 32, x % 32;
    assert x == q * 32 + r;
    DivUnique(x, 2, q * 16 + r / 2, r % 2);
    DivUnique(Pair(true, x), 32, q, Pair(true, r));
  }

  lemma SwapAgreesAt(w: nat, h: nat, skip: bool, y: nat, x: nat)
    ensures SwapAgrees(w, h, skip, y, x) <==> x / 32 * 32 + 32 <= w
  {
    PairStaysInTile(x);
  }

  lemma AllTilesWhole(w: nat, x: nat)
    requires w % 32 == 0 && x < w
    ensures x / 32 * 32 + 32 <= w
  {
  }

  lemma LastHalfTile(w: nat)
    requires w % 16 == 0 && w % 32 != 0
    ensures 16 <= w < (w - 16) / 32 * 32 + 32
  {
    var q := w / 32;
    assert w == q * 32 + 16;
    DivUnique(w - 16, 32, q, 0);
  }

  lemma HalfTileDiffers(w: nat, h: nat, skip: bool) returns (x: nat, x': nat)
    requires w % 16 == 0 && w % 32 != 0
    ensures x < w && x' < w && x' == Pair(true, x)
    ensures Source(w, h, Variant(skip, true), 0, x) != Source(w, h, Variant(skip, false), 0, x')
  {
    x := w - 16;
    x' := Pair(true, x);
    SwapAgreesAt(w, h, skip, 0, x);
    LastHalfTile(w);
  }

  /** Exactly when the nv21 variants read what the plain ones read for the other pixel of a pair: a
      last half tile is copied without exchanging. */
  lemma SwapSourcesAgreeIff(w: nat, h: nat, skip: bool)
    requires 0 < w && w % 16 == 0 && 0 < Rows(h, skip)
    ensures (forall y: nat, x: nat :: y < Rows(h, skip) && x < w ==> SwapAgrees(w, h, skip, y, x)) <==> w % 32 == 0
  {
    if w % 32 == 0 {
      forall y: nat, x: nat | y < Rows(h, skip) && x < w ensures SwapAgrees(w, h, skip, y, x) {
        SwapAgreesAt(w, h, skip, y, x);
        AllTilesWhole(w, x);
      }
    } else {
      var x, x' := HalfTileDiffers(w, h, skip);
      assert !SwapAgrees(w, h, skip, 0, x);
    }
  }

  // ---- The same on pictures ----------------------------------------------------------------

  lemma TileOffsetBound(w: nat, v: Variant, start: nat, short: bool, k: nat, x: nat)
    requires k < Lines(v.skip)
    ensures InTileLine(w, v, start, short, k, x) < start + (x / 32 + 1) * 1024
  {
    assert Pair(Swapped(v, w, x), x % 32) < 32;
    assert Down(v.skip, k) <= 992;
  }

  lemma SourceInRange(w: nat, h: nat, v: Variant, y: nat, x: nat)
    requires x < w && y < Rows(h, v.skip)
    ensures Source(w, h, v, y, x) < LineStart(w, TilesDown(h))
  {
    var i := y / Lines(v.skip);
    assert i < TilesDown(h) && x / 32 + 1 <= TilesAcross(w);
    TileOffsetBound(w, v, LineStart(w, i), Short(h, v.skip, i), y % Lines(v.skip), x);
    MulMonotone(x / 32 + 1, TilesAcross(w), 1024);
    MulStrict(i, TilesDown(h), TilesAcross(w) * 1024);
  }

  lemma {:induction false} SomeLine(w: nat, h: nat, src: seq<byte>, v: Variant, y: nat, n: nat) returns (line: seq<byte>)
    requires y < Rows(h, v.skip) && LineStart(w, TilesDown(h)) <= |src| && n <= w
    ensures |line| == n
    ensures forall x: nat :: x < n ==> Source(w, h, v, y, x) < |src| && line[x] == src[Source(w, h, v, y, x)]
  {
    if n == 0 {
      line := [];
    } else {
      line := SomeLine(w, h, src, v, y, n - 1);
      SourceInRange(w, h, v, y, n - 1);
      line := line + [src[Source(w, h, v, y, n - 1)]];
    }
  }

  /** Every source picture has a detiled one. */
  lemma {:induction false} SomeDetiled(w: nat, h: nat, src: seq<byte>, v: Variant, rows: nat) returns (tar: seq<byte>)
    requires rows <= Rows(h, v.skip) && LineStart(w, TilesDown(h)) <= |src|
    ensures |tar| == Idx(w, rows, 0) && Detiled(tar, w, h, src, v, rows)
  {
    if rows == 0 {
      tar := [];
    } else {
      var above := SomeDetiled(w, h, src, v, rows - 1);
      var line := SomeLine(w, h, src, v, rows - 1, w);
      tar := above + line;
      forall y: nat, x: nat | y < rows && x < w ensures PixelDone(tar, w, h, src, v, y, x) {
        IdxBound(w, y, x, rows);
        if y < rows - 1 {
          IdxBound(w, y, x, rows - 1);
          assert PixelDone(above, w, h, src, v, y, x);
        } else {
          assert tar[Idx(w, y, x)] == line[x];
        }
      }
    }
  }

  /** Two offsets can be told apart by a picture that is black save for one pixel. */
  lemma TellApart(w: nat, h: nat, a: nat, b: nat) returns (src: seq<byte>)
    requires a != b && a < LineStart(w, TilesDown(h)) && b < LineStart(w, TilesDown(h))
    ensures |src| == LineStart(w, TilesDown(h)) && src[a] != src[b]
  {
    src := seq(LineStart(w, TilesDown(h)), p => if p == a then 1 else 0);
  }

  /** Pixel (y, x) of one picture is pixel (y', x') of the other. */
  predicate SamePixel(tar: seq<byte>, other: seq<byte>, w: nat, y: nat, x: nat, y': nat, x': nat) {
    Idx(w, y, x) < |tar| && Idx(w, y', x') < |other| && tar[Idx(w, y, x)] == other[Idx(w, y', x')]
  }

  lemma DetiledPixels(w: nat, h: nat, src: seq<byte>, v: Variant, tar: seq<byte>, y: nat, x: nat,
                      v': Variant, other: seq<byte>, y': nat, x': nat)
    requires Detiled(tar, w, h, src, v, Rows(h, v.skip)) && Detiled(other, w, h, src, v', Rows(h, v'.skip))
    requires y < Rows(h, v.skip) && x < w && y' < Rows(h, v'.skip) && x' < w
    ensures Source(w, h, v, y, x) < |src| && Source(w, h, v', y', x') < |src|
    ensures SamePixel(tar, other, w, y, x, y', x') <==> src[Source(w, h, v, y, x)] == src[Source(w, h, v', y', x')]
  {
    assert PixelDone(tar, w, h, src, v, y, x);
    assert PixelDone(other, w, h, src, v', y', x');
  }

  /** If two variants read different bytes for two pixels, some picture shows it. */
  lemma PicturesDiffer(w: nat, h: nat, v: Variant, y: nat, x: nat, v': Variant, y': nat, x': nat)
    returns (src: seq<byte>, tar: seq<byte>, other: seq<byte>)
    requires y < Rows(h, v.skip) && x < w && y' < Rows(h, v'.skip) && x' < w
    requires Source(w, h, v, y, x) != Source(w, h, v', y', x')
    ensures Detiled(tar, w, h, src, v, Rows(h, v.skip)) && Detiled(other, w, h, src, v', Rows(h, v'.skip))
    ensures !SamePixel(tar, other, w, y, x, y', x')
  {
    SourceInRange(w, h, v, y, x);
    SourceInRange(w, h, v', y', x');
    src := TellApart(w, h, Source(w, h, v, y, x), Source(w, h, v', y', x'));
    tar := SomeDetiled(w, h, src, v, Rows(h, v.skip));
    other := SomeDetiled(w, h, src, v', Rows(h, v'.skip));
    DetiledPixels(w, h, src, v, tar, y, x, v', other, y', x');
  }

  /** `tar` is every other line of `full`. */
  ghost predicate EvenLinesOf(tar: seq<byte>, full: seq<byte>, w: nat, h: nat) {
    forall y: nat, x: nat :: y < h / 2 && x < w ==> SamePixel(tar, full, w, y, x, 2 * y, x)
  }

  lemma SkipGivesEvenLines(w: nat, h: nat, swap: bool, src: seq<byte>, tar: seq<byte>, full: seq<byte>)
    requires 0 < w && w % 16 == 0 && 0 < h && SkipIsExact(w, h)
    requires Detiled(tar, w, h, src, Variant(true, swap), h / 2) && Detiled(full, w, h, src, Variant(false, swap), h)
    ensures EvenLinesOf(tar, full, w, h)
  {
    SkipSourcesAgreeIff(w, h, swap);
    forall y: nat, x: nat | y < h / 2 && x < w ensures SamePixel(tar, full, w, y, x, 2 * y, x) {
      DetiledPixels(w, h, src, Variant(true, swap), tar, y, x, Variant(false, swap), full, 2 * y, x);
      assert SkipAgrees(w, h, swap, y, x);
    }
  }

  /** A picture on which the two differ. */
  lemma SkipDrifts(w: nat, h: nat, swap: bool) returns (src: seq<byte>, tar: seq<byte>, full: seq<byte>)
    requires 0 < w && w % 16 == 0 && 0 < h && !SkipIsExact(w, h)
    ensures Detiled(tar, w, h, src, Variant(true, swap), h / 2) && Detiled(full, w, h, src, Variant(false, swap), h)
    ensures !EvenLinesOf(tar, full, w, h)
  {
    var y, y' := SecondTileDiffers(w, h, swap);
    src, tar, full := PicturesDiffer(w, h, Variant(true, swap), y, 32, Variant(false, swap), y', 32);
  }

  /** Main result: skip_oneline is full detiling followed by keeping the even lines, on every
      source picture, exactly for these sizes. */
  lemma SkipKeepsEvenLinesIff(w: nat, h: nat, swap: bool)
    requires 0 < w && w % 16 == 0 && 0 < h
    ensures (forall src, tar, full ::
               Detiled(tar, w, h, src, Variant(true, swap), h / 2) && Detiled(full, w, h, src, Variant(false, swap), h)
               ==> EvenLinesOf(tar, full, w, h))
       <==> SkipIsExact(w, h)
  {
    if SkipIsExact(w, h) {
      forall src, tar, full | Detiled(tar, w, h, src, Variant(true, swap), h / 2) && Detiled(full, w, h, src, Variant(false, swap), h)
        ensures EvenLinesOf(tar, full, w, h)
      {
        SkipGivesEvenLines(w, h, swap, src, tar, full);
      }
    } else {
      var src, tar, full := SkipDrifts(w, h, swap);
    }
  }

  /** `tar` is `plain` with the bytes of every pair exchanged. */
  ghost predicate PairsExchanged(tar: seq<byte>, plain: seq<byte>, w: nat, rows: nat) {
    forall y: nat, x: nat :: y < rows && x < w ==> SamePixel(tar, plain, w, y, x, y, Pair(true, x))
  }

  lemma SwapGivesPairs(w: nat, h: nat, skip: bool, src: seq<byte>, tar: seq<byte>, plain: seq<byte>)
    requires 0 < w && w % 32 == 0 && 0 < Rows(h, skip)
    requires Detiled(tar, w, h, src, Variant(skip, true), Rows(h, skip)) && Detiled(plain, w, h, src, Variant(skip, false), Rows(h, skip))
    ensures PairsExchanged(tar, plain, w, Rows(h, skip))
  {
    SwapSourcesAgreeIff(w, h, skip);
    forall y: nat, x: nat | y < Rows(h, skip) && x < w ensures SamePixel(tar, plain, w, y, x, y, Pair(true, x)) {
      DetiledPixels(w, h, src, Variant(skip, true), tar, y, x, Variant(skip, false), plain, y, Pair(true, x));
      assert SwapAgrees(w, h, skip, y, x);
    }
  }

  /** A picture on which the two differ. */
  lemma HalfTileKeepsPairs(w: nat, h: nat, skip: bool) returns (src: seq<byte>, tar: seq<byte>, plain: seq<byte>)
    requires 0 < w && w % 16 == 0 && w % 32 != 0 && 0 < Rows(h, skip)
    ensures Detiled(tar, w, h, src, Variant(skip, true), Rows(h, skip)) && Detiled(plain, w, h, src, Variant(skip, false), Rows(h, skip))
    ensures !PairsExchanged(tar, plain, w, Rows(h, skip))
  {
    var x, x' := HalfTileDiffers(w, h, skip);
    src, tar, plain := PicturesDiffer(w, h, Variant(skip, true), 0, x, Variant(skip, false), 0, x');
  }

  /** Main result: an nv21 variant is its plain one followed by exchanging the bytes of every pair,
      on every source picture, exactly when no tile is cut in half. */
  lemma SwapExchangesPairsIff(w: nat, h: nat, skip: bool)
    requires 0 < w && w % 16 == 0 && 0 < Rows(h, skip)
    ensures (forall src, tar, plain ::
               Detiled(tar, w, h, src, Variant(skip, true), Rows(h, skip)) && Detiled(plain, w, h, src, Variant(skip, false), Rows(h, skip))
               ==> PairsExchanged(tar, plain, w, Rows(h, skip)))
       <==> w % 32 == 0
  {
    if w % 32 == 0 {
      forall src, tar, plain | Detiled(tar, w, h, src, Variant(skip, true), Rows(h, skip)) && Detiled(plain, w, h, src, Variant(skip, false), Rows(h, skip))
        ensures PairsExchanged(tar, plain, w, Rows(h, skip))
      {
        SwapGivesPairs(w, h, skip, src, tar, plain);
      }
    } else {
      var src, tar, plain := HalfTileKeepsPairs(w, h, skip);
    }
  }

  /** The source pointer ends behind the last tile, 1024 bytes a tile, save that in the bottom line
      of tiles of an odd picture the skipping variants lose 32 bytes a tile. */
  lemma PointerEndsBehindLastTile(w: nat, h: nat, skip: bool)
    requires 0 < h
    ensures TileAt(LineStart(w, TilesDown(h) - 1), TilesAcross(w), Short(h, skip, TilesDown(h) - 1))
         == LineStart(w, TilesDown(h)) - (if skip && h % 2 == 1 then 32 * TilesAcross(w) else 0)
  {
  }
}
