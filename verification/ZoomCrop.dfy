/** calculateCrop: the centred crop rectangle of a digital zoom step. */
module ZoomCrop {
  import opened Arith

  /** Inclusive pixel bounds, as the driver's Rect. */
  class Rect {
    var left: int
    var top: int
    var right: int
    var bottom: int

    constructor () {
      left, top, right, bottom := 0, 0, 0, 0;
    }
  }

  /** The zoom ratio in percent: 100 at no zoom, 300 at full zoom. */
  function Ratio(zoom: nat, maxZoom: nat): (r: nat)
    requires 0 < maxZoom
    ensures 100 <= r
  {
    zoom * 2 * 100 / maxZoom + 100
  }

  lemma RatioMonotone(zoom: nat, zoom': nat, maxZoom: nat)
    requires zoom <= zoom' && 0 < maxZoom
    ensures Ratio(zoom, maxZoom) <= Ratio(zoom', maxZoom)
    ensures Ratio(0, maxZoom) == 100 && Ratio(maxZoom, maxZoom) == 300
  {
    DivMonotone(zoom * 200, zoom' * 200, maxZoom);
    DivUnique(0, maxZoom, 0, 0);
    DivUnique(maxZoom * 200, maxZoom, 200, 0);
  }

  /** How many of `size` pixels the zoom keeps along one axis. */
  function Kept(size: nat, zoom: nat, maxZoom: nat): nat {
    if maxZoom == 0 then size else size * 100 / Ratio(zoom, maxZoom)
  }

  lemma KeptBounds(size: nat, zoom: nat, maxZoom: nat)
    ensures Kept(size, zoom, maxZoom) <= size
    ensures zoom == 0 ==> Kept(size, zoom, maxZoom) == size
    ensures zoom <= maxZoom && 3 <= size ==> 1 <= Kept(size, zoom, maxZoom)
    ensures zoom == maxZoom != 0 ==> Kept(size, zoom, maxZoom) == size / 3
  {
    if maxZoom != 0 {
      DivAntitone(size * 100, 100, Ratio(zoom, maxZoom));
      RatioMonotone(0, zoom, maxZoom);
      if zoom <= maxZoom {
        RatioMonotone(zoom, maxZoom, maxZoom);
        DivAntitone(size * 100, Ratio(zoom, maxZoom), 300);
      }
    }
  }

  /** The law of the zoom, up to its two truncations: at zoom z of m, 1 / (1 + 2 * z / m) of a side is kept. */
  predicate Magnified(size: nat, k: int, zoom: nat, maxZoom: nat) {
    && k * (200 * zoom + 99 * maxZoom) <= 100 * size * maxZoom
    && 100 * size * maxZoom < (k + 1) * (200 * zoom + 100 * maxZoom)
  }

  lemma ScaledBy(r: int, maxZoom: nat, k: nat, size: nat, a: int, b: int)
    requires k * r <= 100 * size < (k + 1) * r && a <= r * maxZoom <= b && 0 < maxZoom
    ensures k * a <= 100 * size * maxZoom < (k + 1) * b
  {
    MulMonotone(a, r * maxZoom, k);
    MulMonotone(r * maxZoom, b, k + 1);
    MulMonotone(k * r, 100 * size, maxZoom);
    MulStrict(100 * size, (k + 1) * r, maxZoom);
    assert k * r * maxZoom == r * maxZoom * k && (k + 1) * r * maxZoom == r * maxZoom * (k + 1);
  }

  lemma KeptIsMagnified(size: nat, zoom: nat, maxZoom: nat)
    requires 0 < maxZoom
    ensures Magnified(size, Kept(size, zoom, maxZoom), zoom, maxZoom)
  {
    var r, k := Ratio(zoom, maxZoom), Kept(size, zoom, maxZoom);
    Quotient(zoom * 200, maxZoom);
    Quotient(size * 100, r);
    ScaledBy(r, maxZoom, k, size, 200 * zoom + 99 * maxZoom, 200 * zoom + 100 * maxZoom);
  }

  /** [lo, hi] is a segment of `kept` pixels (empty when hi == lo - 1) inside [0, size),
      centred to within one pixel. */
  predicate Centred(lo: int, hi: int, size: nat, kept: nat) {
    && 0 <= lo && hi < size
    && hi - lo + 1 == kept
    && 0 <= (size - 1 - hi) - lo <= 1
  }

  /** A larger zoom's segment lies inside a smaller zoom's. */
  lemma LargerZoomIsInside(size: nat, zoom: nat, zoom': nat, maxZoom: nat, lo: int, hi: int, lo': int, hi': int)
    requires zoom <= zoom'
    requires Centred(lo, hi, size, Kept(size, zoom, maxZoom))
    requires Centred(lo', hi', size, Kept(size, zoom', maxZoom))
    ensures lo <= lo' && hi' <= hi
  {
    if maxZoom != 0 {
      RatioMonotone(zoom, zoom', maxZoom);
      DivAntitone(size * 100, Ratio(zoom, maxZoom), Ratio(zoom', maxZoom));
    }
  }

  /** The crop stays inside the frame and centred; it is the whole frame at zoom 0, one
      third of each side at full zoom, and never empty in between. */
  method CalculateCrop(rect: Rect, newZoom: nat, maxZoom: nat, width: nat, height: nat)
    modifies rect
    ensures Centred(rect.left, rect.right, width, Kept(width, newZoom, maxZoom))
    ensures Centred(rect.top, rect.bottom, height, Kept(height, newZoom, maxZoom))
    ensures 0 < maxZoom ==>
              && Magnified(width, rect.right - rect.left + 1, newZoom, maxZoom)
              && Magnified(height, rect.bottom - rect.top + 1, newZoom, maxZoom)
    ensures newZoom == 0 || maxZoom == 0 ==>
              rect.left == rect.top == 0 && rect.right == width - 1 && rect.bottom == height - 1
    ensures newZoom == maxZoom != 0 ==>
              rect.right - rect.left + 1 == width / 3 && rect.bottom - rect.top + 1 == height / 3
    ensures newZoom <= maxZoom && 3 <= width && 3 <= height ==>
              rect.left <= rect.right && rect.top <= rect.bottom
  {
    KeptBounds(width, newZoom, maxZoom);
    KeptBounds(height, newZoom, maxZoom);
    if maxZoom == 0 {
      rect.left := 0;
      rect.top := 0;
      rect.right := width - 1;
      rect.bottom := height - 1;
    } else {
      KeptIsMagnified(width, newZoom, maxZoom);
      KeptIsMagnified(height, newZoom, maxZoom);
      var newRatio := newZoom * 2 * 100 / maxZoom + 100;
      rect.left := (width - width * 100 / newRatio) / 2;
      rect.top := (height - height * 100 / newRatio) / 2;
      rect.right := rect.left + width * 100 / newRatio - 1;
      rect.bottom := rect.top + height * 100 / newRatio - 1;
    }
  }
}
