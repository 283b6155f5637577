/** Pixel buffers of the patch editor: one grey channel of 8-bit intensities.
    A buffer in the heap is an `array2<Byte>` indexed `[row, column]`; its
    value is the `Grid` of its rows. */
module Pixels {

  /** One channel intensity as stored in an `unsigned char`. */
  type Byte = v: int | 0 <= v < 256

  /** Row-major grid of intensities: `g[row][column]`. */
  type Grid = seq<seq<Byte>>

  /** `g` has `h` rows of `w` pixels each. */
  predicate IsGrid(g: Grid, w: nat, h: nat) {
    |g| == h && forall i :: 0 <= i < h ==> |g[i]| == w
  }

  /** The `w` x `h` rectangle with upper-left corner (x, y) lies inside `g`. */
  predicate Fits(g: Grid, x: nat, y: nat, w: nat, h: nat) {
    y + h <= |g| && forall i :: y <= i < y + h ==> x + w <= |g[i]|
  }

  /** The value held by a two-dimensional buffer. */
  ghost function Rows(a: array2<Byte>): (g: Grid)
    reads a
    ensures IsGrid(g, a.Length1, a.Length0)
    ensures forall i, j :: 0 <= i < a.Length0 && 0 <= j < a.Length1 ==> g[i][j] == a[i, j]
  {
    seq(a.Length0, i requires 0 <= i < a.Length0 reads a =>
      seq(a.Length1, j requires 0 <= j < a.Length1 reads a => a[i, j]))
  }

  /** A buffer whose pixels agree with a grid of its shape holds that grid. */
  lemma RowsEqual(a: array2<Byte>, g: Grid)
    requires IsGrid(g, a.Length1, a.Length0)
    requires forall i, j :: 0 <= i < a.Length0 && 0 <= j < a.Length1 ==> a[i, j] == g[i][j]
    ensures Rows(a) == g
  {
    forall i | 0 <= i < a.Length0
      ensures Rows(a)[i] == g[i]
    {
    }
  }

  /** The `w` x `h` rectangle of `img` at (x, y), as a grid of its own. */
  function Region(img: Grid, x: nat, y: nat, w: nat, h: nat): (r: Grid)
    requires Fits(img, x, y, w, h)
    ensures IsGrid(r, w, h)
  {
    seq(h, i requires 0 <= i < h => seq(w, j requires 0 <= j < w => img[y + i][x + j]))
  }

  /** (i, j) lies in the rectangle of width `w` and height `h` at (x, y). */
  predicate InRect(x: nat, y: nat, w: nat, h: nat, i: int, j: int) {
    y <= i < y + h && x <= j < x + w
  }

  /** `img` with the `w` x `h` grid `buf` written over it at (x, y): pixel
      (y + r, x + c) takes `buf[r][c]`, every other pixel keeps its value. */
  function Composite(img: Grid, x: nat, y: nat, w: nat, h: nat, buf: Grid): (r: Grid)
    requires IsGrid(buf, w, h)
    ensures |r| == |img|
    ensures forall i :: 0 <= i < |img| ==> |r[i]| == |img[i]|
  {
    seq(|img|, i requires 0 <= i < |img| =>
      seq(|img[i]|, j requires 0 <= j < |img[i]| =>
        if InRect(x, y, w, h, i, j) then buf[i - y][j - x] else img[i][j]))
  }

  /** Reading back the rectangle just written yields the written buffer. */
  lemma CompositeRegion(img: Grid, x: nat, y: nat, w: nat, h: nat, buf: Grid)
    requires Fits(img, x, y, w, h) && IsGrid(buf, w, h)
    ensures Fits(Composite(img, x, y, w, h, buf), x, y, w, h)
    ensures Region(Composite(img, x, y, w, h, buf), x, y, w, h) == buf
  {
    var out := Composite(img, x, y, w, h, buf);
    assert Fits(out, x, y, w, h);
    forall i | 0 <= i < h
      ensures Region(out, x, y, w, h)[i] == buf[i]
    {
      forall j | 0 <= j < w
        ensures Region(out, x, y, w, h)[i][j] == buf[i][j]
      {
        assert InRect(x, y, w, h, y + i, x + j);
      }
    }
  }

  /** Writing a rectangle's own pixels back over it leaves the image as it was. */
  lemma CompositeOfRegion(img: Grid, x: nat, y: nat, w: nat, h: nat)
    requires Fits(img, x, y, w, h)
    ensures Composite(img, x, y, w, h, Region(img, x, y, w, h)) == img
  {
    var out := Composite(img, x, y, w, h, Region(img, x, y, w, h));
    forall i | 0 <= i < |img|
      ensures out[i] == img[i]
    {
      forall j | 0 <= j < |img[i]|
        ensures out[i][j] == img[i][j]
      {
      }
    }
  }

  /** Of two writes to the same rectangle only the second is visible. */
  lemma CompositeTwice(img: Grid, x: nat, y: nat, w: nat, h: nat, first: Grid, second: Grid)
    requires IsGrid(first, w, h) && IsGrid(second, w, h)
    ensures Composite(Composite(img, x, y, w, h, first), x, y, w, h, second)
         == Composite(img, x, y, w, h, second)
  {
    var once := Composite(img, x, y, w, h, first);
    var twice := Composite(once, x, y, w, h, second);
    var direct := Composite(img, x, y, w, h, second);
    forall i | 0 <= i < |img|
      ensures twice[i] == direct[i]
    {
      forall j | 0 <= j < |img[i]|
        ensures twice[i][j] == direct[i][j]
      {
      }
    }
  }

  /** Writing a snapshot of the rectangle over an image into which `post` was
      written restores the image: the compositor step of an undo that follows
      an apply. */
  lemma RestoreAfterWrite(img: Grid, x: nat, y: nat, w: nat, h: nat, post: Grid)
    requires Fits(img, x, y, w, h) && IsGrid(post, w, h)
    ensures Composite(Composite(img, x, y, w, h, post), x, y, w, h, Region(img, x, y, w, h)) == img
  {
    CompositeTwice(img, x, y, w, h, post, Region(img, x, y, w, h));
    CompositeOfRegion(img, x, y, w, h);
  }
}
