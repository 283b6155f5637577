/** One operation on one patch: the rectangle it covers, the snapshot of
    the rectangle taken before the operation and the buffer the filter
    writes, with the compositor that puts either buffer back into the
    full image. */
module Patch {
  import opened Pixels
  import opened Filters

  class ImageProcess {
    /** Post-operation buffer, `h` rows of `w` pixels; the filter writes it. */
    const patch: array2<Byte>
    /** Snapshot of the rectangle at construction; never written. */
    const oldPatch: array2<Byte>
    const opId: Operation
    /** Upper-left corner and size of the rectangle. */
    const x: nat
    const y: nat
    const w: nat
    const h: nat
    /** Set only by the default constructor. */
    const empty: bool

    ghost predicate Valid() {
      && patch.Length0 == h && patch.Length1 == w
      && oldPatch.Length0 == h && oldPatch.Length1 == w
      && patch != oldPatch
    }

    /** The rectangle lies inside `image`. */
    predicate FitsIn(image: array2<Byte>) {
      x + w <= image.Length1 && y + h <= image.Length0
    }

    /** The default record, returned by a pop on an empty stack. Its
        geometry is zero here; the source leaves it uninitialised. */
    constructor Empty()
      ensures Valid() && empty && w == 0 && h == 0
      ensures fresh(patch) && fresh(oldPatch)
    {
      patch := new Byte[0, 0];
      oldPatch := new Byte[0, 0];
      opId := Sobel;
      x, y, w, h := 0, 0, 0, 0;
      empty := true;
    }

    /** Copies the `width` x `height` rectangle at (xCoord, yCoord) of
        `image` into the post buffer, and the post buffer into the snapshot. */
    constructor (image: array2<Byte>, operation: Operation, xCoord: nat, yCoord: nat, width: nat, height: nat)
      requires xCoord + width <= image.Length1 && yCoord + height <= image.Length0
      ensures Valid() && !empty && FitsIn(image)
      ensures opId == operation && x == xCoord && y == yCoord && w == width && h == height
      ensures fresh(patch) && fresh(oldPatch)
      ensures Fits(Rows(image), x, y, w, h)
      ensures Rows(oldPatch) == Region(Rows(image), x, y, w, h)
      ensures Rows(patch) == Rows(oldPatch)
    {
      var sub := new Byte[height, width]((i, j) reads image =>
        if 0 <= i < height && 0 <= j < width then image[yCoord + i, xCoord + j] else 0);
      var copy := new Byte[height, width]((i, j) reads sub =>
        if 0 <= i < height && 0 <= j < width then sub[i, j] else 0);
      patch := sub;
      oldPatch := copy;
      opId := operation;
      x, y, w, h := xCoord, yCoord, width, height;
      empty := false;
      new;
      assert Fits(Rows(image), x, y, w, h);
      RowsEqual(oldPatch, Region(Rows(image), x, y, w, h));
      RowsEqual(patch, Rows(oldPatch));
    }

    /** Writes the post buffer (`patchMode` non-zero) or the snapshot
        (`patchMode` zero) over the rectangle of `image`, pixel by pixel. */
    method SetPatchImage(image: array2<Byte>, patchMode: int)
      requires Valid() && FitsIn(image) && image != patch && image != oldPatch
      modifies image
      ensures Rows(image) == Composite(old(Rows(image)), x, y, w, h,
                                       if patchMode != 0 then Rows(patch) else Rows(oldPatch))
    {
      var source := if patchMode != 0 then patch else oldPatch;
      ghost var before := Rows(image);
      ghost var buf := Rows(source);
      for row := 0 to h
        invariant Rows(source) == buf
        invariant forall i, j :: 0 <= i < image.Length0 && 0 <= j < image.Length1 ==>
          image[i, j] == if InRect(x, y, w, row, i, j) then buf[i - y][j - x] else before[i][j]
      {
        for col := 0 to w
          invariant Rows(source) == buf
          invariant forall i, j :: 0 <= i < image.Length0 && 0 <= j < image.Length1 ==>
            image[i, j] == if InRect(x, y, w, row, i, j) || InRect(x, y + row, col, 1, i, j)
                           then buf[i - y][j - x] else before[i][j]
        {
          image[y + row, x + col] := source[row, col];
        }
      }
      RowsEqual(image, Composite(before, x, y, w, h, buf));
    }

    /** The smoothing filter: each post pixel becomes the 5 x 5 window sum
        over the snapshot divided by the kernel weight; then the post
        buffer is composited into `image`. */
    method GaussFilter(image: array2<Byte>)
      requires Valid() && FitsIn(image) && image != patch && image != oldPatch
      modifies patch, image
      ensures Rows(patch) == GaussImage(Rows(oldPatch), w, h)
      ensures Rows(image) == Composite(old(Rows(image)), x, y, w, h, Rows(patch))
    {
      var divC := GaussDivisor();
      GaussKernelFacts();
      ghost var src := Rows(oldPatch);
      for row := 0 to h
        invariant unchanged(image) && Rows(oldPatch) == src
        invariant forall i, j :: 0 <= i < row && 0 <= j < w ==> patch[i, j] == GaussAt(src, w, h, j, i)
      {
        for col := 0 to w
          invariant unchanged(image) && Rows(oldPatch) == src
          invariant forall i, j :: 0 <= i < row && 0 <= j < w ==> patch[i, j] == GaussAt(src, w, h, j, i)
          invariant forall j :: 0 <= j < col ==> patch[row, j] == GaussAt(src, w, h, j, row)
        {
          var aux := WindowSum(oldPatch, GAUSS, 2, col, row);
          assert aux / divC == GaussAt(src, w, h, col, row);
          patch[row, col] := aux / divC;
        }
      }
      RowsEqual(patch, GaussImage(src, w, h));
      SetPatchImage(image, 1);
    }

    /** The edge filter: each post pixel becomes the gradient magnitude of
        the 3 x 3 window over the snapshot; then the post buffer is
        composited into `image`. */
    method SobelFilter(image: array2<Byte>)
      requires Valid() && FitsIn(image) && image != patch && image != oldPatch
      modifies patch, image
      ensures Rows(patch) == SobelImage(Rows(oldPatch), w, h)
      ensures Rows(image) == Composite(old(Rows(image)), x, y, w, h, Rows(patch))
    {
      ghost var src := Rows(oldPatch);
      for row := 0 to h
        invariant unchanged(image) && Rows(oldPatch) == src
        invariant forall i, j :: 0 <= i < row && 0 <= j < w ==> patch[i, j] == SobelAt(src, w, h, j, i)
      {
        for col := 0 to w
          invariant unchanged(image) && Rows(oldPatch) == src
          invariant forall i, j :: 0 <= i < row && 0 <= j < w ==> patch[i, j] == SobelAt(src, w, h, j, i)
          invariant forall j :: 0 <= j < col ==> patch[row, j] == SobelAt(src, w, h, j, row)
        {
          var gx, gy := SobelWindow(oldPatch, col, row);
          var res := Magnitude(gx, gy);
          patch[row, col] := res;
        }
      }
      RowsEqual(patch, SobelImage(src, w, h));
      SetPatchImage(image, 1);
    }

    /** Contrast and brightness, in place on the post buffer: each pixel
        becomes `(int)(v * alpha) + beta` stored into an 8-bit channel; the
        test against 255 that follows can never succeed on such a channel. */
    method Contrast(image: array2<Byte>, alpha: real, beta: int)
      requires Valid() && FitsIn(image) && image != patch && image != oldPatch
      modifies patch, image
      ensures Rows(patch) == ContrastGrid(old(Rows(patch)), alpha, beta)
      ensures Rows(image) == Composite(old(Rows(image)), x, y, w, h, Rows(patch))
    {
      ghost var src := Rows(patch);
      for row := 0 to h
        invariant unchanged(image)
        invariant forall i, j :: 0 <= i < h && 0 <= j < w ==>
          patch[i, j] == if i < row then ContrastAt(src[i][j], alpha, beta) else src[i][j]
      {
        for col := 0 to w
          invariant unchanged(image)
          invariant forall i, j :: 0 <= i < h && 0 <= j < w ==>
            patch[i, j] == if i < row || (i == row && j < col) then ContrastAt(src[i][j], alpha, beta) else src[i][j]
        {
          var stored := ContrastPixel(patch[row, col], alpha, beta);
          patch[row, col] := stored;
        }
      }
      RowsEqual(patch, ContrastGrid(src, alpha, beta));
      SetPatchImage(image, 1);
    }

    /** One pixel of the contrast loop: the value is stored into an 8-bit
        channel, so it is kept modulo 256 before the test against 255. */
    static method ContrastPixel(v: Byte, alpha: real, beta: int) returns (stored: Byte)
      ensures stored == ContrastAt(v, alpha, beta)
    {
      var channel: int := (Trunc(v as real * alpha) + beta) % 256;
      if channel > 255 {
        channel := 255;
      }
      stored := channel;
    }

    /** Inversion, in place on the post buffer: each pixel becomes
        `255 ^ v`; then the post buffer is composited into `image`. */
    method NegativeFilter(image: array2<Byte>)
      requires Valid() && FitsIn(image) && image != patch && image != oldPatch
      modifies patch, image
      ensures Rows(patch) == NegateGrid(old(Rows(patch)))
      ensures Rows(image) == Composite(old(Rows(image)), x, y, w, h, Rows(patch))
    {
      ghost var src := Rows(patch);
      for row := 0 to h
        invariant unchanged(image)
        invariant forall i, j :: 0 <= i < h && 0 <= j < w ==>
          patch[i, j] == if i < row then Negate(src[i][j]) else src[i][j]
      {
        for col := 0 to w
          invariant unchanged(image)
          invariant forall i, j :: 0 <= i < h && 0 <= j < w ==>
            patch[i, j] == if i < row || (i == row && j < col) then Negate(src[i][j]) else src[i][j]
        {
          patch[row, col] := Xor(255, patch[row, col], 8);
        }
      }
      RowsEqual(patch, NegateGrid(src));
      SetPatchImage(image, 1);
    }
  }
}
