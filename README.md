# Patch editing engine of PyA_Final

This project models the core of a grey-scale image editor (`PyA_Final.cpp`).
The user selects a filter and a rectangle (a patch). The editor copies the
patch, filters the copy, and writes the result back into the image. The record
of the operation goes onto a bounded undo history that holds ten entries; a
second, equally bounded history supports redo.

The modules follow the program's structure:

- `Pixels`: 8-bit intensities (`Byte`) and grids (`Grid`, rows first).
  - `Rows` gives the value held in a two-dimensional buffer.
  - `Region` is the specification of cutting a rectangle out of an image.
  - `Composite` is the specification of writing a buffer back over a rectangle.
  - Alongside them sit the compositor's algebra: read-back, writing the region back over itself, two writes in a row, and restore-after-write.
- `Filters`: the filter kernels and the sliding-window sum, as the code computes it.
  - An out-of-range sample ends the current kernel row (`break`), so no accumulation happens at all when the window's left edge is off the patch.
  - The kernel is applied as a correlation: it is indexed by the offset from the window's corner and never flipped.
  - Each filter has a per-pixel specification with its properties proved: Gauss, Sobel, contrast and negation. The loops that compute the window sums and the Gauss divisor are methods proved against those specifications.
- `Patch`: the class `ImageProcess`.
  - Its immutable geometry, snapshot buffer (`oldPatch`) and post buffer (`patch`) are fields.
  - The constructor copies the patch.
  - `SetPatchImage` writes its pixels into the image.
  - The four filter methods overwrite the post buffer in place and then composite it.
- `History`: the bounded stack as a specification on sequences, including eviction, and the class `OperationStack`. The class keeps a fixed array of ten slots and the index `top`.
- `Session`: the editing session. It holds one image and the two histories, and its handlers are apply, undo and redo. Two client methods prove the round trips:
  - apply then undo gives back the image;
  - apply, undo, redo gives the applied image again.

Behaviours of the code that this model reproduces:

- **Dead contrast clamp.** The contrast result is stored into an `unsigned char` (PyA_Final.cpp:294) before the test `> 255`. The test therefore never succeeds, and values wrap modulo 256 (`Filters.ContrastWraps`: 200 with alpha 1 and beta 100 becomes 44). The comment at PyA_Final.cpp:295 announces value clipping; the stored value wraps instead.
- **Sobel magnitude.** The magnitude is the floor of the square root, cast to 8 bits, so large magnitudes wrap.
- **Untouched redo history.** Apply leaves the redo history as it is.

## Model

| member | source | states |
|---|---|---|
| Pixels.Region | PyA_Final.cpp:46-48 | the snapshot cut out of the image has the rectangle's height and width, pixel (r, c) being image pixel (y + r, x + c) |
| Pixels.Composite | PyA_Final.cpp:119-136 | the compositor's result has the image's shape; inside the rectangle pixel (i, j) takes buffer pixel (i - y, j - x), outside it keeps its value |
| Pixels.CompositeRegion | PyA_Final.cpp:94-140 | after a patch is written into the image, reading the rectangle back yields exactly the written buffer |
| Pixels.CompositeOfRegion | PyA_Final.cpp:94-140 | writing a rectangle's own pixels back over it leaves the image unchanged |
| Pixels.CompositeTwice | PyA_Final.cpp:94-140 | of two writes to the same rectangle, only the second is visible |
| Pixels.RestoreAfterWrite | PyA_Final.cpp:94-140 | cut the rectangle out of an image, write any buffer of its size over it, then write the cut copy back: the result is the original image |
| Filters.OperationAt | PyA_Final.cpp:907-910 | list index 3 selects contrast and indices 0 to 2 select one of the three table filters |
| Filters.IndexOf | PyA_Final.cpp:518-520 | every operation has a list index in 0..3 that selects it |
| Filters.IndexOfOperationAt | PyA_Final.cpp:518-520 | list index and operation determine each other |
| Filters.GaussKernelFacts | PyA_Final.cpp:146-150 | the smoothing kernel is 5 x 5, non-negative and sums to 273 |
| Filters.SobelKernelFacts | PyA_Final.cpp:216-217 | both edge kernels are 3 x 3 and sum to 0 |
| Filters.GaussDivisor | PyA_Final.cpp:158-163 | the loop over the 25 kernel entries, read as one flat array, computes the kernel's total weight |
| Filters.RowTail | PyA_Final.cpp:187-198 | the inner accumulation loop over one window row from column j on: each sample times kernel entry (i - y + c, j - x + c), ending at the first sample outside the patch |
| Filters.WindowTail | PyA_Final.cpp:185-201 | the outer accumulation loop: the rows of the window from row i on, each with the inner loop starting at column x - c |
| Filters.Correlation | PyA_Final.cpp:181-201 | the accumulator for output pixel (x, y): the outer loop started at row y - c |
| Filters.RowTailIsClippedRow | PyA_Final.cpp:185-201 | one kernel row contributes nothing when the window's left edge or the row is off the patch; otherwise it is the weighted sum over the columns from x - c up to the last one inside the patch |
| Filters.CorrelationLeftEdge | PyA_Final.cpp:185-192 | when the window's left edge is off the patch (x < c), the window sum is 0 |
| Filters.CorrelationBounds | PyA_Final.cpp:185-203 | with a non-negative kernel, the window sum lies between 0 and 255 times the kernel weight |
| Filters.CorrelationUniform | PyA_Final.cpp:185-203 | on a uniform patch of value v, a window lying wholly inside the patch sums to v times the kernel weight |
| Filters.WindowSum | PyA_Final.cpp:181-201 | the accumulation loop, break included, returns the window sum defined by the specification |
| Filters.GaussAt | PyA_Final.cpp:203 | the smoothed pixel is the window sum divided by 273, rounded down: 273 * v <= sum < 273 * (v + 1) |
| Filters.GaussImage | PyA_Final.cpp:177-208 | the smoothed patch has the patch's shape, one smoothed pixel per position |
| Filters.GaussLeftColumns | PyA_Final.cpp:177-208 | the smoothing filter outputs 0 in the first two columns of a patch |
| Filters.GaussUniform | PyA_Final.cpp:177-208 | on a uniform patch of value v, smoothing outputs v wherever the whole 5 x 5 window lies inside the patch |
| Filters.FloorSqrt | PyA_Final.cpp:263 | r is the integer square root of n: r * r <= n < (r + 1) * (r + 1) |
| Filters.Magnitude | PyA_Final.cpp:263 | the stored magnitude is the floor square root of gx^2 + gy^2 cast to 8 bits; whenever gx^2 + gy^2 < 256 * 256 no wrap occurs and it is exactly the floor square root |
| Filters.MagnitudeOfZero | PyA_Final.cpp:263 | a zero gradient has magnitude 0 |
| Filters.SobelWindow | PyA_Final.cpp:240-261 | the loop with two accumulators returns the horizontal and vertical window sums defined by the specification |
| Filters.SobelAt | PyA_Final.cpp:237-264 | the edge pixel is the magnitude of the horizontal and vertical window sums |
| Filters.SobelImage | PyA_Final.cpp:237-270 | the edge image has the patch's shape, one edge pixel per position |
| Filters.SobelLeftColumn | PyA_Final.cpp:237-270 | the edge filter outputs 0 in column 0 of a patch |
| Filters.SobelUniform | PyA_Final.cpp:237-270 | on a uniform patch, the edge filter outputs 0 wherever the whole 3 x 3 window lies inside the patch |
| Filters.Trunc | PyA_Final.cpp:294 | the integer conversion truncates toward zero, for both signs |
| Filters.ContrastAt | PyA_Final.cpp:294 | the stored value is congruent modulo 256 to (int)(v * alpha) + beta, and equals it whenever it lies in 0..255 |
| Filters.ContrastIdentityAt | PyA_Final.cpp:294-298 | with alpha 1 and beta 0, a pixel is unchanged |
| Filters.ContrastWraps | PyA_Final.cpp:294-298 | the test against 255 never fires: 200 with alpha 1 and beta 100 is stored as 44 |
| Filters.ContrastGrid | PyA_Final.cpp:289-303 | the contrasted patch has the patch's shape, each pixel mapped on its own |
| Filters.ContrastIdentity | PyA_Final.cpp:289-303 | with alpha 1 and beta 0, the contrast filter leaves the patch unchanged |
| Filters.Xor | PyA_Final.cpp:327 | the exclusive or of the low `bits` bits of two numbers fits in `bits` bits |
| Filters.XorAllOnes | PyA_Final.cpp:327 | exclusive or with the all-ones mask of `bits` bits subtracts the other operand from the mask |
| Filters.Negate | PyA_Final.cpp:327 | `255 ^ v` on a byte is 255 - v |
| Filters.NegateTwice | PyA_Final.cpp:327 | negating a pixel twice gives it back |
| Filters.NegateGrid | PyA_Final.cpp:322-332 | the inverted patch has the patch's shape, each pixel inverted on its own |
| Filters.NegateGridTwice | PyA_Final.cpp:322-332 | inverting a patch twice gives it back |
| Filters.Filtered | PyA_Final.cpp:907-910 | every operation's post buffer has the patch's shape |
| Patch.ImageProcess.Empty | PyA_Final.cpp:41-43 | the default record is flagged empty |
| Patch.ImageProcess.constructor | PyA_Final.cpp:45-55 | the snapshot equals the selected rectangle of the image, and the post buffer starts equal to it; the geometry and operation id are stored |
| Patch.ImageProcess.SetPatchImage | PyA_Final.cpp:94-140 | the image becomes the old image with the post buffer (mode non-zero) or the snapshot (mode 0) written over the rectangle; every other pixel keeps its value |
| Patch.ImageProcess.GaussFilter | PyA_Final.cpp:144-211 | the post buffer becomes the smoothed snapshot, and this is composited into the image |
| Patch.ImageProcess.SobelFilter | PyA_Final.cpp:214-273 | the post buffer becomes the edge image of the snapshot, and this is composited into the image |
| Patch.ImageProcess.Contrast | PyA_Final.cpp:276-306 | every post pixel v becomes ((int)(v * alpha) + beta) mod 256, and the result is composited into the image |
| Patch.ImageProcess.ContrastPixel | PyA_Final.cpp:294-298 | one pixel of the contrast loop, with the test against 255 included, stores ((int)(v * alpha) + beta) mod 256 |
| Patch.ImageProcess.NegativeFilter | PyA_Final.cpp:309-335 | every post pixel v becomes 255 ^ v, and the result is composited into the image |
| History.Pushed | PyA_Final.cpp:366-377 | a push never makes a stack longer than 10 |
| History.Popped | PyA_Final.cpp:381-393 | popping an empty stack leaves it empty; on a non-empty stack it removes exactly the top record |
| History.PushedShape | PyA_Final.cpp:366-377 | a push grows a non-full stack by one and keeps a full one at 10; the pushed record is on top; below it are the old records, less the oldest one if the stack was full |
| History.PushedMembers | PyA_Final.cpp:366-377 | every record on the stack after a push was either pushed or already there |
| History.PoppedMembers | PyA_Final.cpp:381-393 | every record on the stack after a pop was already there |
| History.PushThenPop | PyA_Final.cpp:366-393 | on a stack that is not full, push followed by pop restores the stack |
| History.PushAllKeepsNewest | PyA_Final.cpp:345-377 | after any series of pushes, the stack holds the 10 most recent records in push order |
| History.OverflowDropsOldest | PyA_Final.cpp:345-377 | pushing 11 records onto an empty stack keeps the last 10 of them |
| History.OperationStack.Elements | PyA_Final.cpp:339-342 | the records on the stack are the array slots 0..top, never more than 10 |
| History.OperationStack.constructor | PyA_Final.cpp:354-359 | a new stack is empty |
| History.OperationStack.GetElements | PyA_Final.cpp:361-363 | the count is the number of records on the stack, and lies in 0..10 |
| History.OperationStack.FreeStackOverflow | PyA_Final.cpp:345-351 | on a full stack, shifting the array down by one slot drops the bottom record and keeps the rest in order |
| History.OperationStack.Push | PyA_Final.cpp:366-378 | the records on the stack become the abstract push of the old ones |
| History.OperationStack.Pop | PyA_Final.cpp:381-393 | on a non-empty stack, returns the top record and removes it; on an empty stack, returns a fresh record flagged empty and leaves the stack empty |
| Session.SelectedArea | PyA_Final.cpp:897-904 | the chosen rectangle fits the image; a selection of width 0 and height 0 covers every pixel of the image |
| Session.SelectedAreaAsGiven | PyA_Final.cpp:897-904 | any other selection is used unchanged |
| Session.NegationScenario | PyA_Final.cpp:309-335 | inverting (2, 2, 3, 3) of a black 10 x 10 image whitens exactly those nine pixels; undo gives the black image back; redo gives the inverted image again |
| Session.EditingSession.constructor | PyA_Final.cpp:521-522 | both histories start empty and are new objects owned by the session, so its handlers can run on it |
| Session.EditingSession.RunOperation | PyA_Final.cpp:907-910 | running the operation a record names makes its post buffer the filtered snapshot, and writes that buffer into the image |
| Session.EditingSession.Apply | PyA_Final.cpp:887-915 | the record's snapshot is the selected rectangle of the old image and its post buffer is the selected filter applied to it; the image is the old image with the post buffer composited in; the record is pushed onto the undo history; the redo history is unchanged |
| Session.EditingSession.Undo | PyA_Final.cpp:811-821 | the newest undo record is popped, its snapshot is composited into the image, and it is pushed onto the redo history |
| Session.EditingSession.Redo | PyA_Final.cpp:837-846 | the newest redo record is popped, its post buffer is composited into the image, and it is pushed onto the undo history |
| Session.EditingSession.ApplyThenUndo | PyA_Final.cpp:811-821 | the record carries the selected operation and rectangle, the snapshot of the old image and the filtered snapshot; an undo right after the apply gives back the whole image pixel for pixel; the undo history is as before (less its oldest record if it was full); the record is on the redo history |
| Session.EditingSession.ApplyUndoRedo | PyA_Final.cpp:837-846 | the record carries the selected operation and rectangle, the snapshot of the old image and the filtered snapshot; a redo after that undo gives back the old image with that filtered snapshot composited in, which is the image the apply produced; the record is again on top of the undo history; the redo history is as before (less its oldest record if it was full) |
| Session.NegationSession | PyA_Final.cpp:887-915 | on a new session over a black 10 x 10 image, apply of list entry 1 to (2, 2, 3, 3), then undo, then redo, leave exactly those nine pixels white, one record on the undo history and an empty redo history |

## Left out

- User interface: the panel, painting and scaling, menus, spin-control ranges, button enabling and logging are left out (PyA_Final.cpp:396-727, button enabling at 728-750, the list-selection handler at 856-870, the spin-range handlers at 872-883, and the logging in the handlers). The facts the interface guarantees become preconditions:
  - the selection lies inside the image;
  - a list entry is selected;
  - undo and redo are only invoked on a non-empty history.
- The `printf` on a full stack is output only, and is left out.
- File I/O: opening and saving PGM files, and the timestamped log, are left out. Opening a new image does not clear the histories; that handler is not part of this model.
- wx internals are left out: bitmap and pixel-iterator mechanics, reference counting, and the `wxLogError` branches taken when raw pixel access fails. Buffers are plain two-dimensional arrays. The never-dereferenced iterator move to negative coordinates is not modelled.
- Channels: only the red channel is read, and every write sets red, green and blue to the same value. The model keeps one channel.
- `setOldPatchImage` is declared but never defined, so it is not modelled.
- Getters: `getPatchState`, `getOpID`, `getX`, `getY`, `getWidth` and `getHeight` are the `const` fields `empty`, `opId`, `x`, `y`, `w` and `h` of `Patch.ImageProcess`, read directly.
- Filters.Trunc: the contrast factor alpha is an exact real number, not a double. Rounding of `v * alpha` is therefore not modelled.
- Filters.Magnitude: the square root is the exact integer floor square root. The double `sqrt` agrees with it for every reachable gx² + gy² (at most 2 · 1020²).
- Filters.Magnitude: casting a double of 256 or more to `unsigned char` is formally undefined; the model takes it modulo 256.
- Patch.ImageProcess.Empty: the default record's geometry is left uninitialised by the code; the model sets it to 0. Undo and redo never write such a record back, because they are only invoked on a non-empty history.
- History.OperationStack: records are stored by value in the code and by reference here. The buffers of a record are no longer written once it is pushed, so the two agree.
- Image updates: every handler modifies the image array in place. The source builds a new bitmap and hands it to the panel, and the visible result is the same.
