/** The editing session: one image, the undo and redo histories, and the
    three handlers that move operation records between them. */
module Session {
  import opened Pixels
  import opened Filters
  import opened Patch
  import opened History

  /** The rectangle an apply works on: a selection of width and height
      both 0 stands for the whole image. */
  function SelectedArea(width: nat, height: nat, xs: nat, ys: nat, ws: nat, hs: nat): (r: (nat, nat, nat, nat))
    requires xs + ws <= width && ys + hs <= height
    ensures r.0 + r.2 <= width && r.1 + r.3 <= height
    ensures ws == 0 && hs == 0 ==> forall i, j :: 0 <= i < height && 0 <= j < width ==> InRect(r.0, r.1, r.2, r.3, i, j)
  {
    if ws == 0 && hs == 0 then (0, 0, width, height) else (xs, ys, ws, hs)
  }

  /** A selection whose width or height is non-zero is used as given. */
  lemma SelectedAreaAsGiven(width: nat, height: nat, xs: nat, ys: nat, ws: nat, hs: nat)
    requires xs + ws <= width && ys + hs <= height && (ws != 0 || hs != 0)
    ensures SelectedArea(width, height, xs, ys, ws, hs) == (xs, ys, ws, hs)
  {
  }

  /** A black image of `height` rows of `width` pixels. */
  function Black(width: nat, height: nat): (g: Grid)
    ensures IsGrid(g, width, height)
    ensures forall i, j :: 0 <= i < height && 0 <= j < width ==> g[i][j] == 0
  {
    seq(height, i => seq(width, j => 0))
  }

  /** Inverting the 3 x 3 rectangle at (2, 2) of a black 10 x 10 image makes
      exactly those nine pixels white; writing the snapshot back (undo) gives
      the black image again, and writing the post buffer back once more
      (redo) gives the inverted image again. */
  lemma NegationScenario()
    ensures var img := Black(10, 10);
            var post := NegateGrid(Region(img, 2, 2, 3, 3));
            var applied := Composite(img, 2, 2, 3, 3, post);
            && (forall i, j :: 0 <= i < 10 && 0 <= j < 10 ==>
                  applied[i][j] == if InRect(2, 2, 3, 3, i, j) then 255 else 0)
            && Composite(applied, 2, 2, 3, 3, Region(img, 2, 2, 3, 3)) == img
            && Composite(Composite(applied, 2, 2, 3, 3, Region(img, 2, 2, 3, 3)), 2, 2, 3, 3, post) == applied
  {
    var img := Black(10, 10);
    var pre := Region(img, 2, 2, 3, 3);
    var post := NegateGrid(pre);
    assert IsGrid(post, 3, 3);
    RestoreAfterWrite(img, 2, 2, 3, 3, post);
  }

  class EditingSession {
    /** The image shown in the panel; every handler rewrites it in place. */
    const image: array2<Byte>
    const undoStack: OperationStack
    const redoStack: OperationStack

    /** Every record kept in a history was built over this image. */
    ghost predicate Recorded(s: seq<ImageProcess>) {
      forall r :: r in s ==>
        r.Valid() && !r.empty && r.FitsIn(image) && r.patch != image && r.oldPatch != image
    }

    ghost predicate Valid()
      reads this, undoStack, undoStack.stack, redoStack, redoStack.stack
    {
      && undoStack.Valid() && redoStack.Valid()
      && undoStack != redoStack && undoStack.stack != redoStack.stack
      && Recorded(undoStack.Elements()) && Recorded(redoStack.Elements())
    }

    /** A push of a record built over the image keeps the history recorded. */
    lemma RecordedPushed(s: seq<ImageProcess>, e: ImageProcess)
      requires |s| <= STACKSIZE && Recorded(s)
      requires e.Valid() && !e.empty && e.FitsIn(image) && e.patch != image && e.oldPatch != image
      ensures Recorded(Pushed(s, e))
    {
      forall r | r in Pushed(s, e)
        ensures r.Valid() && !r.empty && r.FitsIn(image) && r.patch != image && r.oldPatch != image
      {
        PushedMembers(s, e, r);
      }
    }

    /** A pop keeps the history recorded. */
    lemma RecordedPopped(s: seq<ImageProcess>)
      requires Recorded(s)
      ensures Recorded(Popped(s))
    {
      forall r | r in Popped(s)
        ensures r.Valid() && !r.empty && r.FitsIn(image) && r.patch != image && r.oldPatch != image
      {
        PoppedMembers(s, r);
      }
    }

    /** A session over `img` starts with both histories empty; it builds
        the two histories itself, so they belong to no one else. */
    constructor (img: array2<Byte>)
      ensures Valid() && image == img
      ensures undoStack.Elements() == [] && redoStack.Elements() == []
      ensures fresh(undoStack) && fresh(redoStack) && fresh(undoStack.stack) && fresh(redoStack.stack)
    {
      image := img;
      undoStack := new OperationStack();
      redoStack := new OperationStack();
    }

    /** Runs the filter a fresh record names on its post buffer, which
        starts as a copy of the snapshot, and composites the result into
        the image. */
    method RunOperation(rec: ImageProcess, alpha: real, beta: int)
      requires rec.Valid() && rec.FitsIn(image) && rec.patch != image && rec.oldPatch != image
      requires Rows(rec.patch) == Rows(rec.oldPatch)
      modifies rec.patch, image
      ensures Rows(rec.patch) == Filtered(rec.opId, Rows(rec.oldPatch), rec.w, rec.h, alpha, beta)
      ensures Rows(image) == Composite(old(Rows(image)), rec.x, rec.y, rec.w, rec.h, Rows(rec.patch))
    {
      match rec.opId {
        case Sobel => rec.SobelFilter(image);
        case Negative => rec.NegativeFilter(image);
        case Gauss => rec.GaussFilter(image);
        case Contrast => rec.Contrast(image, alpha, beta);
      }
    }

    /** Builds the record for the selected rectangle, runs the selected
        filter on it (which composites the result into the image) and
        pushes the record onto the undo history. */
    method Apply(selection: int, xs: nat, ys: nat, ws: nat, hs: nat, alpha: real, beta: int)
      returns (rec: ImageProcess)
      requires Valid() && 0 <= selection < 4
      requires xs + ws <= image.Length1 && ys + hs <= image.Length0
      modifies image, undoStack, undoStack.stack
      ensures Valid() && fresh(rec) && rec.Valid() && rec.FitsIn(image)
      ensures rec.opId == OperationAt(selection)
      ensures (rec.x, rec.y, rec.w, rec.h) == SelectedArea(image.Length1, image.Length0, xs, ys, ws, hs)
      ensures Fits(old(Rows(image)), rec.x, rec.y, rec.w, rec.h)
      ensures Rows(rec.oldPatch) == Region(old(Rows(image)), rec.x, rec.y, rec.w, rec.h)
      ensures Rows(rec.patch) == Filtered(rec.opId, Rows(rec.oldPatch), rec.w, rec.h, alpha, beta)
      ensures Rows(image) == Composite(old(Rows(image)), rec.x, rec.y, rec.w, rec.h, Rows(rec.patch))
      ensures undoStack.Elements() == Pushed(old(undoStack.Elements()), rec)
      ensures redoStack.Elements() == old(redoStack.Elements())
    {
      var operation := OperationAt(selection);
      var (sx, sy, sw, sh) := SelectedArea(image.Length1, image.Length0, xs, ys, ws, hs);
      rec := new ImageProcess(image, operation, sx, sy, sw, sh);
      RunOperation(rec, alpha, beta);
      ghost var before := undoStack.Elements();
      RecordedPushed(before, rec);
      undoStack.Push(rec);
    }

    /** Takes the newest record off the undo history, writes its snapshot
        back over its rectangle and pushes it onto the redo history. */
    method Undo() returns (rec: ImageProcess)
      requires Valid() && undoStack.GetElements() > 0
      modifies image, undoStack, redoStack, redoStack.stack
      ensures Valid() && rec.Valid() && rec.FitsIn(image)
      ensures rec == old(undoStack.Elements())[|old(undoStack.Elements())| - 1]
      ensures Rows(image) == Composite(old(Rows(image)), rec.x, rec.y, rec.w, rec.h, Rows(rec.oldPatch))
      ensures undoStack.Elements() == Popped(old(undoStack.Elements()))
      ensures redoStack.Elements() == Pushed(old(redoStack.Elements()), rec)
    {
      ghost var undone := undoStack.Elements();
      RecordedPopped(undone);
      rec := undoStack.Pop();
      assert rec in undone;
      rec.SetPatchImage(image, 0);
      ghost var before := redoStack.Elements();
      RecordedPushed(before, rec);
      redoStack.Push(rec);
    }

    /** Takes the newest record off the redo history, writes its filtered
        buffer back over its rectangle and pushes it onto the undo history. */
    method Redo() returns (rec: ImageProcess)
      requires Valid() && redoStack.GetElements() > 0
      modifies image, redoStack, undoStack, undoStack.stack
      ensures Valid() && rec.Valid() && rec.FitsIn(image)
      ensures rec == old(redoStack.Elements())[|old(redoStack.Elements())| - 1]
      ensures Rows(image) == Composite(old(Rows(image)), rec.x, rec.y, rec.w, rec.h, Rows(rec.patch))
      ensures redoStack.Elements() == Popped(old(redoStack.Elements()))
      ensures undoStack.Elements() == Pushed(old(undoStack.Elements()), rec)
    {
      ghost var redone := redoStack.Elements();
      RecordedPopped(redone);
      rec := redoStack.Pop();
      assert rec in redone;
      rec.SetPatchImage(image, 1);
      ghost var before := undoStack.Elements();
      RecordedPushed(before, rec);
      undoStack.Push(rec);
    }

    /** An undo right after an apply gives back the image as it was; the
        record sits on the redo history, and the undo history is as before
        (less its oldest record if the apply found it full). */
    method ApplyThenUndo(selection: int, xs: nat, ys: nat, ws: nat, hs: nat, alpha: real, beta: int)
      returns (rec: ImageProcess)
      requires Valid() && 0 <= selection < 4
      requires xs + ws <= image.Length1 && ys + hs <= image.Length0
      modifies image, undoStack, redoStack, undoStack.stack, redoStack.stack
      ensures Valid() && rec.Valid() && rec.FitsIn(image)
      ensures rec.opId == OperationAt(selection)
      ensures (rec.x, rec.y, rec.w, rec.h) == SelectedArea(image.Length1, image.Length0, xs, ys, ws, hs)
      ensures Fits(old(Rows(image)), rec.x, rec.y, rec.w, rec.h)
      ensures Rows(rec.oldPatch) == Region(old(Rows(image)), rec.x, rec.y, rec.w, rec.h)
      ensures Rows(rec.patch) == Filtered(rec.opId, Rows(rec.oldPatch), rec.w, rec.h, alpha, beta)
      ensures Rows(image) == old(Rows(image))
      ensures undoStack.Elements() ==
        if |old(undoStack.Elements())| < STACKSIZE then old(undoStack.Elements()) else old(undoStack.Elements())[1..]
      ensures redoStack.Elements() == Pushed(old(redoStack.Elements()), rec)
    {
      ghost var img0 := Rows(image);
      ghost var undo0 := undoStack.Elements();
      rec := Apply(selection, xs, ys, ws, hs, alpha, beta);
      PushedShape(undo0, rec);
      var undone := Undo();
      assert undone == rec;
      RestoreAfterWrite(img0, rec.x, rec.y, rec.w, rec.h, Rows(rec.patch));
    }

    /** A redo right after that undo brings back the image the apply left,
        and the record is once more the newest one on the undo history. */
    method ApplyUndoRedo(selection: int, xs: nat, ys: nat, ws: nat, hs: nat, alpha: real, beta: int)
      returns (rec: ImageProcess)
      requires Valid() && 0 <= selection < 4
      requires xs + ws <= image.Length1 && ys + hs <= image.Length0
      modifies image, undoStack, redoStack, undoStack.stack, redoStack.stack
      ensures Valid() && rec.Valid() && rec.FitsIn(image)
      ensures rec.opId == OperationAt(selection)
      ensures (rec.x, rec.y, rec.w, rec.h) == SelectedArea(image.Length1, image.Length0, xs, ys, ws, hs)
      ensures Fits(old(Rows(image)), rec.x, rec.y, rec.w, rec.h)
      ensures Rows(rec.oldPatch) == Region(old(Rows(image)), rec.x, rec.y, rec.w, rec.h)
      ensures Rows(rec.patch) == Filtered(rec.opId, Rows(rec.oldPatch), rec.w, rec.h, alpha, beta)
      ensures Rows(image) == Composite(old(Rows(image)), rec.x, rec.y, rec.w, rec.h, Rows(rec.patch))
      ensures undoStack.Elements() == Pushed(old(undoStack.Elements()), rec)
      ensures redoStack.Elements() ==
        if |old(redoStack.Elements())| < STACKSIZE then old(redoStack.Elements()) else old(redoStack.Elements())[1..]
    {
      ghost var undo0 := undoStack.Elements();
      ghost var redo0 := redoStack.Elements();
      rec := ApplyThenUndo(selection, xs, ys, ws, hs, alpha, beta);
      PushedShape(redo0, rec);
      assert rec in redoStack.Elements();
      var redone := Redo();
      assert redone == rec;
      if |undo0| == STACKSIZE {
        assert Pushed(undo0[1..], rec) == undo0[1..] + [rec];
      }
    }
  }

  /** The negation scenario run through a session: on a black 10 x 10 image,
      applying list entry 1 (negative) to the 3 x 3 rectangle at (2, 2), undoing
      it and redoing it leaves exactly those nine pixels white, with the record
      back on the undo history and the redo history empty. */
  method NegationSession() returns (s: EditingSession)
    ensures fresh(s) && s.Valid()
    ensures IsGrid(Rows(s.image), 10, 10)
    ensures forall i, j :: 0 <= i < 10 && 0 <= j < 10 ==>
              Rows(s.image)[i][j] == if InRect(2, 2, 3, 3, i, j) then 255 else 0
    ensures |s.undoStack.Elements()| == 1 && s.redoStack.Elements() == []
  {
    var img := new Byte[10, 10]((i, j) => 0);
    RowsEqual(img, Black(10, 10));
    s := new EditingSession(img);
    var rec := s.ApplyThenUndo(1, 2, 2, 3, 3, 1.0, 0);
    assert Rows(img) == Black(10, 10);
    PushedShape([], rec);
    var redone := s.Redo();
    assert redone == rec;
    NegationScenario();
  }
}
