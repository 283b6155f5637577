/** The bounded operation history: a stack of at most STACKSIZE records
    that, when full, drops its oldest record to make room. */
module History {
  import opened Patch

  /** Capacity of each history stack. */
  const STACKSIZE: nat := 10

  // ------------------------------------------------- abstract stack value

  /** The stack (bottom first) after pushing `e` onto `s`: on a full stack
      the bottom record is dropped first. */
  function Pushed<T>(s: seq<T>, e: T): (r: seq<T>)
    requires |s| <= STACKSIZE
    ensures |r| <= STACKSIZE
  {
    if |s| == STACKSIZE then s[1..] + [e] else s + [e]
  }

  /** The stack after removing its top record (nothing to remove when empty). */
  function Popped<T>(s: seq<T>): (r: seq<T>)
    ensures |s| == 0 ==> r == []
    ensures |s| > 0 ==> r + [s[|s| - 1]] == s
  {
    if |s| == 0 then [] else s[..|s| - 1]
  }

  /** At most the STACKSIZE most recent records of `t`, oldest first. */
  function Newest<T>(t: seq<T>): (r: seq<T>)
    ensures |r| <= STACKSIZE
  {
    if |t| <= STACKSIZE then t else t[|t| - STACKSIZE..]
  }

  /** Pushes the records of `es` in order. */
  function PushAll<T>(s: seq<T>, es: seq<T>): (r: seq<T>)
    requires |s| <= STACKSIZE
    ensures |r| <= STACKSIZE
    decreases |es|
  {
    if es == [] then s else PushAll(Pushed(s, es[0]), es[1..])
  }

  /** Push grows a stack that is not full by one and keeps a full one at
      STACKSIZE; the pushed record is on top, and below it are all old
      records except, on a full stack, the oldest. */
  lemma PushedShape<T>(s: seq<T>, e: T)
    requires |s| <= STACKSIZE
    ensures |Pushed(s, e)| == if |s| < STACKSIZE then |s| + 1 else STACKSIZE
    ensures Pushed(s, e)[|Pushed(s, e)| - 1] == e
    ensures Popped(Pushed(s, e)) == if |s| < STACKSIZE then s else s[1..]
  {
    var r := Pushed(s, e);
    assert Popped(r) == r[..|r| - 1];
  }

  /** A record on the stack after a push was pushed or was there before. */
  lemma PushedMembers<T>(s: seq<T>, e: T, a: T)
    requires |s| <= STACKSIZE && a in Pushed(s, e)
    ensures a == e || a in s
  {
    var r := Pushed(s, e);
    var k :| 0 <= k < |r| && r[k] == a;
    if k < |r| - 1 {
      assert a == (if |s| == STACKSIZE then s[k + 1] else s[k]);
    }
  }

  /** A record on the stack after a pop was there before. */
  lemma PoppedMembers<T>(s: seq<T>, a: T)
    requires a in Popped(s)
    ensures a in s
  {
    var k :| 0 <= k < |Popped(s)| && Popped(s)[k] == a;
    assert s[k] == a;
  }

  /** Pushing then popping on a stack that is not full restores it. */
  lemma PushThenPop<T>(s: seq<T>, e: T)
    requires |s| < STACKSIZE
    ensures Popped(Pushed(s, e)) == s
  {
    PushedShape(s, e);
  }

  lemma NewestDropsFront<T>(t: seq<T>, k: nat)
    requires k <= |t| && |t| - k >= STACKSIZE
    ensures Newest(t[k..]) == Newest(t)
  {
    assert t[k..][|t| - k - STACKSIZE..] == t[|t| - STACKSIZE..];
  }

  /** After a series of pushes a stack holds the STACKSIZE most recent
      records, oldest first: eviction loses exactly the oldest ones. */
  lemma {:induction false} PushAllKeepsNewest<T>(s: seq<T>, es: seq<T>)
    requires |s| <= STACKSIZE
    ensures PushAll(s, es) == Newest(s + es)
    decreases |es|
  {
    if es == [] {
      assert s + es == s;
    } else {
      var s' := Pushed(s, es[0]);
      PushAllKeepsNewest(s', es[1..]);
      if |s| == STACKSIZE {
        assert s' + es[1..] == (s + es)[1..];
        NewestDropsFront(s + es, 1);
      } else {
        assert s' + es[1..] == s + es;
      }
    }
  }

  /** Pushing STACKSIZE + 1 records onto an empty stack leaves the last
      STACKSIZE of them, in push order. */
  lemma OverflowDropsOldest<T>(es: seq<T>)
    requires |es| == STACKSIZE + 1
    ensures PushAll([], es) == es[1..]
  {
    PushAllKeepsNewest([], es);
    assert [] + es == es;
  }

  // ------------------------------------------------------- stack in place

  class OperationStack {
    /** The fixed array of records; slots above `top` are stale. */
    const stack: array<ImageProcess>
    /** Index of the top record; -1 when the stack is empty. */
    var top: int

    ghost predicate Valid()
      reads this
    {
      stack.Length == STACKSIZE && -1 <= top < STACKSIZE
    }

    /** The records on the stack, bottom first. */
    ghost function Elements(): (es: seq<ImageProcess>)
      reads this, stack
      requires Valid()
      ensures |es| <= STACKSIZE
    {
      stack[..top + 1]
    }

    constructor ()
      ensures Valid() && Elements() == [] && fresh(stack)
    {
      var blank := new ImageProcess.Empty();
      stack := new ImageProcess[STACKSIZE](_ => blank);
      top := -1;
    }

    /** Number of records on the stack. */
    function GetElements(): (n: int)
      reads this, stack
      requires Valid()
      ensures n == |Elements()|
      ensures 0 <= n <= STACKSIZE
    {
      top + 1
    }

    /** Frees the top slot of a full stack by shifting every record one
        slot down, which drops the bottom record. */
    method FreeStackOverflow()
      requires Valid() && top == STACKSIZE - 1
      modifies this, stack
      ensures Valid() && top == old(top) - 1
      ensures Elements() == old(Elements())[1..]
    {
      for i := 0 to STACKSIZE - 1
        invariant top == old(top)
        invariant forall k :: 0 <= k < i ==> stack[k] == old(stack[k + 1])
        invariant forall k :: i <= k < STACKSIZE ==> stack[k] == old(stack[k])
      {
        stack[i] := stack[i + 1];
      }
      top := top - 1;
    }

    method Push(data: ImageProcess)
      requires Valid()
      modifies this, stack
      ensures Valid()
      ensures Elements() == Pushed(old(Elements()), data)
    {
      if top == STACKSIZE - 1 {
        FreeStackOverflow();
      }
      top := top + 1;
      stack[top] := data;
    }

    /** Removes and returns the top record; on an empty stack, returns a
        fresh default record marked empty and leaves the stack empty. */
    method Pop() returns (topData: ImageProcess)
      requires Valid()
      modifies this
      ensures Valid()
      ensures Elements() == Popped(old(Elements()))
      ensures old(top) == -1 ==> fresh(topData) && topData.empty && topData.Valid()
      ensures old(top) != -1 ==> topData == old(Elements())[old(top)]
    {
      if top == -1 {
        topData := new ImageProcess.Empty();
        return;
      }
      topData := stack[top];
      top := top - 1;
    }
  }
}
