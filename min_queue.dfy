/**
 * A FIFO queue with a `min` query, built from two min-stacks.  New elements
 * are pushed on `mNew`; the front of the queue is the top of `mOld`, which
 * is refilled from `mNew` (reversing it) only when it runs empty.
 *
 * The queue, front first, is `Reverse(mOld) + mNew` (each stack bottom first).
 */
module MinQueue {
  import MS = MinStack

  /** `xs` back to front. */
  function Reverse(xs: seq<int>): (r: seq<int>)
    ensures |r| == |xs|
    ensures forall i :: 0 <= i < |xs| ==> r[i] == xs[|xs| - 1 - i]
  {
    if xs == [] then [] else Reverse(xs[1..]) + [xs[0]]
  }

  /** Reversing keeps the same elements. */
  lemma ReverseElems(xs: seq<int>, v: int)
    ensures v in Reverse(xs) <==> v in xs
  {
    var r := Reverse(xs);
    if v in xs {
      var i :| 0 <= i < |xs| && xs[i] == v;
      assert r[|xs| - 1 - i] == v;
    }
  }

  /** Reversing `xs + [x]` puts `x` in front. */
  lemma ReverseSnoc(xs: seq<int>, x: int)
    ensures Reverse(xs + [x]) == [x] + Reverse(xs)
  {
    var r, r' := Reverse(xs + [x]), [x] + Reverse(xs);
    assert forall i :: 0 <= i < |r| ==> r[i] == r'[i];
  }

  class MinQueue {
    /** The stack new elements are pushed onto. */
    const mNew: MS.MinStack
    /** The stack the front is taken from; its top is the eldest element. */
    const mOld: MS.MinStack

    ghost predicate Valid()
      reads this, mNew, mOld
    {
      mNew != mOld && mNew.Valid() && mOld.Valid()
    }

    /** The queued elements, eldest first. */
    ghost function Contents(): seq<int>
      reads this, mNew, mOld
    {
      Reverse(mOld.Elements()) + mNew.Elements()
    }

    constructor()
      ensures Valid() && Contents() == []
      ensures fresh(mNew) && fresh(mOld)
    {
      mNew := new MS.MinStack();
      mOld := new MS.MinStack();
    }

    function Size(): (n: nat)
      reads this, mNew, mOld
      ensures n == |Contents()|
    {
      mNew.Size() + mOld.Size()
    }

    function Empty(): (b: bool)
      reads this, mNew, mOld
      ensures b <==> Contents() == []
    {
      mNew.Empty() && mOld.Empty()
    }

    /** The least queued element: the smaller of the two stacks' minima, `mNew`'s on a tie. */
    function Min(): (m: int)
      reads this, mNew, mOld
      requires Valid() && Contents() != []
      ensures m in Contents()
      ensures forall i :: 0 <= i < |Contents()| ==> m <= Contents()[i]
    {
      var m :=
        if !mNew.Empty() && !mOld.Empty() then
          if mOld.Min() < mNew.Min() then mOld.Min() else mNew.Min()
        else if !mNew.Empty() then mNew.Min()
        else mOld.Min();
      assert forall v :: v in Reverse(mOld.Elements()) <==> v in mOld.Elements() by {
        forall v { ReverseElems(mOld.Elements(), v); }
      }
      m
    }

    /**
     * Refills `mOld` from `mNew` when `mOld` is empty, one element at a
     * time, so `mNew`'s eldest element ends on top.  The queue is unchanged.
     */
    method MoveIfNecessary()
      requires Valid()
      modifies mNew, mOld
      ensures Valid() && Contents() == old(Contents())
      ensures old(mOld.Elements()) != [] ==> mOld.stack == old(mOld.stack) && mNew.stack == old(mNew.stack)
      ensures old(mOld.Elements()) == [] ==> mNew.Elements() == [] && mOld.Elements() == Reverse(old(mNew.Elements()))
      ensures Contents() != [] ==> mOld.Elements() != []
    {
      if !mOld.Empty() {
        return;
      }
      ghost var moved := mNew.Elements();
      assert moved + Reverse([]) == moved;
      while !mNew.Empty()
        invariant Valid()
        invariant mNew.Elements() + Reverse(mOld.Elements()) == moved
        decreases |mNew.stack|
      {
        ghost var n, o := mNew.Elements(), mOld.Elements();
        var top := mNew.Top();
        mOld.Push(top);
        mNew.Pop();
        ReverseSnoc(o, top);
        assert n == mNew.Elements() + [top];
        assert n + Reverse(o) == mNew.Elements() + Reverse(mOld.Elements());
      }
      assert Reverse(mOld.Elements()) == moved;
      ReverseTwice(mOld.Elements());
    }

    /** The eldest queued element; the queue itself is unchanged. */
    method Front() returns (v: int)
      requires Valid() && Contents() != []
      modifies mNew, mOld
      ensures Valid() && Contents() == old(Contents())
      ensures v == Contents()[0]
    {
      MoveIfNecessary();
      v := mOld.Top();
    }

    /** Removes the eldest queued element. */
    method Dequeue()
      requires Valid() && Contents() != []
      modifies mNew, mOld
      ensures Valid() && Contents() == old(Contents())[1..]
    {
      MoveIfNecessary();
      ghost var o := mOld.Elements();
      mOld.Pop();
      ReverseSnoc(mOld.Elements(), o[|o| - 1]);
      assert o == mOld.Elements() + [o[|o| - 1]];
    }

    /** Appends `x` at the back of the queue. */
    method Enqueue(x: int)
      requires Valid()
      modifies mNew
      ensures Valid() && Contents() == old(Contents()) + [x]
    {
      mNew.Push(x);
    }
  }

  /** Reversing twice gives back the original. */
  lemma ReverseTwice(xs: seq<int>)
    ensures Reverse(Reverse(xs)) == xs
  {
  }
}
