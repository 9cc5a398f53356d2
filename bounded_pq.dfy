/**
 * A priority queue holding at most `maximumSize` elements.  Entries are kept
 * sorted by priority, smallest first, as in a multimap from priority to
 * element; when an enqueue overflows the bound, the entry with the largest
 * priority (the last one) is dropped, which may be the one just added.
 *
 * Priorities are integers standing for the source's floating-point values.
 */
module BoundedPriorityQueue {

  /** A priority as `Best`/`Worst` report it: a stored priority, or +infinity for an empty queue. */
  datatype Priority = Finite(p: int) | Infinity

  /** `a` is strictly below `b`; +infinity is above every finite priority and not below itself. */
  predicate Below(a: Priority, b: Priority) {
    a.Finite? && (b.Infinity? || a.p < b.p)
  }

  /** Entries are in non-decreasing order of priority. */
  ghost predicate Sorted<T>(s: seq<(int, T)>) {
    forall i, j :: 0 <= i < j < |s| ==> s[i].0 <= s[j].0
  }

  /** The position after every entry whose priority is at most `p`. */
  function UpperBound<T>(s: seq<(int, T)>, p: int): (k: nat)
    requires Sorted(s)
    ensures k <= |s|
    ensures forall i :: 0 <= i < k ==> s[i].0 <= p
    ensures forall i :: k <= i < |s| ==> p < s[i].0
  {
    if s == [] || s[|s| - 1].0 <= p then |s| else UpperBound(s[..|s| - 1], p)
  }

  /**
   * The multimap's insertion: the new entry goes after every entry of the
   * same or smaller priority.
   */
  function Insert<T>(s: seq<(int, T)>, p: int, v: T): (r: seq<(int, T)>)
    requires Sorted(s)
    ensures |r| == |s| + 1 && r[UpperBound(s, p)] == (p, v)
    ensures forall i :: 0 <= i < UpperBound(s, p) ==> r[i] == s[i]
    ensures forall i :: UpperBound(s, p) < i < |r| ==> r[i] == s[i - 1]
  {
    var k := UpperBound(s, p);
    s[..k] + [(p, v)] + s[k..]
  }

  /** Insertion keeps the entries sorted, adds exactly the new entry, and places it after its equals. */
  lemma InsertSpec<T>(s: seq<(int, T)>, p: int, v: T)
    requires Sorted(s)
    ensures Sorted(Insert(s, p, v))
    ensures multiset(Insert(s, p, v)) == multiset(s) + multiset{(p, v)}
    ensures |Insert(s, p, v)| == |s| + 1
    ensures forall i :: 0 <= i < |s| && s[i].0 <= p ==> Insert(s, p, v)[i] == s[i]
  {
    var k := UpperBound(s, p);
    var r := Insert(s, p, v);
    assert s == s[..k] + s[k..];
    forall i, j | 0 <= i < j < |r| ensures r[i].0 <= r[j].0 {
      if j < k {
        assert r[i] == s[i] && r[j] == s[j];
      } else if j == k {
        assert r[j].0 == p && (i < k ==> r[i] == s[i]);
      } else if i < k {
        assert r[i] == s[i] && r[j] == s[j - 1];
      } else if i == k {
        assert r[i].0 == p && r[j] == s[j - 1];
      } else {
        assert r[i] == s[i - 1] && r[j] == s[j - 1];
      }
    }
    forall i | 0 <= i < |s| && s[i].0 <= p ensures r[i] == s[i] {
      assert i < k;
    }
  }

  /** An entry of priority no smaller than the last one goes at the very end. */
  lemma InsertAtEnd<T>(s: seq<(int, T)>, p: int, v: T)
    requires Sorted(s) && s != [] && s[|s| - 1].0 <= p
    ensures Insert(s, p, v) == s + [(p, v)]
  {
  }

  /** Removing the last entry of a sorted sequence removes an entry of the largest priority. */
  lemma LastIsWorst<T>(s: seq<(int, T)>)
    requires Sorted(s) && s != []
    ensures forall i :: 0 <= i < |s| ==> s[i].0 <= s[|s| - 1].0
    ensures Sorted(s[..|s| - 1])
  {
  }

  class BoundedPQueue<T> {
    /** The entries (priority, element), sorted by priority. */
    var elems: seq<(int, T)>
    /** The largest number of entries the queue keeps. */
    const maximumSize: nat

    ghost predicate Valid()
      reads this
    {
      Sorted(elems) && |elems| <= maximumSize
    }

    constructor(maxSize: nat)
      ensures Valid() && elems == [] && maximumSize == maxSize
    {
      elems := [];
      maximumSize := maxSize;
    }

    function Size(): (n: nat)
      reads this
      ensures n == |elems|
    {
      |elems|
    }

    function Empty(): (b: bool)
      reads this
      ensures b <==> elems == []
    {
      |elems| == 0
    }

    function MaxSize(): (n: nat)
      ensures n == maximumSize
    {
      maximumSize
    }

    /** The smallest stored priority, or +infinity when empty. */
    function Best(): (b: Priority)
      reads this
      requires Valid()
      ensures b.Infinity? <==> elems == []
      ensures b.Finite? ==> (exists i :: 0 <= i < |elems| && elems[i].0 == b.p)
      ensures b.Finite? ==> forall i :: 0 <= i < |elems| ==> b.p <= elems[i].0
    {
      if Empty() then Infinity else Finite(elems[0].0)
    }

    /** The largest stored priority, or +infinity when empty. */
    function Worst(): (w: Priority)
      reads this
      requires Valid()
      ensures w.Infinity? <==> elems == []
      ensures w.Finite? ==> (exists i :: 0 <= i < |elems| && elems[i].0 == w.p)
      ensures w.Finite? ==> forall i :: 0 <= i < |elems| ==> elems[i].0 <= w.p
    {
      if Empty() then Infinity else Finite(elems[|elems| - 1].0)
    }

    /**
     * Adds `value` with `priority`, unless the queue is full and `priority`
     * is above the worst one; on overflow the last entry is dropped.
     */
    method Enqueue(value: T, priority: int)
      requires Valid()
      modifies this
      ensures Valid()
      ensures |old(elems)| == maximumSize && Below(old(Worst()), Finite(priority)) ==> elems == old(elems)
      ensures !(|old(elems)| == maximumSize && Below(old(Worst()), Finite(priority))) ==>
        var all := Insert(old(elems), priority, value);
        elems == if |all| > maximumSize then all[..|all| - 1] else all
      ensures |old(elems)| == maximumSize && (maximumSize == 0 || old(elems)[maximumSize - 1].0 <= priority) ==>
        elems == old(elems)
    {
      if |elems| == maximumSize && Below(Worst(), Finite(priority)) {
        return;
      }
      InsertSpec(elems, priority, value);
      if |elems| > 0 && elems[|elems| - 1].0 <= priority {
        InsertAtEnd(elems, priority, value);
      }
      elems := Insert(elems, priority, value);
      if |elems| > maximumSize {
        LastIsWorst(elems);
        elems := elems[..|elems| - 1];
      }
    }

    /** Removes and returns the element of the first entry, which has the smallest priority. */
    method DequeueMin() returns (v: T)
      requires Valid() && elems != []
      modifies this
      ensures Valid()
      ensures v == old(elems)[0].1 && elems == old(elems)[1..]
      ensures forall i :: 0 <= i < |old(elems)| ==> old(elems)[0].0 <= old(elems)[i].0
    {
      v := elems[0].1;
      elems := elems[1..];
    }
  }
}
