/**
 * The free operations over whole ternary search trees: the copy
 * constructor and assignment, and the six comparison operators, which
 * walk both trees with their iterators.  Everything here uses a tree only
 * through its public operations and its abstract value `Contents`.
 */
module TernarySearchTreeOps {
  import opened LexOrder
  import opened TrieOrder
  import opened TernarySearchTree

  /** Walk `t` from begin() to end(), collecting the strings in the order of the iteration. */
  method Members(t: Tree) returns (items: seq<string>)
    requires t.Valid()
    ensures items == SortedMembers(t.Contents)
  {
    ghost var A := SortedMembers(t.Contents);
    var it := First(t);
    ghost var k: nat := 0;
    items := [];
    var done := AtEnd(t, it, k);
    while !done
      invariant AtIndex(t, it, A, k)
      invariant done <==> k == |A|
      invariant items == A[..k]
      decreases |A| - k
    {
      TakeSnoc(A, k);
      var s := t.Deref(it);
      items := items + [s];
      it := Advance(t, it, k);
      k := k + 1;
      done := AtEnd(t, it, k);
    }
    TakeFull(A);
  }

  /** A fresh tree holding the given strings, built by inserting them one after another. */
  method FromSeq(items: seq<string>) returns (t: Tree)
    ensures fresh(t) && fresh(t.Repr) && t.Valid()
    ensures t.Contents == Elems(items)
  {
    t := new Tree();
    for k := 0 to |items|
      invariant fresh(t) && fresh(t.Repr) && t.Valid()
      invariant t.Contents == Elems(items[..k])
    {
      TakeOneMore(items, k);
      var _, _ := t.Insert(items[k]);
    }
    TakeFull(items);
  }

  /**
   * The copy constructor (cloneTree): a fresh tree, sharing no node with
   * `rhs`, that holds the same strings.  The copy is built by inserting the
   * members of `rhs`, which yields the same abstract value.
   */
  method Clone(rhs: Tree) returns (t: Tree)
    requires rhs.Valid()
    ensures fresh(t) && fresh(t.Repr) && t.Valid()
    ensures t.Contents == rhs.Contents
  {
    var items := Members(rhs);
    t := FromSeq(items);
    ElemsOfSorted(rhs.Contents);
  }

  /** operator=: copy-and-swap; `lhs` takes the value of `rhs`, which is left as it was. */
  method Assign(lhs: Tree, rhs: Tree)
    requires lhs.Valid() && rhs.Valid()
    modifies lhs
    ensures lhs.Valid() && lhs.Contents == old(rhs.Contents)
    ensures fresh(lhs.Repr)
  {
    var copy := Clone(rhs);
    lhs.Swap(copy);
  }

  /* ------------------------------------------------------------------------ */
  /* Comparisons: lexicographical_compare and equal over the two iterations    */
  /* ------------------------------------------------------------------------ */

  /** The iterator `it` of `t` stands at index `k` of the sorted members `A` (at end() when `k == |A|`). */
  ghost predicate AtIndex(t: Tree, it: Iterator, A: seq<string>, k: nat)
    reads t
  {
    && k <= |A| && t.IsValidIterator(it)
    && (it == t.End() <==> k == |A|)
    && (k < |A| ==> it.str == A[k])
  }

  /** begin() stands at index 0 of the sorted members. */
  lemma BeginAtZero(t: Tree, it: Iterator)
    requires t.IsValidIterator(it)
    requires it == t.End() <==> t.Contents == {}
    requires it != t.End() ==> IsLeast(t.Contents, it.str)
    ensures AtIndex(t, it, SortedMembers(t.Contents), 0)
  {
    var A := SortedMembers(t.Contents);
    if it != t.End() {
      SortedFirst(A, t.Contents, it.str);
    }
  }

  /** operator++ moves from index `k` of the sorted members to index `k + 1`. */
  lemma IncrementAtNext(t: Tree, it: Iterator, r: Iterator, k: nat)
    requires AtIndex(t, it, SortedMembers(t.Contents), k) && it != t.End()
    requires t.IsValidIterator(r)
    requires r == t.End() <==> forall w :: w in t.Contents ==> !Lt(it.str, w)
    requires r != t.End() ==> IsLeastAfter(t.Contents, it.str, r.str, true)
    ensures AtIndex(t, r, SortedMembers(t.Contents), k + 1)
  {
    var A := SortedMembers(t.Contents);
    if r == t.End() {
      SortedLast(A, k);
    } else {
      SortedSuccessor(A, k, r.str);
    }
  }

  /** Two sets have the same sorted enumeration exactly when they are equal. */
  lemma SortedMembersInjective(W: set<string>, V: set<string>)
    ensures SortedMembers(W) == SortedMembers(V) <==> W == V
  {
    if SortedMembers(W) == SortedMembers(V) {
      forall w ensures w in W <==> w in V {
        assert w in W <==> w in SortedMembers(W);
      }
    }
  }

  /** The comparison of trees is a strict total order on their contents. */
  lemma CompareTrichotomy(W: set<string>, V: set<string>)
    ensures W == V || SeqLt(SortedMembers(W), SortedMembers(V)) || SeqLt(SortedMembers(V), SortedMembers(W))
    ensures !(SeqLt(SortedMembers(W), SortedMembers(V)) && SeqLt(SortedMembers(V), SortedMembers(W)))
    ensures !SeqLt(SortedMembers(W), SortedMembers(W))
  {
    SeqLtTrichotomy(SortedMembers(W), SortedMembers(V));
    SortedMembersInjective(W, V);
  }

  /** begin(), read as the position 0 of the sorted members. */
  method First(t: Tree) returns (it: Iterator)
    requires t.Valid()
    ensures AtIndex(t, it, SortedMembers(t.Contents), 0)
  {
    it := t.Begin();
    BeginAtZero(t, it);
  }

  /** operator++, read as a step from position `k` of the sorted members to `k + 1`. */
  method Advance(t: Tree, it: Iterator, ghost k: nat) returns (r: Iterator)
    requires t.Valid() && AtIndex(t, it, SortedMembers(t.Contents), k) && it != t.End()
    ensures AtIndex(t, r, SortedMembers(t.Contents), k + 1)
  {
    r := t.Increment(it);
    IncrementAtNext(t, it, r, k);
  }

  /** `it == end()`, read as having passed every sorted member. */
  method AtEnd(t: Tree, it: Iterator, ghost k: nat) returns (e: bool)
    requires AtIndex(t, it, SortedMembers(t.Contents), k)
    ensures e <==> k == |SortedMembers(t.Contents)|
  {
    t.EqualsEndIffEnd(it);
    e := t.IteratorEquals(it, t.End());
  }

  /** One round of lexicographical_compare: decide at position `k`, or move both iterators on. */
  method CompareStep(a: Tree, b: Tree, i: Iterator, j: Iterator, ghost k: nat)
    returns (decided: bool, r: bool, i': Iterator, j': Iterator)
    requires a.Valid() && b.Valid()
    requires AtIndex(a, i, SortedMembers(a.Contents), k) && AtIndex(b, j, SortedMembers(b.Contents), k)
    requires k < |SortedMembers(a.Contents)|
    ensures decided ==> (r <==> SeqLt(SortedMembers(a.Contents)[k..], SortedMembers(b.Contents)[k..]))
    ensures !decided ==> AtIndex(a, i', SortedMembers(a.Contents), k + 1) && AtIndex(b, j', SortedMembers(b.Contents), k + 1)
    ensures !decided ==>
      (SeqLt(SortedMembers(a.Contents)[k..], SortedMembers(b.Contents)[k..]) <==>
       SeqLt(SortedMembers(a.Contents)[k + 1..], SortedMembers(b.Contents)[k + 1..]))
  {
    SeqLtAt(SortedMembers(a.Contents), SortedMembers(b.Contents), k);
    i', j' := i, j;
    var endB := AtEnd(b, j, k);
    if endB {
      return true, false, i', j';
    }
    var x := a.Deref(i);
    var y := b.Deref(j);
    LtTotal(x, y);
    if Lt(y, x) {
      return true, false, i', j';
    }
    if Lt(x, y) {
      return true, true, i', j';
    }
    i' := Advance(a, i, k);
    j' := Advance(b, j, k);
    decided, r := false, false;
  }

  /** operator<: lexicographical_compare of the two iterations. */
  method Less(a: Tree, b: Tree) returns (r: bool)
    requires a.Valid() && b.Valid()
    ensures r <==> SeqLt(SortedMembers(a.Contents), SortedMembers(b.Contents))
  {
    ghost var A := SortedMembers(a.Contents);
    ghost var B := SortedMembers(b.Contents);
    var i := First(a);
    var j := First(b);
    ghost var k: nat := 0;
    var endA := AtEnd(a, i, k);
    while !endA
      invariant AtIndex(a, i, A, k) && AtIndex(b, j, B, k)
      invariant endA <==> k == |A|
      invariant SeqLt(A, B) <==> SeqLt(A[k..], B[k..])
      decreases |A| - k
    {
      var decided;
      decided, r, i, j := CompareStep(a, b, i, j, k);
      if decided {
        return;
      }
      k := k + 1;
      endA := AtEnd(a, i, k);
    }
    var endB := AtEnd(b, j, k);
    return !endB;
  }

  /** One round of std::equal: compare the entries at position `k` and move both iterators on. */
  method EqualStep(a: Tree, b: Tree, i: Iterator, j: Iterator, ghost k: nat)
    returns (same: bool, i': Iterator, j': Iterator)
    requires a.Valid() && b.Valid()
    requires AtIndex(a, i, SortedMembers(a.Contents), k) && AtIndex(b, j, SortedMembers(b.Contents), k)
    requires k < |SortedMembers(a.Contents)| && k < |SortedMembers(b.Contents)|
    requires SortedMembers(a.Contents)[..k] == SortedMembers(b.Contents)[..k]
    ensures same <==> SortedMembers(a.Contents)[..k + 1] == SortedMembers(b.Contents)[..k + 1]
    ensures same ==> AtIndex(a, i', SortedMembers(a.Contents), k + 1) && AtIndex(b, j', SortedMembers(b.Contents), k + 1)
  {
    AgreeOneMore(SortedMembers(a.Contents), SortedMembers(b.Contents), k);
    i', j' := i, j;
    same := a.Deref(i) == b.Deref(j);
    if same {
      i' := Advance(a, i, k);
      j' := Advance(b, j, k);
    }
  }

  /** operator==: equal sizes and std::equal over the two iterations. */
  method Equal(a: Tree, b: Tree) returns (r: bool)
    requires a.Valid() && b.Valid()
    ensures r <==> a.Contents == b.Contents
  {
    ghost var A := SortedMembers(a.Contents);
    ghost var B := SortedMembers(b.Contents);
    SortedMembersInjective(a.Contents, b.Contents);
    if a.Size() != b.Size() {
      return false;
    }
    assert |A| == |B|;
    var i := First(a);
    var j := First(b);
    ghost var k: nat := 0;
    var endA := AtEnd(a, i, k);
    while !endA
      invariant AtIndex(a, i, A, k) && AtIndex(b, j, B, k)
      invariant endA <==> k == |A|
      invariant |A| == |B| && A[..k] == B[..k]
      decreases |A| - k
    {
      var same;
      same, i, j := EqualStep(a, b, i, j, k);
      if !same {
        return false;
      }
      k := k + 1;
      endA := AtEnd(a, i, k);
    }
    TakeFull(A);
    TakeFull(B);
    return true;
  }

  /** operator<=: !(b < a). */
  method LessEq(a: Tree, b: Tree) returns (r: bool)
    requires a.Valid() && b.Valid()
    ensures r <==> a.Contents == b.Contents || SeqLt(SortedMembers(a.Contents), SortedMembers(b.Contents))
  {
    var gt := Less(b, a);
    CompareTrichotomy(a.Contents, b.Contents);
    r := !gt;
  }

  /** operator!=: !(a == b). */
  method NotEqual(a: Tree, b: Tree) returns (r: bool)
    requires a.Valid() && b.Valid()
    ensures r <==> a.Contents != b.Contents
  {
    var eq := Equal(a, b);
    r := !eq;
  }

  /** operator>=: !(a < b). */
  method GreaterEq(a: Tree, b: Tree) returns (r: bool)
    requires a.Valid() && b.Valid()
    ensures r <==> a.Contents == b.Contents || SeqLt(SortedMembers(b.Contents), SortedMembers(a.Contents))
  {
    var lt := Less(a, b);
    CompareTrichotomy(a.Contents, b.Contents);
    r := !lt;
  }

  /** operator>: b < a. */
  method Greater(a: Tree, b: Tree) returns (r: bool)
    requires a.Valid() && b.Valid()
    ensures r <==> SeqLt(SortedMembers(b.Contents), SortedMembers(a.Contents))
  {
    r := Less(b, a);
  }
}
