/**
 * A max-heap stored in a growable array, whose tree has branching factor 2
 * on every fourth level (levels 0, 4, 8, ...) and 3 on the others.  Row `l`
 * of the tree occupies the indices `RowStart(l) .. RowStart(l + 1) - 1`,
 * which the constant table `RowIndices` lists.
 *
 * Elements are integers ordered by `<`, standing for the heap's comparator.
 */
module TwoThreeHeap {
  import opened Wrappers

  /** The index of the first element of each level; the last entry is a sentinel no heap reaches. */
  const RowIndices: seq<nat> := [
    0, 1, 3, 9, 27, 81, 189, 513, 1485, 4401, 10233, 27729,
    80217, 237681, 552609, 1497393, 4331745, 12834801, 29840913,
    80859249, 233914257, 693079281,
    1611409329]

  /** The number of levels that hold elements. */
  const Levels: nat := 22

  /** The largest number of elements: the sentinel minus one. */
  const MaxSize: nat := 1611409329 - 1

  /** Rows whose level is a multiple of four branch in two, all others in three. */
  function BranchingFactorForLevel(level: nat): (bf: nat)
    ensures bf == 2 || bf == 3
    ensures bf == 2 <==> level % 4 == 0
  {
    if level % 4 == 0 then 2 else 3
  }

  /** The number of nodes in row `l`: one root, then each row scaled by the branching factor of the row above. */
  function RowWidth(l: nat): (w: nat)
    ensures w >= 1
  {
    if l == 0 then 1
    else if BranchingFactorForLevel(l - 1) == 2 then 2 * RowWidth(l - 1)
    else 3 * RowWidth(l - 1)
  }

  /** The index of the first node of row `l`: the rows are laid out one after another. */
  function RowStart(l: nat): (start: nat)
    ensures l <= start
  {
    if l == 0 then 0 else RowStart(l - 1) + RowWidth(l - 1)
  }

  /** The constant table holds exactly the row starts, and its sentinel is one past the largest size. */
  lemma RowTable()
    ensures |RowIndices| == Levels + 1
    ensures forall l :: 0 <= l < |RowIndices| ==> RowIndices[l] == RowStart(l)
    ensures RowStart(Levels) == MaxSize + 1
  {
    forall l | 0 <= l < |RowIndices| ensures RowIndices[l] == RowStart(l) {
      TableEntry(l);
    }
  }

  /** The widths and starts of all rows, computed one row from the previous. */
  lemma RowValues()
    ensures RowStart(0) == 0 && RowStart(1) == 1 && RowStart(2) == 3 && RowStart(3) == 9
    ensures RowStart(4) == 27 && RowStart(5) == 81 && RowStart(6) == 189 && RowStart(7) == 513
    ensures RowStart(8) == 1485 && RowStart(9) == 4401 && RowStart(10) == 10233 && RowStart(11) == 27729
    ensures RowStart(12) == 80217 && RowStart(13) == 237681 && RowStart(14) == 552609
    ensures RowStart(15) == 1497393 && RowStart(16) == 4331745 && RowStart(17) == 12834801
    ensures RowStart(18) == 29840913 && RowStart(19) == 80859249 && RowStart(20) == 233914257
    ensures RowStart(21) == 693079281 && RowStart(22) == 1611409329
  {
    assert RowWidth(0) == 1 && RowStart(0) == 0;
    assert RowWidth(1) == 2 && RowStart(1) == 1;
    assert RowWidth(2) == 6 && RowStart(2) == 3;
    assert RowWidth(3) == 18 && RowStart(3) == 9;
    assert RowWidth(4) == 54 && RowStart(4) == 27;
    assert RowWidth(5) == 108 && RowStart(5) == 81;
    assert RowWidth(6) == 324 && RowStart(6) == 189;
    assert RowWidth(7) == 972 && RowStart(7) == 513;
    assert RowWidth(8) == 2916 && RowStart(8) == 1485;
    assert RowWidth(9) == 5832 && RowStart(9) == 4401;
    assert RowWidth(10) == 17496 && RowStart(10) == 10233;
    assert RowWidth(11) == 52488 && RowStart(11) == 27729;
    assert RowWidth(12) == 157464 && RowStart(12) == 80217;
    assert RowWidth(13) == 314928 && RowStart(13) == 237681;
    assert RowWidth(14) == 944784 && RowStart(14) == 552609;
    assert RowWidth(15) == 2834352 && RowStart(15) == 1497393;
    assert RowWidth(16) == 8503056 && RowStart(16) == 4331745;
    assert RowWidth(17) == 17006112 && RowStart(17) == 12834801;
    assert RowWidth(18) == 51018336 && RowStart(18) == 29840913;
    assert RowWidth(19) == 153055008 && RowStart(19) == 80859249;
    assert RowWidth(20) == 459165024 && RowStart(20) == 233914257;
    assert RowWidth(21) == 918330048 && RowStart(21) == 693079281;
    assert RowWidth(22) == 2754990144 && RowStart(22) == 1611409329;
  }

  /** One entry of the table. */
  lemma TableEntry(l: nat)
    requires l <= Levels
    ensures RowIndices[l] == RowStart(l)
  {
    RowValues();
    if l == 0 {} else if l == 1 {} else if l == 2 {} else if l == 3 {} else if l == 4 {} else if l == 5 {} else if l == 6 {} else if l == 7 {} else if l == 8 {} else if l == 9 {} else if l == 10 {} else if l == 11 {} else if l == 12 {} else if l == 13 {} else if l == 14 {} else if l == 15 {} else if l == 16 {} else if l == 17 {} else if l == 18 {} else if l == 19 {} else if l == 20 {} else if l == 21 {} else {}
  }

  /** Only the rows below `Levels` start at an index a heap can reach. */
  lemma RowReachable(l: nat)
    requires RowStart(l) <= MaxSize
    ensures l < Levels
  {
    RowTable();
    if Levels <= l {
      RowsMonotone(Levels, l);
    }
  }

  /** Index `i` lies in row `l`. */
  ghost predicate InRow(i: int, l: int) {
    0 <= l < Levels && RowStart(l) <= i < RowStart(l + 1)
  }

  /**
   * The leaf row once an element is appended at index `n`, given the row
   * `l` of the previous last element (-1 for an empty heap): it moves down
   * exactly when `n` starts the next row.
   */
  function LeafLevelAfterPush(n: nat, l: int): (r: int)
    requires n <= MaxSize && (if n == 0 then l == -1 else InRow(n - 1, l))
    ensures InRow(n, r)
  {
    if n == RowStart(l + 1) then
      RowReachable(l + 1);
      l + 1
    else l
  }

  /**
   * The leaf row once the element at index `n`, which lies in row `l`, is
   * removed and others remain: it moves up exactly when `n` started row `l`.
   */
  function LeafLevelAfterPop(n: nat, l: int): (r: int)
    requires 0 < n && InRow(n, l)
    ensures InRow(n - 1, r)
  {
    if RowStart(l) == n then l - 1 else l
  }

  /** Row starts grow with the row number. */
  lemma {:induction false} RowsMonotone(a: nat, b: nat)
    requires a <= b
    ensures RowStart(a) <= RowStart(b)
    ensures a < b ==> RowStart(a) < RowStart(b)
    decreases b - a
  {
    if a < b {
      RowsMonotone(a, b - 1);
    }
  }

  /** Every index lies in at most one row. */
  lemma RowUnique(i: int, l: int, l': int)
    ensures InRow(i, l) && InRow(i, l') ==> l == l'
  {
    if 0 <= l < l' {
      RowsApart(l, l');
    } else if 0 <= l' < l {
      RowsApart(l', l);
    }
  }

  /** A later row starts at or after the end of an earlier one. */
  lemma RowsApart(a: nat, b: nat)
    requires a < b
    ensures RowStart(a + 1) <= RowStart(b)
  {
    RowsMonotone(a + 1, b);
  }

  /** The row of an index, searched downward from row `l`. */
  ghost function LevelFrom(i: nat, l: nat): (r: nat)
    requires i < RowStart(l + 1)
    ensures r <= l && RowStart(r) <= i < RowStart(r + 1)
  {
    if RowStart(l) <= i || l == 0 then l else LevelFrom(i, l - 1)
  }

  /** The row of index `i`. */
  ghost function LevelOf(i: nat): (r: nat)
    requires i <= MaxSize
    ensures InRow(i, r)
  {
    RowTable();
    LevelFrom(i, Levels - 1)
  }

  /** The index of the parent of `index`, which lies in row `level`. */
  function ParentIndex(index: nat, level: nat): nat
    requires 0 < level && RowStart(level) <= index
  {
    var rowIndex := index - RowStart(level);
    // Division by the branching factor, written per factor so that it stays linear arithmetic.
    var parentRowIndex := if BranchingFactorForLevel(level - 1) == 2 then rowIndex / 2 else rowIndex / 3;
    RowStart(level - 1) + parentRowIndex
  }

  /** The range `[first, second)` of possible children of `index`, which lies in row `level`. */
  function ChildrenOf(index: nat, level: nat): (r: (nat, nat))
    requires RowStart(level) <= index
    ensures RowStart(level + 1) <= r.0 && r.1 - r.0 == BranchingFactorForLevel(level)
    ensures index < r.0
  {
    var rowIndex := index - RowStart(level);
    var branchingFactor := BranchingFactorForLevel(level);
    // Scaling by the branching factor, written per factor so that it stays linear arithmetic.
    var firstChild := RowStart(level + 1) + if branchingFactor == 2 then 2 * rowIndex else 3 * rowIndex;
    (firstChild, firstChild + branchingFactor)
  }

  /** The children of a node of row `l` are `BranchingFactorForLevel(l)` nodes of row `l + 1`, and `ParentIndex` maps each back. */
  lemma ChildTile(i: nat, l: nat, c: int)
    requires l < Levels - 1 && InRow(i, l)
    requires ChildrenOf(i, l).0 <= c < ChildrenOf(i, l).1
    ensures ChildrenOf(i, l).1 - ChildrenOf(i, l).0 == BranchingFactorForLevel(l)
    ensures InRow(c, l + 1) && ParentIndex(c, l + 1) == i
  {
    var r := i - RowStart(l);
    var j := c - ChildrenOf(i, l).0;
    if BranchingFactorForLevel(l) == 2 {
      assert c - RowStart(l + 1) == 2 * r + j;
      assert (2 * r + j) / 2 == r;
    } else {
      assert c - RowStart(l + 1) == 3 * r + j;
      assert (3 * r + j) / 3 == r;
    }
  }

  /** The parent of a node of row `l > 0` lies in row `l - 1` and has the node among its children. */
  lemma ParentTile(c: nat, l: nat)
    requires 0 < l && InRow(c, l)
    ensures InRow(ParentIndex(c, l), l - 1)
    ensures ChildrenOf(ParentIndex(c, l), l - 1).0 <= c < ChildrenOf(ParentIndex(c, l), l - 1).1
  {
    var rc := c - RowStart(l);
    var q := rc / BranchingFactorForLevel(l - 1);
    if BranchingFactorForLevel(l - 1) == 2 {
      assert 2 * q <= rc < 2 * q + 2;
    } else {
      assert 3 * q <= rc < 3 * q + 3;
    }
  }

  /** Every index a heap can reach lies in some row. */
  lemma RowExists(i: nat)
    requires i <= MaxSize
    ensures exists l :: InRow(i, l)
  {
    var l := LevelOf(i);
    assert InRow(i, l);
  }

  /**
   * The parent of a non-root index: `ParentIndex` at the row of the index,
   * which is the only row it lies in.
   */
  ghost function Parent(i: nat): (p: nat)
    requires 0 < i <= MaxSize
    ensures p < i
    ensures forall l :: InRow(i, l) ==> 0 < l && p == ParentIndex(i, l) && InRow(p, l - 1)
  {
    RowExists(i);
    var l :| InRow(i, l);
    ParentTile(i, l);
    forall l' | InRow(i, l') ensures l' == l {
      RowUnique(i, l, l');
    }
    ParentIndex(i, l)
  }

  /** An index before the child range of `k` does not have `k` as its parent. */
  lemma NotChildBefore(c: nat, k: nat, row: nat)
    requires InRow(k, row) && 0 < c <= MaxSize && c < ChildrenOf(k, row).0
    ensures Parent(c) != k
  {
    var l := LevelOf(c);
    ParentTile(c, l);
    RowUnique(Parent(c), l - 1, row);
  }

  /** A node whose child range starts past the end has no children. */
  lemma NoChildren(e: seq<int>, k: nat, row: nat)
    requires InRow(k, row) && |e| <= MaxSize && ChildrenOf(k, row).0 >= |e|
    ensures forall c :: 0 < c < |e| ==> Parent(c) != k
  {
    forall c | 0 < c < |e| ensures Parent(c) != k {
      NotChildBefore(c, k, row);
    }
  }

  /**
   * The first largest element among the existing children of `k` is a
   * child of `k` in the next row, and no child of `k` is greater.
   */
  lemma LargestChild(e: seq<int>, k: nat, row: nat)
    requires InRow(k, row) && |e| <= MaxSize && ChildrenOf(k, row).0 < |e|
    ensures var ch := ChildrenOf(k, row);
      var m := MaxElement(e, ch.0, if ch.1 < |e| then ch.1 else |e|);
      k < m && InRow(m, row + 1) && Parent(m) == k &&
      forall c :: 0 < c < |e| && Parent(c) == k ==> e[c] <= e[m]
  {
    var ch := ChildrenOf(k, row);
    var m := MaxElement(e, ch.0, if ch.1 < |e| then ch.1 else |e|);
    RowReachable(row + 1);
    ChildTile(k, row, m);
    forall c | 0 < c < |e| && Parent(c) == k ensures e[c] <= e[m] {
      ChildOfParent(c, k, row);
    }
  }

  /** An index whose parent is `k` lies in the child range of `k`. */
  lemma ChildOfParent(c: nat, k: nat, row: nat)
    requires InRow(k, row) && 0 < c <= MaxSize && Parent(c) == k
    ensures ChildrenOf(k, row).0 <= c < ChildrenOf(k, row).1
  {
    var l := LevelOf(c);
    ParentTile(c, l);
    RowUnique(k, l - 1, row);
  }

  /** The element at `i` is no greater than the one at its parent. */
  ghost predicate HeapEdge(e: seq<int>, i: int) {
    0 < i < |e| <= MaxSize ==> e[i] <= e[Parent(i)]
  }

  /** Heap order: no element is greater than its parent. */
  ghost predicate IsHeap(e: seq<int>) {
    |e| <= MaxSize && forall i :: HeapEdge(e, i)
  }

  /** Heap order except possibly between `k` and its parent (while `k` moves up). */
  ghost predicate HeapExceptAt(e: seq<int>, k: int) {
    |e| <= MaxSize && forall i :: i != k ==> HeapEdge(e, i)
  }

  /** Heap order except possibly between `k` and its children (while `k` moves down). */
  ghost predicate HeapExceptBelow(e: seq<int>, k: int) {
    |e| <= MaxSize && forall i :: 0 < i < |e| && Parent(i) != k ==> HeapEdge(e, i)
  }

  /** The children of `k` are no greater than the parent of `k`. */
  ghost predicate Bridged(e: seq<int>, k: int) {
    0 < k < |e| <= MaxSize ==> forall c :: 0 < c < |e| && Parent(c) == k ==> e[c] <= e[Parent(k)]
  }

  /** `e` with the elements at `a` and `b` exchanged. */
  function Swapped(e: seq<int>, a: nat, b: nat): (r: seq<int>)
    requires a < |e| && b < |e|
    ensures |r| == |e| && multiset(r) == multiset(e)
    ensures r[a] == e[b] && r[b] == e[a]
    ensures forall i :: 0 <= i < |e| && i != a && i != b ==> r[i] == e[i]
  {
    e[a := e[b]][b := e[a]]
  }

  /**
   * Moving the last element of a heap to the root and dropping the old root
   * removes one occurrence of the root and keeps the heap order everywhere
   * except below the new root.
   */
  lemma RootToLast(e: seq<int>)
    requires IsHeap(e) && e != []
    ensures var r := Swapped(e, 0, |e| - 1)[..|e| - 1];
      multiset(r) == multiset(e) - multiset{e[0]} &&
      HeapExceptBelow(r, 0) && Bridged(r, 0)
  {
    var s := Swapped(e, 0, |e| - 1);
    var r := s[..|e| - 1];
    assert s == r + [e[0]];
    forall i | 0 < i < |r| && Parent(i) != 0 ensures HeapEdge(r, i) {
      assert HeapEdge(e, i);
    }
  }

  /** The root of a heap is a maximum. */
  lemma {:induction false} TopIsMax(e: seq<int>, i: nat)
    requires IsHeap(e) && i < |e|
    ensures e[i] <= e[0]
    decreases i
  {
    if i > 0 {
      assert HeapEdge(e, i);
      TopIsMax(e, Parent(i));
    }
  }

  /** Moving `k` above a smaller parent keeps the heap order everywhere except at the parent. */
  lemma SiftUpStep(e: seq<int>, k: nat)
    requires 0 < k < |e| && HeapExceptAt(e, k) && Bridged(e, k) && e[Parent(k)] < e[k]
    ensures HeapExceptAt(Swapped(e, Parent(k), k), Parent(k))
    ensures Bridged(Swapped(e, Parent(k), k), Parent(k))
  {
    var p := Parent(k);
    var e' := Swapped(e, p, k);
    forall i | i != p ensures HeapEdge(e', i) {
      if 0 < i < |e| && i != k {
        assert HeapEdge(e, i);
        if Parent(i) == k {
          assert e'[i] == e[i] <= e[p] == e'[k];
        }
      }
    }
    if 0 < p {
      assert HeapEdge(e, p);
      forall c | 0 < c < |e'| && Parent(c) == p ensures e'[c] <= e'[Parent(p)] {
        if c != k {
          assert HeapEdge(e, c);
        }
      }
    }
  }

  /** Moving `k` below its largest child `m`, which is greater, keeps the heap order everywhere except below `m`. */
  lemma SiftDownStep(e: seq<int>, k: nat, m: nat)
    requires k < m < |e| <= MaxSize && Parent(m) == k && HeapExceptBelow(e, k) && Bridged(e, k) && e[k] < e[m]
    requires forall c :: 0 < c < |e| && Parent(c) == k ==> e[c] <= e[m]
    ensures HeapExceptBelow(Swapped(e, k, m), m)
    ensures Bridged(Swapped(e, k, m), m)
  {
    var e' := Swapped(e, k, m);
    forall i | 0 < i < |e'| && Parent(i) != m ensures HeapEdge(e', i) {
      if i == k {
        assert e'[Parent(k)] == e[Parent(k)];
      } else if i != m && Parent(i) != k {
        assert HeapEdge(e, i);
      }
    }
    forall c | 0 < c < |e'| && Parent(c) == m ensures e'[c] <= e'[Parent(m)] {
      assert HeapEdge(e, c);
    }
  }

  /** Heap order holds once the moving element is no smaller than all its children. */
  lemma SiftDownDone(e: seq<int>, k: nat)
    requires k < |e| && HeapExceptBelow(e, k)
    requires forall c :: 0 < c < |e| && Parent(c) == k ==> e[c] <= e[k]
    ensures IsHeap(e)
  {
    forall i ensures HeapEdge(e, i) {
      if 0 < i < |e| && Parent(i) == k {
        assert e[i] <= e[k];
      }
    }
  }

  /**
   * One round of the bubble-down loop at `k`, in row `row`: with no
   * children, or no child greater than `k`, the heap order holds; otherwise
   * the largest child `m` lies in the next row and swapping it with `k`
   * leaves the heap order broken only below `m`.
   */
  lemma SiftDownAt(e: seq<int>, k: nat, row: nat)
    requires InRow(k, row) && k < |e| && HeapExceptBelow(e, k) && Bridged(e, k)
    ensures ChildrenOf(k, row).0 >= |e| ==> IsHeap(e)
    ensures ChildrenOf(k, row).0 < |e| ==>
      var ch := ChildrenOf(k, row);
      var m := MaxElement(e, ch.0, if ch.1 < |e| then ch.1 else |e|);
      k < m && InRow(m, row + 1) &&
      (!(e[k] < e[m]) ==> IsHeap(e)) &&
      (e[k] < e[m] ==> HeapExceptBelow(Swapped(e, k, m), m) && Bridged(Swapped(e, k, m), m))
  {
    var ch := ChildrenOf(k, row);
    if ch.0 >= |e| {
      NoChildren(e, k, row);
      SiftDownDone(e, k);
    } else {
      var m := MaxElement(e, ch.0, if ch.1 < |e| then ch.1 else |e|);
      LargestChild(e, k, row);
      if !(e[k] < e[m]) {
        SiftDownDone(e, k);
      } else {
        SiftDownStep(e, k, m);
      }
    }
  }

  /** The position of the first largest element of `e[lo..hi]`. */
  function MaxElement(e: seq<int>, lo: nat, hi: nat): (m: nat)
    requires lo < hi <= |e|
    ensures lo <= m < hi
    ensures forall j :: lo <= j < hi ==> e[j] <= e[m]
    ensures forall j :: lo <= j < m ==> e[j] < e[m]
    decreases hi - lo
  {
    if lo + 1 == hi then lo
    else
      var m := MaxElement(e, lo + 1, hi);
      if e[lo] < e[m] then m else lo
  }

  datatype Error = LengthError

  class TwoThreeHeap {
    /** The elements in level order: row `l` holds indices `RowStart(l) .. RowStart(l + 1) - 1`. */
    var elems: seq<int>
    /** The row of the last element, or -1 when the heap is empty. */
    var leafLevel: int

    ghost predicate Valid()
      reads this
    {
      IsHeap(elems) &&
      (leafLevel == -1 <==> |elems| == 0) &&
      (|elems| > 0 ==> InRow(|elems| - 1, leafLevel))
    }

    constructor()
      ensures Valid() && elems == [] && leafLevel == -1
    {
      elems := [];
      leafLevel := -1;
    }

    function Size(): (n: nat)
      reads this
      ensures n == |elems|
    {
      |elems|
    }

    function Empty(): (b: bool)
      reads this
      ensures b <==> |elems| == 0
    {
      |elems| == 0
    }

    /** The largest number of elements the heap can hold. */
    function MaxSizeOf(): (n: nat)
      ensures n == MaxSize
    {
      MaxSize
    }

    /** The root element, which is a maximum. */
    function Top(): (v: int)
      reads this
      requires Valid() && |elems| > 0
      ensures v in elems
      ensures forall i :: 0 <= i < |elems| ==> elems[i] <= v
    {
      assert forall i :: 0 <= i < |elems| ==> elems[i] <= elems[0] by {
        forall i | 0 <= i < |elems| ensures elems[i] <= elems[0] {
          TopIsMax(elems, i);
        }
      }
      elems[0]
    }

    /** Adds `value`, failing when the heap is full, and sifts it up past smaller parents. */
    method Push(value: int) returns (r: Result<(), Error>)
      requires Valid()
      modifies this
      ensures Valid()
      ensures old(|elems|) == MaxSize ==> r == Failure(LengthError) && elems == old(elems) && leafLevel == old(leafLevel)
      ensures old(|elems|) < MaxSize ==> r.Success? && multiset(elems) == multiset(old(elems)) + multiset{value}
    {
      if |elems| == MaxSizeOf() {
        return Failure(LengthError);
      }
      GrowLeaf(value);
      SiftUp();
      return Success(());
    }

    /** The bubble-up loop of `Push`: swaps the last element above its parent while the parent is smaller. */
    method SiftUp()
      requires 0 < |elems| && 0 <= leafLevel && InRow(|elems| - 1, leafLevel)
      requires HeapExceptAt(elems, |elems| - 1) && Bridged(elems, |elems| - 1)
      modifies this
      ensures Valid()
      ensures |elems| == old(|elems|) && multiset(elems) == multiset(old(elems))
    {
      ghost var n, leaf := |elems|, leafLevel;
      var row := leafLevel;
      var index := |elems| - 1;
      ghost var contents := multiset(elems);
      while index != 0
        invariant 0 <= index < |elems| && InRow(index, row)
        invariant |elems| == n && leafLevel == leaf
        invariant multiset(elems) == contents
        invariant HeapExceptAt(elems, index) && Bridged(elems, index)
        decreases index
      {
        var parent := ParentIndex(index, row);
        if !(elems[parent] < elems[index]) {
          break;
        }
        SiftUpStep(elems, index);
        elems := Swapped(elems, parent, index);
        index := parent;
        row := row - 1;
      }
      assert index > 0 ==> HeapEdge(elems, index);
      assert IsHeap(elems) by {
        forall i ensures HeapEdge(elems, i) {
          if i != index {
            assert HeapEdge(elems, i);
          }
        }
      }
    }

    /** Appends `value` as the last leaf and updates the leaf row. */
    method GrowLeaf(value: int)
      requires Valid() && |elems| < MaxSize
      modifies this
      ensures elems == old(elems) + [value]
      ensures 0 <= leafLevel && InRow(|elems| - 1, leafLevel)
      ensures HeapExceptAt(elems, |elems| - 1) && Bridged(elems, |elems| - 1)
    {
      ghost var e := elems;
      elems := elems + [value];
      leafLevel := LeafLevelAfterPush(|elems| - 1, leafLevel);
      forall i | i != |elems| - 1 ensures HeapEdge(elems, i) {
        assert HeapEdge(e, i);
      }
    }

    /** Removes the root, a maximum: moves the last element to the root and sifts it down past its largest child. */
    method Pop()
      requires Valid() && |elems| > 0
      modifies this
      ensures Valid()
      ensures |elems| == old(|elems|) - 1
      ensures multiset(elems) == multiset(old(elems)) - multiset{old(elems)[0]}
      ensures forall i :: 0 <= i < |old(elems)| ==> old(elems)[i] <= old(elems)[0]
    {
      TopIsMaxAll();
      ShrinkLeaf();
      if |elems| == 0 {
        return;
      }
      SiftDown();
    }

    /** The bubble-down loop of `Pop`: swaps the root below its largest child while that child is greater. */
    method SiftDown()
      requires 0 < |elems| && 0 <= leafLevel && InRow(|elems| - 1, leafLevel)
      requires HeapExceptBelow(elems, 0) && Bridged(elems, 0)
      modifies this
      ensures Valid()
      ensures |elems| == old(|elems|) && multiset(elems) == multiset(old(elems))
    {
      ghost var n, leaf := |elems|, leafLevel;
      var row := 0;
      var index := 0;
      ghost var contents := multiset(elems);
      while index < |elems|
        invariant 0 <= index < |elems| && InRow(index, row)
        invariant |elems| == n && leafLevel == leaf
        invariant multiset(elems) == contents
        invariant HeapExceptBelow(elems, index) && Bridged(elems, index)
        decreases |elems| - index
      {
        SiftDownAt(elems, index, row);
        var children := ChildrenOf(index, row);
        if children.0 >= |elems| {
          return;
        }
        var last := if children.1 < |elems| then children.1 else |elems|;
        var maxChildIndex := MaxElement(elems, children.0, last);
        if !(elems[index] < elems[maxChildIndex]) {
          break;
        }
        elems := Swapped(elems, index, maxChildIndex);
        index := maxChildIndex;
        row := row + 1;
      }
    }

    /** The root is a maximum of the current elements. */
    lemma TopIsMaxAll()
      requires Valid()
      ensures forall i :: 0 <= i < |elems| ==> elems[i] <= elems[0]
    {
      forall i | 0 <= i < |elems| ensures elems[i] <= elems[0] {
        TopIsMax(elems, i);
      }
    }

    /** Swaps the root with the last element, drops it, and updates the leaf row. */
    method ShrinkLeaf()
      requires Valid() && |elems| > 0
      modifies this
      ensures |elems| == old(|elems|) - 1
      ensures multiset(elems) == multiset(old(elems)) - multiset{old(elems)[0]}
      ensures |elems| == 0 ==> Valid()
      ensures |elems| > 0 ==> 0 <= leafLevel && InRow(|elems| - 1, leafLevel)
      ensures |elems| > 0 ==> HeapExceptBelow(elems, 0) && Bridged(elems, 0)
    {
      RootToLast(elems);
      elems := Swapped(elems, 0, |elems| - 1);
      elems := elems[..|elems| - 1];
      if |elems| == 0 {
        leafLevel := -1;
        return;
      }
      leafLevel := LeafLevelAfterPop(|elems|, leafLevel);
    }
  }
}
