/**
 * A LIFO stack with constant-time `min`.  Every entry carries, next to its
 * value, the index of the minimum among the entries at or below it, so the
 * minimum of the whole stack is read through the top entry's index.
 *
 * Elements are integers ordered by `<`, standing for the stack's comparator.
 */
module MinStack {

  /** One entry: the pushed value and the index of the minimum at or below it. */
  datatype Entry = Entry(value: int, minIndex: nat)

  /** The values of a sequence of entries, bottom first. */
  function Values(s: seq<Entry>): seq<int> {
    seq(|s|, i requires 0 <= i < |s| => s[i].value)
  }

  /** Value `j` among the first `n` is no smaller than value `m`, and larger when it lies below `m`. */
  ghost predicate NotBelow(xs: seq<int>, n: nat, m: nat, j: int) {
    0 <= j < n <= |xs| && m < |xs| ==> xs[m] <= xs[j] && (j < m ==> xs[m] < xs[j])
  }

  /**
   * `m` is the eldest minimum of the first `n` values of `xs`: no value
   * among them is smaller, and every value below index `m` is larger.
   */
  ghost predicate IsEldestMin(xs: seq<int>, n: nat, m: nat) {
    m < n <= |xs| && forall j :: NotBelow(xs, n, m, j)
  }

  /** Entry `i` names the eldest minimum at or below it. */
  ghost predicate EntryValid(s: seq<Entry>, i: int) {
    0 <= i < |s| ==> IsEldestMin(Values(s), i + 1, s[i].minIndex)
  }

  /** The stored index of every entry names the eldest minimum at or below it. */
  ghost predicate ValidEntries(s: seq<Entry>) {
    forall i :: EntryValid(s, i)
  }

  /** A range of values has exactly one eldest minimum. */
  lemma EldestMinUnique(xs: seq<int>, n: nat, m: nat, m': nat)
    requires IsEldestMin(xs, n, m) && IsEldestMin(xs, n, m')
    ensures m == m'
  {
    assert NotBelow(xs, n, m, m') && NotBelow(xs, n, m', m);
  }

  /** The eldest minimum of a prefix does not depend on what lies above it. */
  lemma EldestMinOfPrefix(xs: seq<int>, ys: seq<int>, n: nat, m: nat)
    requires n <= |xs| && n <= |ys| && xs[..n] == ys[..n]
    ensures IsEldestMin(xs, n, m) <==> IsEldestMin(ys, n, m)
  {
    if m < n {
      assert xs[m] == xs[..n][m] && ys[m] == ys[..n][m];
      forall j ensures NotBelow(xs, n, m, j) <==> NotBelow(ys, n, m, j) {
        if 0 <= j < n {
          assert xs[j] == xs[..n][j] && ys[j] == ys[..n][j];
        }
      }
    }
  }

  /**
   * Pushing `x` over values whose eldest minimum is `m` moves the minimum
   * to the new top exactly when `x` is strictly smaller.
   */
  lemma EldestMinExtend(xs: seq<int>, m: nat, x: int)
    requires IsEldestMin(xs, |xs|, m)
    ensures x < xs[m] ==> IsEldestMin(xs + [x], |xs| + 1, |xs|)
    ensures !(x < xs[m]) ==> IsEldestMin(xs + [x], |xs| + 1, m)
  {
    var ys, n := xs + [x], |xs|;
    var n' := n + 1;
    forall j ensures x < xs[m] ==> NotBelow(ys, n', n, j)
      ensures !(x < xs[m]) ==> NotBelow(ys, n', m, j)
    {
      if 0 <= j < |xs| {
        assert NotBelow(xs, |xs|, m, j) && ys[j] == xs[j];
      }
    }
  }

  /** Valid entries are determined by their values: the stored indices leave no choice. */
  lemma ValidCanonical(s: seq<Entry>, t: seq<Entry>)
    requires ValidEntries(s) && ValidEntries(t) && Values(s) == Values(t)
    ensures s == t
  {
    forall i | 0 <= i < |s| ensures s[i] == t[i] {
      assert EntryValid(s, i) && EntryValid(t, i);
      assert Values(s)[i] == s[i].value && Values(t)[i] == t[i].value;
      EldestMinUnique(Values(s), i + 1, s[i].minIndex, t[i].minIndex);
    }
  }

  /** Whether entry `i` is valid depends only on the entries up to `i`. */
  lemma EntryValidPrefix(s: seq<Entry>, t: seq<Entry>, i: nat)
    requires i < |s| && i < |t| && s[..i + 1] == t[..i + 1]
    ensures EntryValid(s, i) <==> EntryValid(t, i)
  {
    var xs, ys := Values(s), Values(t);
    assert s[i] == s[..i + 1][i] == t[i];
    assert xs[..i + 1] == ys[..i + 1] by {
      forall k | 0 <= k <= i ensures xs[k] == ys[k] {
        assert s[k] == s[..i + 1][k] == t[k];
      }
    }
    EldestMinOfPrefix(xs, ys, i + 1, s[i].minIndex);
  }

  /** Removing entries from the top keeps the entries below valid. */
  lemma ValidPrefix(s: seq<Entry>, n: nat)
    requires ValidEntries(s) && n <= |s|
    ensures ValidEntries(s[..n])
  {
    forall i ensures EntryValid(s[..n], i) {
      if 0 <= i < n {
        assert EntryValid(s, i);
        assert s[..n][..i + 1] == s[..i + 1];
        EntryValidPrefix(s, s[..n], i);
      }
    }
  }

  /** Adding an entry that names the eldest minimum of all values keeps the stack valid. */
  lemma ValidSnoc(s: seq<Entry>, e: Entry)
    requires ValidEntries(s) && IsEldestMin(Values(s + [e]), |s| + 1, e.minIndex)
    ensures ValidEntries(s + [e])
  {
    var t := s + [e];
    forall i ensures EntryValid(t, i) {
      if 0 <= i < |s| {
        assert EntryValid(s, i);
        assert t[..i + 1] == s[..i + 1];
        EntryValidPrefix(s, t, i);
      } else if i == |s| {
        assert t[i] == e;
      }
    }
  }

  class MinStack {
    /** The entries, bottom first; the top of the stack is the last entry. */
    var stack: seq<Entry>

    ghost predicate Valid()
      reads this
    {
      ValidEntries(stack)
    }

    /** The stacked values, bottom first. */
    ghost function Elements(): seq<int>
      reads this
    {
      Values(stack)
    }

    constructor()
      ensures Valid() && Elements() == []
    {
      stack := [];
    }

    function Size(): (n: nat)
      reads this
      ensures n == |Elements()|
    {
      |stack|
    }

    function Empty(): (b: bool)
      reads this
      ensures b <==> |Elements()| == 0
    {
      |stack| == 0
    }

    /** The most recently pushed value that is still on the stack. */
    function Top(): (v: int)
      reads this
      requires |stack| > 0
      ensures v == Elements()[|Elements()| - 1]
    {
      stack[|stack| - 1].value
    }

    /** The least value on the stack, read through the top entry's index; that index is the eldest minimum. */
    function Min(): (v: int)
      reads this
      requires Valid() && |stack| > 0
      ensures v in Elements()
      ensures forall j :: 0 <= j < |Elements()| ==> v <= Elements()[j]
      ensures IsEldestMin(Elements(), |stack|, stack[|stack| - 1].minIndex)
      ensures v == Elements()[stack[|stack| - 1].minIndex]
    {
      var m := stack[|stack| - 1].minIndex;
      assert EntryValid(stack, |stack| - 1);
      assert forall j :: 0 <= j < |stack| ==> stack[m].value <= Values(stack)[j] by {
        forall j | 0 <= j < |stack| ensures stack[m].value <= Values(stack)[j] {
          assert NotBelow(Values(stack), |stack|, m, j);
        }
      }
      stack[m].value
    }

    /** Pushes `x`; the entries below the new top are untouched. */
    method Push(x: int)
      requires Valid()
      modifies this
      ensures Valid()
      ensures Elements() == old(Elements()) + [x]
      ensures |stack| == |old(stack)| + 1 && stack[..|old(stack)|] == old(stack)
    {
      var e;
      if |stack| == 0 {
        e := Entry(x, 0);
      } else {
        var smallestIndex := stack[|stack| - 1].minIndex;
        assert EntryValid(stack, |stack| - 1);
        EldestMinExtend(Values(stack), smallestIndex, x);
        if x < Min() {
          smallestIndex := |stack|;
        }
        e := Entry(x, smallestIndex);
      }
      assert Values(stack + [e]) == Values(stack) + [x];
      ValidSnoc(stack, e);
      stack := stack + [e];
    }

    /** Removes the top entry. */
    method Pop()
      requires Valid() && |stack| > 0
      modifies this
      ensures Valid()
      ensures stack == old(stack)[..|old(stack)| - 1]
      ensures Elements() == old(Elements())[..|old(Elements())| - 1]
    {
      ValidPrefix(stack, |stack| - 1);
      assert Values(stack[..|stack| - 1]) == Values(stack)[..|stack| - 1];
      stack := stack[..|stack| - 1];
    }
  }
}
