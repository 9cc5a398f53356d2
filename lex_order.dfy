/**
 * Lexicographic order on strings, as used by the ternary search tree.
 *
 * Characters are compared with their natural order (`char_traits<char>::lt`);
 * strings are compared the way `std::basic_string::compare` does: the first
 * differing character decides, and a proper prefix comes first.
 */
module LexOrder {

  /** `p` is a prefix of `w` (possibly equal to it). */
  predicate IsPrefix(p: string, w: string) {
    |p| <= |w| && w[..|p|] == p
  }

  /** Strict lexicographic order. */
  predicate Lt(a: string, b: string)
    decreases |a|
  {
    |b| > 0 && (|a| == 0 || a[0] < b[0] || (a[0] == b[0] && Lt(a[1..], b[1..])))
  }

  predicate LtEq(a: string, b: string) {
    a == b || Lt(a, b)
  }

  /* ---------------------------------------------------------------------- */
  /* Lt is a strict total order                                              */
  /* ---------------------------------------------------------------------- */

  lemma {:induction false} LtIrreflexive(a: string)
    ensures !Lt(a, a)
    decreases |a|
  {
    if |a| > 0 {
      LtIrreflexive(a[1..]);
    }
  }

  lemma {:induction false} LtTransitive(a: string, b: string, c: string)
    requires Lt(a, b) && Lt(b, c)
    ensures Lt(a, c)
    decreases |a|
  {
    if |a| > 0 && a[0] == c[0] {
      // a[0] <= b[0] <= c[0] == a[0], so all three agree on the first letter
      assert a[0] == b[0] && b[0] == c[0];
      LtTransitive(a[1..], b[1..], c[1..]);
    }
  }

  lemma {:induction false} LtTotal(a: string, b: string)
    ensures a == b || Lt(a, b) || Lt(b, a)
    decreases |a|
  {
    if |a| > 0 && |b| > 0 && a[0] == b[0] {
      LtTotal(a[1..], b[1..]);
      if a[1..] == b[1..] {
        assert a == [a[0]] + a[1..] && b == [b[0]] + b[1..];
      }
    }
  }

  lemma LtAsymmetric(a: string, b: string)
    requires Lt(a, b)
    ensures !Lt(b, a)
  {
    if Lt(b, a) {
      LtTransitive(a, b, a);
      LtIrreflexive(a);
    }
  }

  /** Lt and LtEq are the two halves of a total order. */
  lemma LtEqIffNotGt(a: string, b: string)
    ensures LtEq(a, b) <==> !Lt(b, a)
  {
    LtTotal(a, b);
    if Lt(a, b) { LtAsymmetric(a, b); }
    if a == b { LtIrreflexive(a); }
  }

  lemma LtEqTransitive(a: string, b: string, c: string)
    requires LtEq(a, b) && LtEq(b, c)
    ensures LtEq(a, c)
  {
    if a != b && b != c { LtTransitive(a, b, c); }
  }

  lemma LtLtEqTransitive(a: string, b: string, c: string)
    requires (Lt(a, b) && LtEq(b, c)) || (LtEq(a, b) && Lt(b, c))
    ensures Lt(a, c)
  {
    if a != b && b != c { LtTransitive(a, b, c); }
  }

  /* ---------------------------------------------------------------------- */
  /* Prefixes and the order                                                  */
  /* ---------------------------------------------------------------------- */

  lemma PrefixTransitive(a: string, b: string, c: string)
    requires IsPrefix(a, b) && IsPrefix(b, c)
    ensures IsPrefix(a, c)
  {
    assert c[..|a|] == c[..|b|][..|a|];
  }

  /** Every take of a string is a prefix of it. */
  lemma TakeIsPrefix(s: string, i: nat)
    requires i <= |s|
    ensures IsPrefix(s[..i], s)
  {
  }

  /** Appending the next letter of `s` to its take of length `i`. */
  lemma TakeSnoc<T>(s: seq<T>, i: nat)
    requires i < |s|
    ensures s[..i] + [s[i]] == s[..i + 1]
  {
  }

  lemma TakeFull<T>(s: seq<T>)
    ensures s[..|s|] == s
  {
  }

  lemma TakeTake<T>(s: seq<T>, k: nat, j: nat)
    requires j <= k <= |s|
    ensures s[..k][..j] == s[..j]
  {
  }

  /** A prefix `p` of `w` that is not `w` itself extends to `p + [w[|p|]]`. */
  lemma PrefixExtend(p: string, w: string)
    requires IsPrefix(p, w) && p != w
    ensures |p| < |w| && IsPrefix(p + [w[|p|]], w)
  {
    assert w[..|p| + 1] == w[..|p|] + [w[|p|]];
  }

  /** Two one-letter extensions of prefixes of the same length. */
  lemma PrefixesOfSameWord(p: string, q: string, w: string)
    requires IsPrefix(p, w) && IsPrefix(q, w) && |p| == |q|
    ensures p == q
  {
  }

  /** A proper prefix comes strictly first. */
  lemma {:induction false} PrefixLt(p: string, w: string)
    requires IsPrefix(p, w) && p != w
    ensures Lt(p, w)
    decreases |p|
  {
    if |p| > 0 {
      assert p[0] == w[0];
      assert IsPrefix(p[1..], w[1..]) by {
        assert w[1..][..|p| - 1] == w[..|p|][1..];
      }
      PrefixLt(p[1..], w[1..]);
    }
  }

  /** Strings below sibling branches `p + [c]` and `p + [d]` with `c < d` are ordered. */
  lemma {:induction false} BranchLt(p: string, c: char, d: char, x: string, y: string)
    requires c < d && IsPrefix(p + [c], x) && IsPrefix(p + [d], y)
    ensures Lt(x, y)
    decreases |p|
  {
    if |p| == 0 {
      assert x[0] == c && y[0] == d;
    } else {
      assert x[0] == p[0] && y[0] == p[0];
      assert (p + [c])[1..] == p[1..] + [c] && (p + [d])[1..] == p[1..] + [d];
      assert x[1..][..|p|] == x[..|p| + 1][1..];
      assert y[1..][..|p|] == y[..|p| + 1][1..];
      BranchLt(p[1..], c, d, x[1..], y[1..]);
    }
  }

  /**
   * If `s` and `m` both start with `p` and `w` does not, then `w` lies on the
   * same side of `m` as of `s`: whatever separates `w` from `s` happens
   * inside `p`.
   */
  lemma {:induction false} DivergeAbove(p: string, s: string, m: string, w: string)
    requires IsPrefix(p, s) && IsPrefix(p, m) && !IsPrefix(p, w) && Lt(s, w)
    ensures Lt(m, w)
    decreases |p|
  {
    assert |p| > 0;
    if w[0] == p[0] {
      assert s[0] == w[0] && m[0] == w[0];
      assert IsPrefix(p[1..], s[1..]) by { assert s[1..][..|p| - 1] == s[..|p|][1..]; }
      assert IsPrefix(p[1..], m[1..]) by { assert m[1..][..|p| - 1] == m[..|p|][1..]; }
      DivergeAbove(p[1..], s[1..], m[1..], w[1..]);
    }
  }

  /** A non-empty set of letters has a smallest letter. */
  lemma {:induction false} LeastCharExists(s: set<char>)
    requires s != {}
    ensures exists c :: c in s && forall d :: d in s ==> c <= d
    decreases |s|
  {
    var x :| x in s;
    if s == {x} {
      assert forall d :: d in s ==> x <= d;
    } else {
      LeastCharExists(s - {x});
      var y :| y in s - {x} && forall d :: d in s - {x} ==> y <= d;
      var m := if x <= y then x else y;
      forall d | d in s ensures m <= d {
        if d != x { assert d in s - {x}; }
      }
      assert m in s;
    }
  }

  /** The mirror image of DivergeAbove. */
  lemma {:induction false} DivergeBelow(p: string, s: string, m: string, w: string)
    requires IsPrefix(p, s) && IsPrefix(p, m) && !IsPrefix(p, w) && Lt(w, s)
    ensures Lt(w, m)
    decreases |p|
  {
    assert |p| > 0;
    if |w| > 0 && w[0] == p[0] {
      assert s[0] == w[0] && m[0] == w[0];
      assert IsPrefix(p[1..], s[1..]) by { assert s[1..][..|p| - 1] == s[..|p|][1..]; }
      assert IsPrefix(p[1..], m[1..]) by { assert m[1..][..|p| - 1] == m[..|p|][1..]; }
      DivergeBelow(p[1..], s[1..], m[1..], w[1..]);
    }
  }

  /* ---------------------------------------------------------------------- */
  /* Least elements and sorted enumerations of finite sets of strings        */
  /* ---------------------------------------------------------------------- */

  ghost predicate IsLeast(W: set<string>, m: string) {
    m in W && forall w :: w in W ==> LtEq(m, w)
  }

  lemma {:induction false} LeastExists(W: set<string>)
    requires W != {}
    ensures exists m :: IsLeast(W, m)
    decreases |W|
  {
    var x :| x in W;
    if W == {x} {
      assert IsLeast(W, x);
    } else {
      LeastExists(W - {x});
      var y :| IsLeast(W - {x}, y);
      LtTotal(x, y);
      var m := if Lt(x, y) then x else y;
      forall w | w in W ensures LtEq(m, w) {
        if w != x {
          assert w in W - {x};
          if m == x { LtLtEqTransitive(x, y, w); }
        }
      }
      assert IsLeast(W, m);
    }
  }

  lemma LeastUnique(W: set<string>, m: string, n: string)
    requires IsLeast(W, m) && IsLeast(W, n)
    ensures m == n
  {
    if m != n { LtAsymmetric(m, n); }
  }

  /** An upper bound on the lengths of the strings of a finite set. */
  ghost function MaxLength(W: set<string>): (n: nat)
    ensures forall w :: w in W ==> |w| <= n
    decreases |W|
  {
    if W == {} then 0
    else
      var x :| x in W;
      var rest := MaxLength(W - {x});
      assert forall w :: w in W && w != x ==> w in W - {x};
      if |x| <= rest then rest else |x|
  }

  /** Entries `i < j` of `A`, when both exist, are in strictly increasing order. */
  ghost predicate InOrder(A: seq<string>, i: int, j: int) {
    0 <= i < j < |A| ==> Lt(A[i], A[j])
  }

  ghost predicate StrictlySorted(A: seq<string>) {
    forall i, j :: InOrder(A, i, j)
  }

  /** The members of `W` in strictly increasing order. */
  ghost function SortedMembers(W: set<string>): (A: seq<string>)
    ensures StrictlySorted(A) && |A| == |W|
    ensures forall w :: w in W <==> w in A
    decreases |W|
  {
    if W == {} then []
    else
      LeastExists(W);
      var m :| IsLeast(W, m);
      var rest := SortedMembers(W - {m});
      SortedMembersCons(W, m, rest);
      [m] + rest
  }

  lemma SortedMembersCons(W: set<string>, m: string, rest: seq<string>)
    requires IsLeast(W, m)
    requires StrictlySorted(rest) && |rest| == |W - {m}|
    requires forall w :: w in W - {m} <==> w in rest
    ensures StrictlySorted([m] + rest) && |[m] + rest| == |W|
    ensures forall w :: w in W <==> w in [m] + rest
  {
    var A := [m] + rest;
    forall i, j ensures InOrder(A, i, j) {
      if 0 < i < j < |A| {
        assert InOrder(rest, i - 1, j - 1);
      } else if 0 == i < j < |A| {
        assert A[j] == rest[j - 1] && A[j] in W - {m};
      }
    }
    forall w | w in W ensures w in A {
      if w != m { assert w in W - {m}; }
    }
  }

  /** In a strictly sorted sequence, the least element above an entry is the next entry. */
  lemma {:induction false} SortedSuccessor(A: seq<string>, k: nat, m: string)
    requires StrictlySorted(A) && k < |A|
    requires m in A && Lt(A[k], m)
    requires forall w :: w in A && Lt(A[k], w) ==> LtEq(m, w)
    ensures k + 1 < |A| && m == A[k + 1]
  {
    var j :| 0 <= j < |A| && A[j] == m;
    if j <= k {
      if j < k { assert InOrder(A, j, k); LtAsymmetric(A[j], A[k]); } else { LtIrreflexive(m); }
    }
    assert k + 1 < |A|;
    if j != k + 1 {
      assert InOrder(A, k + 1, j) && InOrder(A, k, k + 1);
      LtAsymmetric(A[k + 1], m);
    }
  }

  /** In a strictly sorted sequence nothing lies above the last entry. */
  lemma SortedLast(A: seq<string>, k: nat)
    requires StrictlySorted(A) && k < |A|
    requires forall w :: w in A ==> !Lt(A[k], w)
    ensures k == |A| - 1
  {
    NextEntry(A, k);
    assert InOrder(A, k, k + 1);
  }

  lemma NextEntry(A: seq<string>, k: nat)
    requires k < |A|
    ensures k + 1 < |A| ==> A[k + 1] in A
  {
  }

  /** The first entry of a strictly sorted sequence is its least element. */
  lemma SortedFirst(A: seq<string>, W: set<string>, m: string)
    requires StrictlySorted(A) && (forall w :: w in W <==> w in A)
    requires IsLeast(W, m)
    ensures |A| > 0 && A[0] == m
  {
    assert A != [];
    assert A[0] in W;
    if A[0] != m {
      var j :| 0 <= j < |A| && A[j] == m;
      assert j > 0;
      assert InOrder(A, 0, j);
      assert LtEq(m, A[0]);
      if m != A[0] { LtAsymmetric(A[0], m); }
    }
  }

  /* ---------------------------------------------------------------------- */
  /* std::lexicographical_compare on sequences of strings                    */
  /* ---------------------------------------------------------------------- */

  /** Lexicographic comparison of two sequences of strings, element order Lt. */
  predicate SeqLt(A: seq<string>, B: seq<string>)
    decreases |A|
  {
    |B| > 0 && (|A| == 0 || Lt(A[0], B[0]) || (A[0] == B[0] && SeqLt(A[1..], B[1..])))
  }

  /** SeqLt is a strict total order: exactly one of A < B, A == B, B < A. */
  lemma {:induction false} SeqLtTrichotomy(A: seq<string>, B: seq<string>)
    ensures A == B || SeqLt(A, B) || SeqLt(B, A)
    ensures !(SeqLt(A, B) && SeqLt(B, A))
    ensures !SeqLt(A, A)
    decreases |A|
  {
    if |A| > 0 {
      SeqLtTrichotomy(A[1..], A[1..]);
      LtIrreflexive(A[0]);
    }
    if |A| > 0 && |B| > 0 {
      LtTotal(A[0], B[0]);
      if Lt(A[0], B[0]) { LtAsymmetric(A[0], B[0]); }
      if Lt(B[0], A[0]) { LtAsymmetric(B[0], A[0]); }
      SeqLtTrichotomy(A[1..], B[1..]);
      if A[0] == B[0] && A[1..] == B[1..] {
        assert A == [A[0]] + A[1..] && B == [B[0]] + B[1..];
      }
    }
  }

  /** SeqLt of the suffixes from position `k` is decided by the entries at `k`, or passed on to `k + 1`. */
  lemma SeqLtAt(A: seq<string>, B: seq<string>, k: nat)
    requires k < |A| && k <= |B|
    ensures k == |B| ==> !SeqLt(A[k..], B[k..])
    ensures k < |B| && Lt(A[k], B[k]) ==> SeqLt(A[k..], B[k..])
    ensures k < |B| && Lt(B[k], A[k]) ==> !SeqLt(A[k..], B[k..])
    ensures k < |B| && A[k] == B[k] ==> (SeqLt(A[k..], B[k..]) <==> SeqLt(A[k + 1..], B[k + 1..]))
  {
    if k < |B| {
      assert A[k..][1..] == A[k + 1..] && B[k..][1..] == B[k + 1..];
      if Lt(B[k], A[k]) {
        LtAsymmetric(B[k], A[k]);
        LtIrreflexive(A[k]);
      }
    }
  }

  /** Two sequences that agree before `k` agree before `k + 1` exactly when their entries at `k` agree. */
  lemma AgreeOneMore(A: seq<string>, B: seq<string>, k: nat)
    requires k < |A| && k < |B| && A[..k] == B[..k]
    ensures A[..k + 1] == B[..k + 1] <==> A[k] == B[k]
  {
    assert A[..k + 1] == A[..k] + [A[k]] && B[..k + 1] == B[..k] + [B[k]];
    assert A[..k + 1][k] == A[k] && B[..k + 1][k] == B[k];
  }

  /** The set of entries of `A`. */
  ghost function Elems(A: seq<string>): set<string> {
    set w | w in A
  }

  /** The entries before `k + 1` are those before `k` and entry `k`. */
  lemma TakeOneMore(A: seq<string>, k: nat)
    requires k < |A|
    ensures Elems(A[..k + 1]) == Elems(A[..k]) + {A[k]}
  {
    assert A[..k + 1] == A[..k] + [A[k]];
  }

  /** Listing the members of `W` in order and collecting the entries gives back `W`. */
  lemma ElemsOfSorted(W: set<string>)
    ensures Elems(SortedMembers(W)) == W
  {
  }
}
