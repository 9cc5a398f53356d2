/**
 * Order facts about a finite set of strings `W` viewed as a trie.
 *
 * The nodes of the trie of `W` are the strings that are a prefix of some
 * member of `W`; the children of node `t` are the nodes `t + [c]`.  The
 * ternary search tree walks this trie to enumerate `W` in lexicographic
 * order, and the lemmas below say why each of its steps (descend to the
 * smallest child, climb to the next sibling) lands on the right member.
 */
module TrieOrder {
  import opened LexOrder

  /** `t` labels a node of the trie of `W`. */
  ghost predicate IsPrefixOfSome(t: string, W: set<string>) {
    exists w :: w in W && IsPrefix(t, w)
  }

  /** `m` is the least member of `W` that starts with `t`. */
  ghost predicate IsFirstWithPrefix(W: set<string>, t: string, m: string) {
    m in W && IsPrefix(t, m) && forall w :: w in W && IsPrefix(t, w) ==> LtEq(m, w)
  }

  /** `w` comes after `s`: strictly when `strict`, otherwise possibly equal. */
  predicate After(s: string, w: string, strict: bool) {
    if strict then Lt(s, w) else LtEq(s, w)
  }

  /** `m` is the least member of `W` after `s` (the successor when `strict`, the lower bound otherwise). */
  ghost predicate IsLeastAfter(W: set<string>, s: string, m: string, strict: bool) {
    m in W && After(s, m, strict) && forall w :: w in W && After(s, w, strict) ==> LtEq(m, w)
  }

  /** No member of `W` after `s` starts with `p`. */
  ghost predicate NoneAfterWithPrefix(W: set<string>, s: string, p: string, strict: bool) {
    forall w :: w in W && After(s, w, strict) ==> !IsPrefix(p, w)
  }

  /** `c` is the smallest letter labelling a child of node `t`. */
  ghost predicate IsFirstChild(W: set<string>, t: string, c: char) {
    IsPrefixOfSome(t + [c], W) && forall d :: IsPrefixOfSome(t + [d], W) ==> c <= d
  }

  /** `d` is the smallest letter above `c` labelling a child of node `t`. */
  ghost predicate IsNextChild(W: set<string>, t: string, c: char, d: char) {
    c < d && IsPrefixOfSome(t + [d], W) && forall e :: c < e && IsPrefixOfSome(t + [e], W) ==> d <= e
  }

  /** Node `t` has no child labelled above `c`. */
  ghost predicate NoChildAfter(W: set<string>, t: string, c: char) {
    forall e :: c < e ==> !IsPrefixOfSome(t + [e], W)
  }

  /* ---------------------------------------------------------------------- */

  /** The nodes of a trie are closed under taking prefixes. */
  lemma PrefixOfSomeClosed(u: string, t: string, W: set<string>)
    requires IsPrefix(u, t) && IsPrefixOfSome(t, W)
    ensures IsPrefixOfSome(u, W)
  {
    var w :| w in W && IsPrefix(t, w);
    PrefixTransitive(u, t, w);
  }

  /** Adding `s` to `W` adds exactly the prefixes of `s` to the trie. */
  lemma PrefixOfSomeAdd(W: set<string>, s: string, t: string)
    ensures IsPrefixOfSome(t, W + {s}) <==> IsPrefixOfSome(t, W) || IsPrefix(t, s)
  {
    if IsPrefixOfSome(t, W) {
      var w :| w in W && IsPrefix(t, w);
      assert w in W + {s};
    }
    if IsPrefix(t, s) {
      assert s in W + {s};
    }
  }

  /**
   * Removing the node `p` that lies on an extra path but not in the trie of
   * `W` shortens the extra path by one letter.
   */
  lemma PathShrink(W: set<string>, p: string, t: string)
    requires |p| > 0 && !IsPrefixOfSome(p, W)
    ensures ((IsPrefixOfSome(t, W) || IsPrefix(t, p)) && t != p) <==> (IsPrefixOfSome(t, W) || IsPrefix(t, p[..|p| - 1]))
  {
    if IsPrefix(t, p[..|p| - 1]) {
      PrefixTransitive(t, p[..|p| - 1], p);
    }
    if IsPrefix(t, p) && t != p {
      assert p[..|p| - 1][..|t|] == p[..|t|];
    }
  }

  /** A node that is not a member has a child: leaves of a trie are members. */
  lemma NonMemberHasChild(W: set<string>, t: string)
    ensures IsPrefixOfSome(t, W) && t !in W ==> exists c :: IsPrefixOfSome(t + [c], W)
  {
    if IsPrefixOfSome(t, W) && t !in W {
      var w :| w in W && IsPrefix(t, w);
      PrefixExtend(t, w);
      assert IsPrefixOfSome(t + [w[|t|]], W);
    }
  }

  /** A member is the first member of its own subtree. */
  lemma MemberIsFirst(W: set<string>, t: string)
    requires t in W
    ensures IsFirstWithPrefix(W, t, t)
  {
    forall w | w in W && IsPrefix(t, w) ensures LtEq(t, w) {
      if w != t { PrefixLt(t, w); }
    }
  }

  /** Every member below `t` other than `t` itself comes no earlier than the first member below the first child. */
  lemma BelowFirstChild(W: set<string>, t: string, c: char, m: string, w: string)
    requires IsFirstChild(W, t, c) && IsFirstWithPrefix(W, t + [c], m)
    requires w in W && IsPrefix(t, w) && w != t
    ensures LtEq(m, w)
  {
    PrefixExtend(t, w);
    var d := w[|t|];
    assert IsPrefixOfSome(t + [d], W);
    if d != c {
      BranchLt(t, c, d, m, w);
    }
  }

  /** Descending from a non-member to its smallest child keeps the first member of the subtree. */
  lemma DescendToFirstChild(W: set<string>, t: string, c: char, m: string)
    requires t !in W && IsFirstChild(W, t, c) && IsFirstWithPrefix(W, t + [c], m)
    ensures IsFirstWithPrefix(W, t, m)
  {
    assert IsPrefix(t, t + [c]);
    PrefixTransitive(t, t + [c], m);
    forall w | w in W && IsPrefix(t, w) ensures LtEq(m, w) {
      BelowFirstChild(W, t, c, m, w);
    }
  }

  /** The first member of the whole trie is the least member. */
  lemma FirstOfRootIsLeast(W: set<string>, m: string)
    requires IsFirstWithPrefix(W, [], m)
    ensures IsLeast(W, m)
  {
    forall w | w in W ensures LtEq(m, w) {
      assert IsPrefix([], w);
    }
  }

  /** The successor of a member with children is the first member below its smallest child. */
  lemma SuccessorBelow(W: set<string>, s: string, c: char, m: string)
    requires s in W && IsFirstChild(W, s, c) && IsFirstWithPrefix(W, s + [c], m)
    ensures IsLeastAfter(W, s, m, true)
  {
    assert IsPrefix(s, s + [c]);
    PrefixTransitive(s, s + [c], m);
    PrefixLt(s, m);
    forall w | w in W && Lt(s, w) ensures LtEq(m, w) {
      if IsPrefix(s, w) {
        LtIrreflexive(s);
        BelowFirstChild(W, s, c, m, w);
      } else {
        DivergeAbove(s, s, m, w);
      }
    }
  }

  /** Below a childless member there is nothing after it. */
  lemma NothingBelowLeaf(W: set<string>, s: string)
    requires forall c :: !IsPrefixOfSome(s + [c], W)
    ensures NoneAfterWithPrefix(W, s, s, true)
  {
    forall w | w in W && Lt(s, w) ensures !IsPrefix(s, w) {
      LtIrreflexive(s);
      if IsPrefix(s, w) {
        PrefixExtend(s, w);
        assert IsPrefixOfSome(s + [w[|s|]], W);
      }
    }
  }

  /** A member after `s` that starts with `s[..j - 1]` has a `j - 1`-th letter above `s[j - 1]`. */
  lemma LetterAfter(W: set<string>, s: string, j: nat, w: string, strict: bool)
    requires 0 < j <= |s|
    requires NoneAfterWithPrefix(W, s, s[..j], strict)
    requires w in W && After(s, w, strict) && IsPrefix(s[..j - 1], w)
    ensures |w| >= j && s[j - 1] < w[j - 1] && IsPrefixOfSome(s[..j - 1] + [w[j - 1]], W)
  {
    var p := s[..j - 1];
    TakeSnoc(s, j - 1);
    if |w| < j {
      assert w == p;
      PrefixLt(p, s);
      LtAsymmetric(p, s);
      LtIrreflexive(p);
    }
    PrefixExtend(p, w);
    var e := w[j - 1];
    assert IsPrefixOfSome(p + [e], W);
    if e < s[j - 1] {
      assert IsPrefix(p + [s[j - 1]], s);
      BranchLt(p, e, s[j - 1], w, s);
      LtAsymmetric(w, s);
      LtIrreflexive(s);
    }
  }

  /** Climbing from node `s[..j]` to `s[..j - 1]` when there is no later sibling. */
  lemma ClimbPastLastSibling(W: set<string>, s: string, j: nat, strict: bool)
    requires 0 < j <= |s|
    requires NoneAfterWithPrefix(W, s, s[..j], strict)
    requires NoChildAfter(W, s[..j - 1], s[j - 1])
    ensures NoneAfterWithPrefix(W, s, s[..j - 1], strict)
  {
    forall w | w in W && After(s, w, strict) ensures !IsPrefix(s[..j - 1], w) {
      if IsPrefix(s[..j - 1], w) {
        LetterAfter(W, s, j, w, strict);
      }
    }
  }

  /** Climbing from node `s[..j]` to its next sibling `s[..j - 1] + [d]` finds the least member after `s`. */
  lemma ClimbToNextSibling(W: set<string>, s: string, j: nat, d: char, m: string, strict: bool)
    requires 0 < j <= |s|
    requires NoneAfterWithPrefix(W, s, s[..j], strict)
    requires IsNextChild(W, s[..j - 1], s[j - 1], d)
    requires IsFirstWithPrefix(W, s[..j - 1] + [d], m)
    ensures IsLeastAfter(W, s, m, strict)
  {
    var p := s[..j - 1];
    TakeSnoc(s, j - 1);
    assert IsPrefix(p + [s[j - 1]], s);
    BranchLt(p, s[j - 1], d, s, m);
    assert IsPrefix(p, p + [d]);
    PrefixTransitive(p, p + [d], m);
    forall w | w in W && After(s, w, strict) ensures LtEq(m, w) {
      if IsPrefix(p, w) {
        LetterAfter(W, s, j, w, strict);
        var e := w[j - 1];
        PrefixExtend(p, w);
        if e != d {
          BranchLt(p, d, e, m, w);
        }
      } else {
        assert Lt(s, w);
        DivergeAbove(p, s, m, w);
      }
    }
  }

  /** When no member after `s` has the empty prefix, no member comes after `s` at all. */
  lemma NothingAfter(W: set<string>, s: string, strict: bool)
    requires NoneAfterWithPrefix(W, s, [], strict)
    ensures forall w :: w in W ==> !After(s, w, strict)
  {
    forall w | w in W ensures !After(s, w, strict) {
      assert IsPrefix([], w);
    }
  }

  /** A lower bound that is not the key itself is the key's successor. */
  lemma LowerBoundNotKey(W: set<string>, s: string, m: string)
    requires IsLeastAfter(W, s, m, false) && m != s
    ensures IsLeastAfter(W, s, m, true)
  {
  }

  /** When the whole key is a node, the first member below it is the key's lower bound. */
  lemma FirstBelowKeyIsLowerBound(W: set<string>, s: string, m: string)
    requires IsFirstWithPrefix(W, s, m)
    ensures IsLeastAfter(W, s, m, false)
  {
    if m != s { PrefixLt(s, m); }
    forall w | w in W && LtEq(s, w) ensures LtEq(m, w) {
      if !IsPrefix(s, w) {
        DivergeAbove(s, s, m, w);
      }
    }
  }

  /** The least member after `s` is unique. */
  lemma LeastAfterUnique(W: set<string>, s: string, m: string, n: string, strict: bool)
    requires IsLeastAfter(W, s, m, strict) && IsLeastAfter(W, s, n, strict)
    ensures m == n
  {
    if m != n { LtAsymmetric(m, n); }
  }
}
