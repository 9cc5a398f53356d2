/**
 * util::ternary_search_tree: a sorted set of strings stored as a trie.
 *
 * Every node holds the letter that leads to it, a pointer to its parent, a
 * flag saying whether a stored string ends there, and a map from letters to
 * child nodes (the map plays the role of the "ternary" binary search tree
 * over siblings).  The empty string is the root's word flag.  Iterators keep
 * the chain of nodes from the root to the current node and walk the trie in
 * depth-first order, which is lexicographic order.
 *
 * The abstraction: `Contents` is the set of stored strings, and `nodeOf`
 * maps each string labelling a node to that node.  The nodes are exactly the
 * prefixes of stored strings, so no dead branch is ever left behind.
 */
module TernarySearchTree {
  import opened Wrappers
  import opened LexOrder
  import opened TrieOrder

  /** A trie node; `key` is the string spelled from the root down to it. */
  class Node {
    const letter: char
    const parent: Node?
    var isWord: bool
    var children: map<char, Node>
    ghost const key: string

    constructor (letter: char, parent: Node?, isWord: bool, ghost key: string)
      ensures this.letter == letter && this.parent == parent && this.isWord == isWord
      ensures children == map[] && this.key == key
    {
      this.letter := letter;
      this.parent := parent;
      this.isWord := isWord;
      children := map[];
      this.key := key;
    }
  }

  /* ------------------------------------------------------------------------ */
  /* The two std::map queries the tree makes of a child map                    */
  /* ------------------------------------------------------------------------ */

  /** The smallest letter of a non-empty child map (`map::begin`). */
  function FirstKey(m: map<char, Node>): (c: char)
    requires m != map[]
    ensures c in m && forall d :: d in m ==> c <= d
  {
    LeastCharExists(m.Keys);
    var c :| c in m && forall d :: d in m ==> c <= d;
    c
  }

  /** The smallest letter of a child map above `c` (`map::upper_bound`), if any. */
  function NextKey(m: map<char, Node>, c: char): (r: Option<char>)
    ensures r.None? ==> forall d :: d in m ==> d <= c
    ensures r.Some? ==> r.value in m && c < r.value && forall d :: d in m && c < d ==> r.value <= d
  {
    var above := set d | d in m && c < d;
    assert forall d :: d in m && c < d ==> d in above;
    if above == {} then None
    else
      LeastCharExists(above);
      var e :| e in above && forall d :: d in above ==> e <= d;
      Some(e)
  }

  /* ------------------------------------------------------------------------ */
  /* The representation invariant, over the fields of a tree                  */
  /* ------------------------------------------------------------------------ */

  /**
   * The pointer structure agrees with `nodeOf`: every node knows its string,
   * the root is the node of the empty string, and the child labelled `c` of
   * the node of `t` is the node of `t + [c]`, whose parent is the node of `t`.
   */
  ghost predicate ShapeOf(root: Node?, nodeOf: map<string, Node>, Repr: set<Node>)
    reads Repr`children
  {
    && (forall t :: t in nodeOf ==> nodeOf[t] in Repr && nodeOf[t].key == t)
    && (root == null <==> [] !in nodeOf)
    && (root != null ==> nodeOf[[]] == root && root.parent == null)
    && (forall t, c {:trigger t + [c] in nodeOf} :: t + [c] in nodeOf ==>
          && t in nodeOf
          && nodeOf[t + [c]].parent == nodeOf[t]
          && nodeOf[t + [c]].letter == c
          && c in nodeOf[t].children
          && nodeOf[t].children[c] == nodeOf[t + [c]])
    && (forall t, c {:trigger c in nodeOf[t].children} :: t in nodeOf && c in nodeOf[t].children ==> t + [c] in nodeOf)
  }

  /**
   * The tree is the trie of `Contents`: its nodes are exactly the prefixes of
   * stored strings, and a node's flag says whether its string is stored.
   */
  ghost predicate TrieOf(root: Node?, nodeOf: map<string, Node>, Contents: set<string>, Repr: set<Node>)
    reads Repr
  {
    && ShapeOf(root, nodeOf, Repr)
    && (forall t :: t in nodeOf <==> IsPrefixOfSome(t, Contents))
    && (forall t :: t in nodeOf ==> (nodeOf[t].isWord <==> t in Contents))
  }

  /**
   * const_iterator: the owning tree, the trace of nodes from the root to the
   * current node, and the string spelled by that trace.  The end iterator
   * has an empty trace.
   */
  datatype Iterator = Iterator(tst: Tree?, trace: seq<Node>, str: string)

  class Tree {
    var root: Node?
    var size: nat
    ghost var nodeOf: map<string, Node>
    ghost var Contents: set<string>
    ghost var Repr: set<Node>

    /** The pointer structure of the trie agrees with `nodeOf`. */
    ghost predicate Shape()
      reads this, Repr`children
    {
      ShapeOf(root, nodeOf, Repr)
    }

    ghost predicate Valid()
      reads this, Repr
    {
      TrieOf(root, nodeOf, Contents, Repr) && size == |Contents|
    }

    /** `trace` is the chain of nodes from the root down to the node of `t`. */
    ghost predicate TraceOf(trace: seq<Node>, t: string)
      reads this
    {
      |trace| == |t| + 1 && forall i :: 0 <= i <= |t| ==> t[..i] in nodeOf && trace[i] == nodeOf[t[..i]]
    }

    /** `it` is an iterator of this tree positioned at the node of `s`. */
    ghost predicate IsIteratorAt(it: Iterator, s: string)
      reads this
    {
      it.tst == this && it.str == s && TraceOf(it.trace, s)
    }

    /** `it` is the end iterator or positioned at a stored string. */
    ghost predicate IsValidIterator(it: Iterator)
      reads this
    {
      it == End() || (it.str in Contents && IsIteratorAt(it, it.str))
    }

    /** iterator end(): the sentinel with an empty trace. */
    function End(): Iterator {
      Iterator(this, [], [])
    }

    constructor ()
      ensures Valid() && fresh(Repr)
      ensures Contents == {} && size == 0
    {
      root := null;
      size := 0;
      nodeOf := map[];
      Contents := {};
      Repr := {};
    }

    /* ---------------------------------------------------------------------- */
    /* Facts about valid trees                                                 */
    /* ---------------------------------------------------------------------- */

    /** The children of a node are exactly its one-letter extensions in the trie of `Contents`. */
    lemma ChildrenAreTrieChildren(t: string)
      requires Valid() && t in nodeOf
      ensures forall c :: c in nodeOf[t].children <==> IsPrefixOfSome(t + [c], Contents)
    {
    }

    /** A node that ends no string has children, and the smallest of them is its first child in the trie of `Contents`. */
    lemma FirstChildInTrie(t: string)
      requires Valid() && t in nodeOf && !nodeOf[t].isWord
      ensures nodeOf[t].children != map[] && IsFirstChild(Contents, t, FirstKey(nodeOf[t].children))
    {
      NonMemberHasChild(Contents, t);
      ChildrenAreTrieChildren(t);
    }

    /** map::upper_bound on a child map finds the next sibling in the trie of `Contents`. */
    lemma NextChildInTrie(t: string, c: char, next: Option<char>)
      requires Valid() && t in nodeOf && next == NextKey(nodeOf[t].children, c)
      ensures next.Some? ==> next.value in nodeOf[t].children && IsNextChild(Contents, t, c, next.value)
      ensures next.None? ==> NoChildAfter(Contents, t, c)
    {
      ChildrenAreTrieChildren(t);
    }

    /**
     * One level of climbing towards the root: when the node of `s[..b]` has
     * no child after `s[b]`, nothing after `s` starts with `s[..b]` either,
     * and the parent of that node is the node of `s[..b - 1]`.
     */
    lemma ClimbLevel(s: string, b: nat, strict: bool)
      requires Valid() && b < |s| && s[..b] in nodeOf
      requires NoneAfterWithPrefix(Contents, s, s[..b + 1], strict)
      requires NextKey(nodeOf[s[..b]].children, s[b]).None?
      ensures NoneAfterWithPrefix(Contents, s, s[..b], strict)
      ensures b > 0 ==> s[..b - 1] in nodeOf && nodeOf[s[..b]].parent == nodeOf[s[..b - 1]]
    {
      NextChildInTrie(s[..b], s[b], None);
      TakeTake(s, b + 1, b);
      ClimbPastLastSibling(Contents, s, b + 1, strict);
      if b > 0 {
        LastLetter(s[..b]);
        TakeTake(s, b, b - 1);
      }
    }

    /** Every childless node ends a stored string: erasing never leaves a dead branch. */
    lemma ChildlessNodesAreWords(t: string)
      requires Valid() && t in nodeOf && nodeOf[t].children == map[]
      ensures nodeOf[t].isWord
    {
      if !nodeOf[t].isWord {
        NonMemberHasChild(Contents, t);
      }
    }

    /** The root exists exactly when some string is stored. */
    lemma RootIffNonEmpty()
      requires Valid()
      ensures root == null <==> Contents == {}
    {
      if Contents != {} {
        var w :| w in Contents;
        assert IsPrefix([], w);
        assert IsPrefixOfSome([], Contents);
      }
    }

    /** The trace of a node is determined by its string. */
    lemma TraceUnique(a: seq<Node>, b: seq<Node>, t: string)
      requires TraceOf(a, t) && TraceOf(b, t)
      ensures a == b
    {
    }

    /** Extending a trace by the child labelled `c`. */
    lemma TraceExtend(trace: seq<Node>, t: string, c: char)
      requires TraceOf(trace, t) && t + [c] in nodeOf
      ensures TraceOf(trace + [nodeOf[t + [c]]], t + [c])
    {
      var u := t + [c];
      forall i | 0 <= i <= |u| ensures u[..i] in nodeOf && (trace + [nodeOf[u]])[i] == nodeOf[u[..i]] {
        if i <= |t| {
          assert u[..i] == t[..i];
        } else {
          TakeFull(u);
        }
      }
    }

    /** Dropping the last node of a trace. */
    lemma TracePop(trace: seq<Node>, t: string)
      requires TraceOf(trace, t) && |t| > 0
      ensures TraceOf(trace[..|trace| - 1], t[..|t| - 1])
    {
      var u := t[..|t| - 1];
      forall i | 0 <= i <= |u| ensures u[..i] in nodeOf && trace[i] == nodeOf[u[..i]] {
        assert u[..i] == t[..i];
      }
    }

    /** A non-root node carries the last letter of its string and hangs below the node of the rest. */
    lemma LastLetter(t: string)
      requires Shape() && t in nodeOf && |t| > 0
      ensures t[..|t| - 1] in nodeOf && nodeOf[t].letter == t[|t| - 1]
      ensures nodeOf[t].parent == nodeOf[t[..|t| - 1]]
    {
      assert t == t[..|t| - 1] + [t[|t| - 1]];
    }

    /** The parent of a node is a node of the tree, or null for the root. */
    lemma ParentInRepr(t: string)
      requires Shape() && t in nodeOf
      ensures nodeOf[t].parent == null || nodeOf[t].parent in Repr
    {
      if |t| > 0 {
        LastLetter(t);
      } else {
        assert t == [];
      }
    }

    /** Comparing with end() tells whether an iterator is the end iterator. */
    lemma EqualsEndIffEnd(it: Iterator)
      requires IsValidIterator(it)
      ensures IteratorEquals(it, End()) <==> it == End()
    {
    }

    /** Iterators of a valid tree are equal exactly when they sit at the same place. */
    lemma IteratorEqualsIffSamePosition(a: Iterator, b: Iterator)
      requires Valid() && IsValidIterator(a) && IsValidIterator(b)
      ensures IteratorEquals(a, b) <==> a == b
    {
      if IteratorEquals(a, b) && a != End() && b != End() {
        var n := |a.trace| - 1;
        assert a.str[..|a.str|] == a.str && b.str[..|b.str|] == b.str;
        assert nodeOf[a.str] == a.trace[n] == nodeOf[b.str];
      }
    }

    /* ---------------------------------------------------------------------- */
    /* Iterators                                                               */
    /* ---------------------------------------------------------------------- */

    /** const_iterator::operator==: same tree and same trace. */
    function IteratorEquals(a: Iterator, b: Iterator): (r: bool)
      ensures r <==> a.tst == b.tst && a.trace == b.trace
    {
      a.tst == b.tst && a.trace == b.trace
    }

    /** const_iterator::operator*: the string at which the iterator sits. */
    function Deref(it: Iterator): (s: string)
      reads this
      requires IsIteratorAt(it, it.str)
      ensures s in nodeOf && nodeOf[s] == it.trace[|it.trace| - 1]
    {
      assert it.str[..|it.str|] == it.str;
      it.str
    }

    /**
     * The private iterator constructor: collects the chain of parents of
     * `where` (the node of `s`) and then spells its string from the letters.
     */
    method IteratorFrom(where: Node?, ghost s: string) returns (it: Iterator)
      requires Shape()
      requires where != null ==> s in nodeOf && nodeOf[s] == where
      ensures where == null ==> it == End()
      ensures where != null ==> IsIteratorAt(it, s)
    {
      if where == null {
        return Iterator(this, [], []);
      }
      var trace := TraceTo(where, s);
      var str := Spell(trace, s);
      it := Iterator(this, trace, str);
    }

    /** The first loop of the iterator constructor: push parents to the front. */
    method TraceTo(where: Node, ghost s: string) returns (trace: seq<Node>)
      requires Shape() && s in nodeOf && nodeOf[s] == where
      ensures TraceOf(trace, s)
    {
      trace := [];
      var curr: Node? := where;
      ghost var k: int := |s|;
      TakeFull(s);
      while curr != null
        invariant -1 <= k <= |s| && |trace| == |s| - k
        invariant curr == null <==> k == -1
        invariant k >= 0 ==> s[..k] in nodeOf && curr == nodeOf[s[..k]]
        invariant forall i :: k < i <= |s| ==> s[..i] in nodeOf && trace[i - k - 1] == nodeOf[s[..i]]
        decreases k + 1
      {
        trace := [curr] + trace;
        if k > 0 {
          TakeSnoc(s, k - 1);
        } else {
          assert s[..k] == [];
        }
        curr := curr.parent;
        k := k - 1;
      }
    }

    /** The second loop of the iterator constructor: the letters below the root spell the string. */
    method Spell(trace: seq<Node>, ghost s: string) returns (str: string)
      requires Shape() && TraceOf(trace, s)
      ensures str == s
    {
      str := [];
      var i := 1;
      while i < |trace|
        invariant 1 <= i <= |trace| && str == s[..i - 1]
      {
        TakeSnoc(s, i - 1);
        str := str + [trace[i].letter];
        i := i + 1;
      }
      TakeFull(s);
    }

    /**
     * firstWordIn: from the node of `t`, follow smallest children until a
     * node that ends a string; that string is the least stored one below `t`.
     */
    method FirstWordIn(from: Node?, ghost t: string) returns (r: Node?, ghost m: string)
      requires Valid()
      requires from != null ==> t in nodeOf && nodeOf[t] == from
      ensures from == null ==> r == null
      ensures from != null ==> r != null && m in nodeOf && nodeOf[m] == r && IsFirstWithPrefix(Contents, t, m)
    {
      if from == null {
        return null, [];
      }
      r := from;
      m := t;
      ghost var bound := MaxLength(Contents);
      while !r.isWord
        invariant m in nodeOf && nodeOf[m] == r
        invariant forall x :: IsFirstWithPrefix(Contents, m, x) ==> IsFirstWithPrefix(Contents, t, x)
        decreases bound - |m|
      {
        FirstChildInTrie(m);
        var c := FirstKey(r.children);
        forall x | IsFirstWithPrefix(Contents, m + [c], x) ensures IsFirstWithPrefix(Contents, t, x) {
          DescendToFirstChild(Contents, m, c, x);
        }
        r := r.children[c];
        m := m + [c];
        ghost var w :| w in Contents && IsPrefix(m, w);
      }
      MemberIsFirst(Contents, m);
    }

    /** begin(): the iterator at the least stored string, or end() when empty. */
    method Begin() returns (it: Iterator)
      requires Valid()
      ensures IsValidIterator(it)
      ensures it == End() <==> Contents == {}
      ensures it != End() ==> IsLeast(Contents, it.str)
    {
      RootIffNonEmpty();
      var first;
      ghost var m;
      first, m := FirstWordIn(root, []);
      it := IteratorFrom(first, m);
      if first != null {
        FirstOfRootIsLeast(Contents, m);
      }
    }

    /**
     * const_iterator::operator++: descend to the smallest child if there is
     * one; otherwise climb until some ancestor has a child after the letter
     * climbed from, or fall off the root (end()).  Then descend along
     * smallest children to the first node that ends a string.
     */
    method Increment(it: Iterator) returns (r: Iterator)
      requires Valid() && it.str in Contents && IsIteratorAt(it, it.str)
      ensures IsValidIterator(r)
      ensures r == End() <==> forall w :: w in Contents ==> !Lt(it.str, w)
      ensures r != End() ==> IsLeastAfter(Contents, it.str, r.str, true)
    {
      var s := it.str;
      var trace := it.trace;
      var str := it.str;
      TakeFull(s);
      var top := trace[|trace| - 1];
      ChildrenAreTrieChildren(s);
      if top.children != map[] {
        var c := FirstKey(top.children);
        TraceExtend(trace, s, c);
        trace := trace + [top.children[c]];
        str := str + [c];
        var m;
        trace, m := DescendToWord(trace, str);
        SuccessorBelow(Contents, s, c, m);
        r := Iterator(this, trace, m);
      } else {
        NothingBelowLeaf(Contents, s);
        var found;
        trace, str, found := ClimbToSibling(trace, s);
        if !found {
          return Iterator(this, trace, str);
        }
        var m;
        trace, m := DescendToWord(trace, str);
        r := Iterator(this, trace, m);
      }
    }

    /**
     * The climbing loop of operator++: pop the trace until the node reached
     * has a child after the letter popped, and step to that child.  Either
     * the result is a node below which the first member is the successor of
     * `s`, or the trace has run out and nothing follows `s`.
     */
    method ClimbToSibling(trace0: seq<Node>, s: string) returns (trace: seq<Node>, str: string, found: bool)
      requires Valid() && TraceOf(trace0, s) && NoneAfterWithPrefix(Contents, s, s, true)
      ensures found ==> str in nodeOf && TraceOf(trace, str)
      ensures found ==> forall x :: IsFirstWithPrefix(Contents, str, x) ==> IsLeastAfter(Contents, s, x, true)
      ensures !found ==> trace == [] && str == [] && forall w :: w in Contents ==> !Lt(s, w)
    {
      trace := trace0;
      str := s;
      ghost var W := Contents;
      ghost var j := |s|;
      TakeFull(s);
      while true
        invariant 0 <= j <= |s| && str == s[..j] && TraceOf(trace, str)
        invariant NoneAfterWithPrefix(W, s, s[..j], true)
        decreases j
      {
        var lastChar := trace[|trace| - 1].letter;
        ghost var last := trace;
        trace := trace[..|trace| - 1];
        if |trace| == 0 {
          forall w | w in W ensures !Lt(s, w) {
            assert IsPrefix([], w);
          }
          return trace, str, false;
        }
        TakeSnoc(s, j - 1);
        LastLetter(s[..j]);
        TakeFull(str);
        TracePop(last, s[..j]);
        str := str[..|str| - 1];
        assert str == s[..j - 1];
        var parent := trace[|trace| - 1];
        TakeFull(str);
        var next := NextKey(parent.children, lastChar);
        NextChildInTrie(str, lastChar, next);
        if next.Some? {
          var d := next.value;
          forall x | IsFirstWithPrefix(W, str + [d], x) ensures IsLeastAfter(W, s, x, true) {
            ClimbToNextSibling(W, s, j, d, x, true);
          }
          TraceExtend(trace, str, d);
          trace := trace + [parent.children[d]];
          str := str + [d];
          return trace, str, true;
        }
        ClimbPastLastSibling(W, s, j, true);
        j := j - 1;
      }
    }

    /** The descending loop of operator++: follow smallest children to the first node that ends a string. */
    method DescendToWord(trace0: seq<Node>, t: string) returns (trace: seq<Node>, m: string)
      requires Valid() && t in nodeOf && TraceOf(trace0, t)
      ensures TraceOf(trace, m) && IsFirstWithPrefix(Contents, t, m)
    {
      trace := trace0;
      m := t;
      ghost var bound := MaxLength(Contents);
      ghost var w0 :| w0 in Contents && IsPrefix(m, w0);
      while (TakeFull(m); !trace[|trace| - 1].isWord)
        invariant m in nodeOf && TraceOf(trace, m)
        invariant forall x :: IsFirstWithPrefix(Contents, m, x) ==> IsFirstWithPrefix(Contents, t, x)
        decreases bound - |m|
      {
        var top := trace[|trace| - 1];
        FirstChildInTrie(m);
        var c := FirstKey(top.children);
        forall x | IsFirstWithPrefix(Contents, m + [c], x) ensures IsFirstWithPrefix(Contents, t, x) {
          DescendToFirstChild(Contents, m, c, x);
        }
        TraceExtend(trace, m, c);
        trace := trace + [top.children[c]];
        m := m + [c];
        ghost var w :| w in Contents && IsPrefix(m, w);
      }
      MemberIsFirst(Contents, m);
    }

    /* ---------------------------------------------------------------------- */
    /* Queries                                                                 */
    /* ---------------------------------------------------------------------- */

    /** size(): the number of stored strings. */
    function Size(): (n: nat)
      reads this, Repr
      requires Valid()
      ensures n == |Contents|
    {
      size
    }

    /** empty(): no string is stored. */
    function Empty(): (e: bool)
      reads this, Repr
      requires Valid()
      ensures e <==> Contents == {}
    {
      size == 0
    }

    /** find(str): the iterator at `s` when it is stored, end() otherwise. */
    method Find(s: string) returns (it: Iterator)
      requires Valid()
      ensures IsValidIterator(it)
      ensures s in Contents ==> IsIteratorAt(it, s)
      ensures s !in Contents ==> it == End()
    {
      if root == null {
        return End();
      }
      var curr := root;
      var i := 0;
      while i < |s|
        invariant 0 <= i <= |s| && s[..i] in nodeOf && curr == nodeOf[s[..i]]
      {
        TakeSnoc(s, i);
        if s[i] !in curr.children {
          ChildrenAreTrieChildren(s[..i]);
          TakeIsPrefix(s, i + 1);
          return End();
        }
        curr := curr.children[s[i]];
        i := i + 1;
      }
      TakeFull(s);
      if curr.isWord {
        it := IteratorFrom(curr, s);
      } else {
        it := End();
      }
    }

    /**
     * lower_bound(str): walk down along `s`; where a letter is missing,
     * back up looking for the next larger sibling at each level, and take the
     * first string below it.  The result is the least stored string >= `s`.
     */
    method LowerBound(s: string) returns (it: Iterator)
      requires Valid()
      ensures IsValidIterator(it)
      ensures it == End() <==> forall w :: w in Contents ==> !After(s, w, false)
      ensures it != End() ==> IsLeastAfter(Contents, s, it.str, false)
    {
      RootIffNonEmpty();
      if root == null {
        return End();
      }
      if |s| == 0 {
        it := Begin();
        return;
      }
      var curr, i := WalkDown(s);
      if i < |s| {
        it := Backtrack(curr, s, i);
        return;
      }
      TakeFull(s);
      var first;
      ghost var m;
      first, m := FirstWordIn(curr, s);
      FirstBelowKeyIsLowerBound(Contents, s, m);
      it := IteratorFrom(first, m);
    }

    /**
     * The descending loop of lower_bound: follow the letters of `s` from the
     * root while the children exist.  Stops at `s` itself, or at the node of
     * `s[..i]` lacking the child `s[i]`.
     */
    method WalkDown(s: string) returns (curr: Node, i: nat)
      requires Valid() && root != null
      ensures i <= |s| && s[..i] in nodeOf && curr == nodeOf[s[..i]]
      ensures i < |s| ==> !IsPrefixOfSome(s[..i + 1], Contents)
    {
      curr := root;
      i := 0;
      while i < |s|
        invariant 0 <= i <= |s| && s[..i] in nodeOf && curr == nodeOf[s[..i]]
      {
        TakeSnoc(s, i);
        if s[i] !in curr.children {
          ChildrenAreTrieChildren(s[..i]);
          return;
        }
        curr := curr.children[s[i]];
        i := i + 1;
      }
    }

    /**
     * The backtracking loop of lower_bound: the node of `s[..i]` has no child
     * `s[i]`; at each level from `i` down to 0 look for the next larger child.
     */
    method Backtrack(curr: Node, s: string, i: nat) returns (it: Iterator)
      requires Valid() && i < |s| && s[..i] in nodeOf && curr == nodeOf[s[..i]]
      requires !IsPrefixOfSome(s[..i + 1], Contents)
      ensures IsValidIterator(it)
      ensures it == End() <==> forall w :: w in Contents ==> !After(s, w, false)
      ensures it != End() ==> IsLeastAfter(Contents, s, it.str, false)
    {
      ghost var W := Contents;
      var node: Node? := curr;
      var backtrack: int := i;
      while backtrack >= 0
        invariant -1 <= backtrack <= i
        invariant backtrack >= 0 ==> s[..backtrack] in nodeOf && node == nodeOf[s[..backtrack]]
        invariant NoneAfterWithPrefix(W, s, s[..backtrack + 1], false)
        decreases backtrack + 1
      {
        var successor := NextKey(node.children, s[backtrack]);
        if successor.Some? {
          it := FirstAfterSibling(node, s, backtrack, successor.value);
          return;
        }
        ClimbLevel(s, backtrack, false);
        node := node.parent;
        backtrack := backtrack - 1;
      }
      NothingAfter(W, s, false);
      it := End();
    }

    /** Where lower_bound finds a larger sibling `d` of `s[b]`, the first string below it is the answer. */
    method FirstAfterSibling(node: Node, s: string, b: nat, d: char) returns (it: Iterator)
      requires Valid() && b < |s| && s[..b] in nodeOf && node == nodeOf[s[..b]]
      requires NoneAfterWithPrefix(Contents, s, s[..b + 1], false)
      requires NextKey(node.children, s[b]) == Some(d)
      ensures it != End() && IsValidIterator(it) && IsLeastAfter(Contents, s, it.str, false)
    {
      var first;
      ghost var m;
      NextChildInTrie(s[..b], s[b], Some(d));
      TakeTake(s, b + 1, b);
      first, m := FirstWordIn(node.children[d], s[..b] + [d]);
      ClimbToNextSibling(Contents, s, b + 1, d, m, false);
      it := IteratorFrom(first, m);
    }

    /** upper_bound(str): the least stored string > `s`. */
    method UpperBound(s: string) returns (it: Iterator)
      requires Valid()
      ensures IsValidIterator(it)
      ensures it == End() <==> forall w :: w in Contents ==> !Lt(s, w)
      ensures it != End() ==> IsLeastAfter(Contents, s, it.str, true)
    {
      it := LowerBound(s);
      if IteratorEquals(it, End()) {
        forall w | w in Contents ensures !Lt(s, w) {
          assert !After(s, w, false);
        }
        return;
      }
      if Deref(it) == s {
        it := Increment(it);
      } else {
        LowerBoundNotKey(Contents, s, it.str);
      }
    }

    /** equal_range(str): the pair (lower_bound, upper_bound); it is empty exactly when `s` is absent. */
    method EqualRange(s: string) returns (lo: Iterator, hi: Iterator)
      requires Valid()
      ensures IsValidIterator(lo) && IsValidIterator(hi)
      ensures lo == End() <==> forall w :: w in Contents ==> !After(s, w, false)
      ensures lo != End() ==> IsLeastAfter(Contents, s, lo.str, false)
      ensures hi == End() <==> forall w :: w in Contents ==> !Lt(s, w)
      ensures hi != End() ==> IsLeastAfter(Contents, s, hi.str, true)
      ensures s in Contents <==> lo != hi
    {
      lo := LowerBound(s);
      hi := UpperBound(s);
      if s in Contents {
        assert lo.str == s by {
          LeastAfterUnique(Contents, s, lo.str, s, false);
        }
        if hi != End() { LtIrreflexive(s); }
      } else if lo != End() {
        LowerBoundNotKey(Contents, s, lo.str);
        LeastAfterUnique(Contents, s, lo.str, hi.str, true);
        TraceUnique(lo.trace, hi.trace, lo.str);
      } else if hi != End() {
        assert After(s, hi.str, false);
      }
    }

    /* ---------------------------------------------------------------------- */
    /* Updates                                                                 */
    /* ---------------------------------------------------------------------- */

    /** Hangs a fresh, non-terminal leaf labelled `c` below the node of `t`. */
    method AddChild(curr: Node, ghost t: string, c: char) returns (n: Node)
      requires Shape() && t in nodeOf && nodeOf[t] == curr && t + [c] !in nodeOf
      modifies this`nodeOf, this`Repr, curr`children
      ensures Shape() && fresh(n) && n.children == map[] && !n.isWord
      ensures nodeOf == old(nodeOf)[t + [c] := n] && Repr == old(Repr) + {n}
      ensures curr.children == old(curr.children)[c := n]
      ensures n == nodeOf[t + [c]]
    {
      n := new Node(c, curr, false, t + [c]);
      curr.children := curr.children[c := n];
      nodeOf := nodeOf[t + [c] := n];
      Repr := Repr + {n};
      forall u, d | u + [d] in nodeOf
        ensures u in nodeOf && nodeOf[u + [d]].parent == nodeOf[u] && nodeOf[u + [d]].letter == d
        ensures d in nodeOf[u].children && nodeOf[u].children[d] == nodeOf[u + [d]]
      {
        if u + [d] == t + [c] {
          assert u == (u + [d])[..|u|] == (t + [c])[..|t|] == t;
        }
      }
    }

    /**
     * The trie of `W` extended by the path of `p`: the nodes are the
     * prefixes of members of `W` and of `p`, and the flags mark `W`.
     */
    ghost predicate PathTo(W: set<string>, p: string)
      reads this, Repr
    {
      && Shape()
      && (forall t :: t in nodeOf <==> IsPrefixOfSome(t, W) || IsPrefix(t, p))
      && (forall t :: t in nodeOf ==> (nodeOf[t].isWord <==> t in W))
    }

    /** One step of the insert loop: follow the child `s[i]`, creating it when it is missing. */
    method StepDown(curr: Node, ghost W: set<string>, s: string, i: nat) returns (n: Node)
      requires i < |s| && PathTo(W, s[..i]) && s[..i] in nodeOf && curr == nodeOf[s[..i]]
      modifies this`nodeOf, this`Repr, curr`children
      ensures PathTo(W, s[..i + 1]) && s[..i + 1] in nodeOf && n == nodeOf[s[..i + 1]]
      ensures fresh(Repr - old(Repr))
      ensures forall t :: t in old(nodeOf) ==> t in nodeOf && nodeOf[t] == old(nodeOf[t])
      ensures old(s[..i + 1] in nodeOf) ==> nodeOf == old(nodeOf) && Repr == old(Repr) && unchanged(curr)
    {
      TakeSnoc(s, i);
      if s[i] !in curr.children {
        n := AddChild(curr, s[..i], s[i]);
        forall t ensures t in nodeOf <==> IsPrefixOfSome(t, W) || IsPrefix(t, s[..i + 1]) {
          if IsPrefix(t, s[..i + 1]) && t != s[..i + 1] {
            assert IsPrefix(t, s[..i]);
          }
        }
      } else {
        n := curr.children[s[i]];
        forall t | IsPrefix(t, s[..i + 1]) && t != s[..i + 1] ensures IsPrefix(t, s[..i]) {
        }
      }
    }

    /** The loop of insert: walk down along `s` from the root, growing the missing part of the path. */
    method FollowOrGrow(s: string, ghost W: set<string>) returns (curr: Node)
      requires root != null && PathTo(W, [])
      modifies this`nodeOf, this`Repr, Repr
      ensures PathTo(W, s) && s in nodeOf && curr == nodeOf[s]
      ensures fresh(Repr - old(Repr))
      ensures s in W ==> nodeOf == old(nodeOf) && Repr == old(Repr) && unchanged(Repr)
    {
      curr := root;
      var i := 0;
      assert s[..i] == [];
      while i < |s|
        invariant 0 <= i <= |s| && PathTo(W, s[..i])
        invariant s[..i] in nodeOf && curr == nodeOf[s[..i]]
        invariant fresh(Repr - old(Repr))
        invariant s in W ==> nodeOf == old(nodeOf) && Repr == old(Repr) && unchanged(Repr)
      {
        if s in W {
          TakeIsPrefix(s, i + 1);
          assert IsPrefixOfSome(s[..i + 1], W);
        }
        curr := StepDown(curr, W, s, i);
        i := i + 1;
      }
      TakeFull(s);
    }

    /** The end of insert: flag the node of `s` as the end of a stored string. */
    method MarkWord(curr: Node, ghost s: string, ghost W: set<string>)
      requires PathTo(W, s) && s in nodeOf && curr == nodeOf[s] && !curr.isWord
      requires Contents == W && size == |W|
      modifies this`size, this`Contents, curr`isWord
      ensures Valid() && Contents == W + {s}
    {
      curr.isWord := true;
      size := size + 1;
      Contents := Contents + {s};
      forall t ensures t in nodeOf <==> IsPrefixOfSome(t, Contents) {
        PrefixOfSomeAdd(W, s, t);
      }
    }

    /** A valid tree with a root is the trie of its contents extended by the empty path. */
    lemma ValidIsPathToRoot()
      requires Valid() && root != null
      ensures PathTo(Contents, [])
    {
    }

    /** The first step of insert into an empty tree: create the root node. */
    method MakeRoot()
      requires Valid() && root == null
      modifies this`root, this`nodeOf, this`Repr
      ensures root != null && PathTo(Contents, []) && fresh(Repr - old(Repr))
    {
      RootIffNonEmpty();
      root := new Node(0 as char, null, false, []);
      nodeOf := map[[] := root];
      Repr := {root};
    }

    /** insert(str): adds `s` and reports whether it was absent; the iterator sits at `s`. */
    method Insert(s: string) returns (it: Iterator, inserted: bool)
      requires Valid()
      modifies this, Repr
      ensures Valid() && fresh(Repr - old(Repr))
      ensures Contents == old(Contents) + {s}
      ensures inserted <==> s !in old(Contents)
      ensures IsIteratorAt(it, s)
      ensures !inserted ==> nodeOf == old(nodeOf) && Repr == old(Repr) && size == old(size) && unchanged(Repr)
    {
      ghost var W := Contents;
      if root == null {
        MakeRoot();
      } else {
        ValidIsPathToRoot();
      }
      var curr := FollowOrGrow(s, W);
      if curr.isWord {
        inserted := false;
        it := IteratorFrom(curr, s);
        return;
      }
      MarkWord(curr, s, W);
      inserted := true;
      it := IteratorFrom(curr, s);
    }

    /** A childless node that ends no string lies outside the trie of `W`: it is only on the extra path. */
    lemma DeadLeaf(W: set<string>, p: string)
      requires PathTo(W, p) && p in nodeOf && nodeOf[p].children == map[] && !nodeOf[p].isWord
      ensures !IsPrefixOfSome(p, W)
    {
      NonMemberHasChild(W, p);
    }

    /**
     * One step of the cleanup loop of erase: unhook the childless node of `p`
     * from its parent (or clear the root) and forget it.
     */
    method DetachLeaf(curr: Node, ghost W: set<string>, ghost p: string)
      requires PathTo(W, p) && p in nodeOf && curr == nodeOf[p] && curr.children == map[] && !curr.isWord
      modifies this`root, this`nodeOf, this`Repr, (if curr.parent == null then {} else {curr.parent})`children
      ensures nodeOf == old(nodeOf) - {p} && Repr == old(Repr) - {curr}
      ensures |p| > 0 ==> PathTo(W, p[..|p| - 1]) && p[..|p| - 1] in nodeOf && curr.parent == nodeOf[p[..|p| - 1]]
      ensures |p| == 0 ==> Shape() && root == null && W == {} && forall t :: t !in nodeOf
    {
      DeadLeaf(W, p);
      Unhook(curr, p);
      if |p| > 0 {
        forall t ensures t in nodeOf <==> IsPrefixOfSome(t, W) || IsPrefix(t, p[..|p| - 1]) {
          PathShrink(W, p, t);
        }
      } else {
        forall w | w in W ensures false {
          assert IsPrefix([], w);
        }
        forall t | t in nodeOf ensures false {
          assert IsPrefix([], t);
        }
      }
    }

    /** The pointer surgery of one cleanup step: drop the childless node of `p` from its parent's map, or clear the root. */
    method Unhook(curr: Node, ghost p: string)
      requires Shape() && p in nodeOf && curr == nodeOf[p] && curr.children == map[]
      modifies this`root, this`nodeOf, this`Repr, (if curr.parent == null then {} else {curr.parent})`children
      ensures Shape() && nodeOf == old(nodeOf) - {p} && Repr == old(Repr) - {curr}
      ensures |p| == 0 ==> root == null
      ensures |p| > 0 ==> root == old(root) && p[..|p| - 1] in nodeOf && curr.parent == nodeOf[p[..|p| - 1]]
    {
      if |p| > 0 {
        LastLetter(p);
        assert p == p[..|p| - 1] + [curr.letter];
      }
      if curr.parent == null {
        UnhookRoot(curr);
      } else {
        UnhookChild(curr, p[..|p| - 1], p);
      }
    }

    /** Clearing a childless root leaves the empty tree. */
    method UnhookRoot(curr: Node)
      requires Shape() && [] in nodeOf && curr == nodeOf[[]] && curr.children == map[]
      modifies this`root, this`nodeOf, this`Repr
      ensures Shape() && nodeOf == old(nodeOf) - {[]} && Repr == old(Repr) - {curr} && root == null
    {
      ghost var N := nodeOf;
      root := null;
      nodeOf := nodeOf - {[]};
      Repr := Repr - {curr};
      forall t, c | t + [c] in nodeOf
        ensures t in nodeOf && nodeOf[t + [c]].parent == nodeOf[t] && nodeOf[t + [c]].letter == c
        ensures c in nodeOf[t].children && nodeOf[t].children[c] == nodeOf[t + [c]]
      {
        assert t + [c] in N;
      }
    }

    /** Dropping the childless node of `p = q + [letter]` from the child map of its parent `q`. */
    method UnhookChild(curr: Node, ghost q: string, ghost p: string)
      requires Shape() && p in nodeOf && curr == nodeOf[p] && curr.children == map[]
      requires p == q + [curr.letter] && q in nodeOf && curr.parent == nodeOf[q]
      modifies this`nodeOf, this`Repr, curr.parent`children
      ensures Shape() && nodeOf == old(nodeOf) - {p} && Repr == old(Repr) - {curr}
    {
      ghost var N := nodeOf;
      var parent := curr.parent;
      parent.children := parent.children - {curr.letter};
      nodeOf := nodeOf - {p};
      Repr := Repr - {curr};
      forall t, c | t + [c] in nodeOf
        ensures t in nodeOf && nodeOf[t + [c]].parent == nodeOf[t] && nodeOf[t + [c]].letter == c
        ensures c in nodeOf[t].children && nodeOf[t].children[c] == nodeOf[t + [c]]
      {
        assert t + [c] in N;
      }
      forall t, c | t in nodeOf && c in nodeOf[t].children ensures t + [c] in nodeOf {
        if t == q {
          assert c != curr.letter;
        }
      }
    }

    /** A path to a node of the trie of `W` adds no node: the tree is the trie of `W` exactly. */
    lemma PathInsideTrie(W: set<string>, p: string)
      requires PathTo(W, p) && IsPrefixOfSome(p, W)
      ensures forall t :: t in nodeOf <==> IsPrefixOfSome(t, W)
    {
      forall t | IsPrefix(t, p) ensures IsPrefixOfSome(t, W) {
        PrefixOfSomeClosed(t, p, W);
      }
    }

    /** The first half of erase: clear the word flag of `s`; its path stays. */
    method UnmarkWord(curr: Node, ghost s: string)
      requires Valid() && s in Contents && s in nodeOf && curr == nodeOf[s]
      modifies this`size, this`Contents, curr`isWord
      ensures Contents == old(Contents) - {s} && size == |Contents| && PathTo(Contents, s)
    {
      ghost var W := Contents;
      curr.isWord := false;
      size := size - 1;
      Contents := Contents - {s};
      assert Contents + {s} == W;
      forall t ensures t in nodeOf <==> IsPrefixOfSome(t, Contents) || IsPrefix(t, s) {
        PrefixOfSomeAdd(Contents, s, t);
      }
    }

    /**
     * The cleanup loop of erase: from the node of `s` upwards, remove nodes
     * that have no children and end no string, stopping at the first node
     * that must stay (or after removing the root).
     */
    method PruneFrom(curr0: Node, ghost W: set<string>, ghost s: string)
      requires PathTo(W, s) && s in nodeOf && curr0 == nodeOf[s]
      modifies this`root, this`nodeOf, this`Repr, Repr`children
      ensures Shape() && Repr <= old(Repr)
      ensures forall t :: t in nodeOf <==> IsPrefixOfSome(t, W)
      ensures forall t :: t in nodeOf ==> (nodeOf[t].isWord <==> t in W)
      ensures forall t :: t in nodeOf ==> t in old(nodeOf) && nodeOf[t] == old(nodeOf[t])
    {
      var curr: Node? := curr0;
      ghost var k: int := |s|;
      TakeFull(s);
      while curr != null && curr.children == map[] && !curr.isWord
        invariant -1 <= k <= |s| && (curr == null <==> k < 0) && Repr <= old(Repr)
        invariant k >= 0 ==> PathTo(W, s[..k]) && s[..k] in nodeOf && curr == nodeOf[s[..k]]
        invariant k < 0 ==> Shape() && W == {} && forall t :: t !in nodeOf
        invariant forall t :: t in nodeOf ==> t in old(nodeOf) && nodeOf[t] == old(nodeOf[t])
        decreases k + 1
      {
        curr := PruneStep(curr, W, s, k);
        k := k - 1;
      }
      if k >= 0 {
        PruneStops(W, s[..k]);
      }
    }

    /** The cleanup loop stops at a node with children or ending a word: that node must stay, and the tree is the trie of `W`. */
    lemma PruneStops(W: set<string>, p: string)
      requires PathTo(W, p) && p in nodeOf && (nodeOf[p].children != map[] || nodeOf[p].isWord)
      ensures forall t :: t in nodeOf <==> IsPrefixOfSome(t, W)
    {
      if !nodeOf[p].isWord {
        var c :| c in nodeOf[p].children;
        assert IsPrefixOfSome(p + [c], W);
        PrefixOfSomeClosed(p, p + [c], W);
      }
      PathInsideTrie(W, p);
    }

    /** One round of the cleanup loop: detach the dead node of `s[..k]` and return its parent. */
    method PruneStep(curr: Node, ghost W: set<string>, ghost s: string, ghost k: nat) returns (parent: Node?)
      requires k <= |s| && PathTo(W, s[..k]) && s[..k] in nodeOf && curr == nodeOf[s[..k]]
      requires curr.children == map[] && !curr.isWord
      modifies this`root, this`nodeOf, this`Repr, Repr`children
      ensures Repr <= old(Repr) && parent == curr.parent
      ensures forall t :: t in nodeOf ==> t in old(nodeOf) && nodeOf[t] == old(nodeOf[t])
      ensures k > 0 ==> PathTo(W, s[..k - 1]) && s[..k - 1] in nodeOf && parent == nodeOf[s[..k - 1]]
      ensures k == 0 ==> parent == null && Shape() && W == {} && forall t :: t !in nodeOf
    {
      ParentInRepr(s[..k]);
      DetachLeaf(curr, W, s[..k]);
      if k > 0 {
        TakeTake(s, k, k - 1);
      }
      parent := curr.parent;
    }

    /** The body of erase after the iterator has been advanced: unflag `s` and prune. */
    method RemoveWord(curr: Node, ghost s: string)
      requires Valid() && s in Contents && s in nodeOf && curr == nodeOf[s]
      modifies this, Repr
      ensures Valid() && Contents == old(Contents) - {s} && Repr <= old(Repr)
      ensures forall t :: t in nodeOf ==> t in old(nodeOf) && nodeOf[t] == old(nodeOf[t])
    {
      UnmarkWord(curr, s);
      PruneFrom(curr, Contents, s);
    }

    /**
     * erase(iterator): step the iterator to the successor first, then clear
     * the word flag and prune the dead branch.  The successor survives the
     * pruning, so the returned iterator is valid in the new tree.
     */
    method EraseAt(where: Iterator) returns (r: Iterator)
      requires Valid() && where.str in Contents && IsIteratorAt(where, where.str)
      modifies this, Repr
      ensures Valid() && Contents == old(Contents) - {where.str} && Repr <= old(Repr)
      ensures forall t :: t in nodeOf ==> t in old(nodeOf) && nodeOf[t] == old(nodeOf[t])
      ensures forall it: Iterator :: old(allocated(it)) && old(IsValidIterator(it)) && it.str != where.str ==> IsValidIterator(it)
      ensures IsValidIterator(r)
      ensures r == End() <==> forall w :: w in old(Contents) ==> !Lt(where.str, w)
      ensures r != End() ==> IsLeastAfter(old(Contents), where.str, r.str, true)
    {
      ghost var s := where.str;
      ghost var m := nodeOf;
      TakeFull(s);
      var curr := where.trace[|where.trace| - 1];
      r := Increment(where);
      RemoveWord(curr, s);
      forall it: Iterator | old(allocated(it)) && old(IsValidIterator(it)) && it.str != s ensures IsValidIterator(it) {
        if it != End() {
          IteratorSurvives(it, m);
        }
      }
      if r != End() {
        LtIrreflexive(s);
        IteratorSurvives(r, m);
      }
    }

    /**
     * An iterator at a member that is still stored keeps its position when
     * every remaining node is the one it was: the node stack need not change.
     */
    lemma IteratorSurvives(it: Iterator, m: map<string, Node>)
      requires Valid() && it.tst == this && it.str in Contents && |it.trace| == |it.str| + 1
      requires forall i :: 0 <= i <= |it.str| ==> it.str[..i] in m && it.trace[i] == m[it.str[..i]]
      requires forall t :: t in nodeOf ==> t in m && nodeOf[t] == m[t]
      ensures IsValidIterator(it)
    {
      forall i | 0 <= i <= |it.str| ensures it.str[..i] in nodeOf && it.trace[i] == nodeOf[it.str[..i]] {
        TakeIsPrefix(it.str, i);
        assert IsPrefixOfSome(it.str[..i], Contents);
      }
    }

    /** erase(str): erase `s` if it is stored, and report whether it was. */
    method Erase(s: string) returns (erased: bool)
      requires Valid()
      modifies this, Repr
      ensures Valid() && Contents == old(Contents) - {s} && Repr <= old(Repr)
      ensures erased <==> s in old(Contents)
      ensures !erased ==> nodeOf == old(nodeOf) && Repr == old(Repr)
      ensures forall t :: t in nodeOf ==> t in old(nodeOf) && nodeOf[t] == old(nodeOf[t])
      ensures forall it: Iterator :: old(allocated(it)) && old(IsValidIterator(it)) && it.str != s ==> IsValidIterator(it)
    {
      var it := Find(s);
      IteratorEqualsIffSamePosition(it, End());
      if IteratorEquals(it, End()) {
        return false;
      }
      var _ := EraseAt(it);
      return true;
    }

    /** swap: exchange the roots and sizes (and with them the abstract values) of two trees. */
    method Swap(other: Tree)
      requires Valid() && other.Valid()
      modifies this, other
      ensures Valid() && other.Valid()
      ensures Contents == old(other.Contents) && other.Contents == old(Contents)
      ensures Repr == old(other.Repr) && other.Repr == old(Repr)
    {
      var r, n := root, size;
      ghost var m, c, rep := nodeOf, Contents, Repr;
      Take(other.root, other.size, other.nodeOf, other.Contents, other.Repr);
      other.Take(r, n, m, c, rep);
    }

    /** One half of swap: this tree takes over the given fields, which describe a valid tree. */
    method Take(r: Node?, n: nat, ghost m: map<string, Node>, ghost c: set<string>, ghost rep: set<Node>)
      requires TrieOf(r, m, c, rep) && n == |c|
      modifies this
      ensures Valid() && root == r && nodeOf == m && Contents == c && Repr == rep
    {
      root, size, nodeOf, Contents, Repr := r, n, m, c, rep;
    }
  }
}
