/**
 * A hash map by separate chaining: a sequence of buckets, each a list of
 * (key, value) pairs, and a cached count of the pairs.  A pair with key `k`
 * lives in bucket `hash(k) % |buckets|` and no key occurs twice.  Iterators
 * walk the buckets in order and each bucket front to back.
 *
 * Keys are compared with Dafny's `==`, standing for the map's `KeyEqual`;
 * the hash is a function field, so any hash may be plugged in, and the
 * string hash is given concretely.
 */
module HashMap {
  import opened Wrappers

  /** The bucket count a map gets when none is asked for. */
  const DefaultBucketCount: nat := 101

  /** size_t arithmetic wraps around modulo 2^64. */
  const SizeModulus: nat := 0x1_0000_0000_0000_0000

  /** A character of a string key read as an unsigned char. */
  newtype byte = x: int | 0 <= x < 256

  // ---------------------------------------------------------------------
  // The string hash
  // ---------------------------------------------------------------------

  /** The sum of the codes of a key's characters, without wrap-around. */
  function ByteSum(key: seq<byte>): nat
  {
    if key == [] then 0 else ByteSum(key[..|key| - 1]) + key[|key| - 1] as nat
  }

  /** The hash of a string key: the sum of its character codes, modulo 2^64. */
  function StringHash(key: seq<byte>): (h: nat)
    ensures h < SizeModulus
    ensures ByteSum(key) < SizeModulus ==> h == ByteSum(key)
  {
    ByteSum(key) % SizeModulus
  }

  /** Reducing before a wrapping addition changes nothing. */
  lemma WrapAdd(a: nat, b: nat)
    ensures (a % SizeModulus + b) % SizeModulus == (a + b) % SizeModulus
  {
    var q := a / SizeModulus;
    assert a == q * SizeModulus + a % SizeModulus;
    assert a + b == q * SizeModulus + (a % SizeModulus + b);
  }

  /** The string hash as the source computes it: one wrapping addition per character. */
  method HashString(key: seq<byte>) returns (sum: nat)
    ensures sum == StringHash(key)
    ensures sum < SizeModulus
  {
    sum := 0;
    for i := 0 to |key|
      invariant sum == ByteSum(key[..i]) % SizeModulus
    {
      assert key[..i + 1][..i] == key[..i];
      WrapAdd(ByteSum(key[..i]), key[i] as nat);
      sum := (sum + key[i] as nat) % SizeModulus;
    }
    assert key[..|key|] == key;
  }

  /** The byte sum of a concatenation is the sum of the byte sums. */
  lemma {:induction false} ByteSumAppend(a: seq<byte>, b: seq<byte>)
    ensures ByteSum(a + b) == ByteSum(a) + ByteSum(b)
  {
    if b == [] {
      assert a + b == a;
    } else {
      var c := a + b;
      assert c[..|c| - 1] == a + b[..|b| - 1];
      ByteSumAppend(a, b[..|b| - 1]);
    }
  }

  /** Keys that are rearrangements of each other have the same byte sum. */
  lemma {:induction false} ByteSumPermutation(a: seq<byte>, b: seq<byte>)
    requires multiset(a) == multiset(b)
    ensures ByteSum(a) == ByteSum(b)
    decreases |a|
  {
    if a == [] {
      assert |b| == |multiset(b)| == 0;
    } else {
      var x := a[|a| - 1];
      var a' := a[..|a| - 1];
      assert a == a' + [x];
      assert x in multiset(b);
      var j :| 0 <= j < |b| && b[j] == x;
      ByteSumRemove(b, j);
      ByteSumPermutation(a', b[..j] + b[j + 1..]);
    }
  }

  /** Taking the byte at `j` out of `b` removes it from both the multiset and the sum. */
  lemma ByteSumRemove(b: seq<byte>, j: nat)
    requires j < |b|
    ensures multiset(b[..j] + b[j + 1..]) == multiset(b) - multiset{b[j]}
    ensures ByteSum(b) == ByteSum(b[..j] + b[j + 1..]) + b[j] as nat
  {
    var front, back := b[..j], b[j + 1..];
    SplitAround(b, j);
    ByteSumAppend(front + [b[j]], back);
    ByteSumAppend(front, [b[j]]);
    ByteSumAppend(front, back);
    ByteSumSingle(b[j]);
  }

  /** A sequence is the part before `j`, the element at `j` and the part after it. */
  lemma SplitAround<T>(s: seq<T>, j: nat)
    requires j < |s|
    ensures s == s[..j] + [s[j]] + s[j + 1..]
    ensures multiset(s[..j] + s[j + 1..]) == multiset(s) - multiset{s[j]}
  {
    assert s == s[..j] + [s[j]] + s[j + 1..];
  }

  /** A one-byte string sums to its byte. */
  lemma ByteSumSingle(x: byte)
    ensures ByteSum([x]) == x as nat
  {
    assert [x][..0] == [];
  }

  /** Anagrams collide: the string hash ignores the order of the characters. */
  lemma AnagramsCollide(a: seq<byte>, b: seq<byte>)
    requires multiset(a) == multiset(b)
    ensures StringHash(a) == StringHash(b)
  {
    ByteSumPermutation(a, b);
  }

  // ---------------------------------------------------------------------
  // Buckets in iteration order
  // ---------------------------------------------------------------------

  /** All pairs in iteration order: bucket after bucket, each front to back. */
  function Flatten<K, V>(bs: seq<seq<(K, V)>>): seq<(K, V)>
  {
    if bs == [] then [] else Flatten(bs[..|bs| - 1]) + bs[|bs| - 1]
  }

  lemma {:induction false} FlattenAppend<K, V>(a: seq<seq<(K, V)>>, b: seq<seq<(K, V)>>)
    ensures Flatten(a + b) == Flatten(a) + Flatten(b)
  {
    if b == [] {
      assert a + b == a;
    } else {
      var c := a + b;
      assert c[..|c| - 1] == a + b[..|b| - 1];
      FlattenAppend(a, b[..|b| - 1]);
    }
  }

  /** Bucket `b` sits in the iteration order between the buckets before and after it. */
  lemma FlattenSplit<K, V>(bs: seq<seq<(K, V)>>, b: nat)
    requires b < |bs|
    ensures Flatten(bs) == Flatten(bs[..b]) + bs[b] + Flatten(bs[b + 1..])
  {
    var front, back := bs[..b + 1], bs[b + 1..];
    assert bs == front + back;
    FlattenAppend(front, back);
    assert front[..b] == bs[..b];
  }

  /** Buckets that are all empty hold no pairs. */
  lemma {:induction false} FlattenEmpty<K, V>(bs: seq<seq<(K, V)>>)
    requires forall b :: 0 <= b < |bs| ==> bs[b] == []
    ensures Flatten(bs) == []
  {
    if bs != [] {
      FlattenEmpty(bs[..|bs| - 1]);
    }
  }

  /** Empty buckets form a well-formed map with no pairs. */
  lemma EmptyWellFormed<K, V>(hash: K -> nat, bs: seq<seq<(K, V)>>)
    requires |bs| > 0 && forall b :: 0 <= b < |bs| ==> bs[b] == []
    ensures WellFormed(hash, bs, 0) && KeysOf(bs) == {}
  {
    FlattenEmpty(bs);
    forall b, i ensures PlacedAt(hash, bs, b, i) {
      if 0 <= b < |bs| {
        assert bs[b] == [];
      }
    }
    forall b, i, j ensures DistinctAt(bs, b, i, j) {
      if 0 <= b < |bs| {
        assert bs[b] == [];
      }
    }
  }

  /** The number of pairs in the buckets before bucket `b`. */
  function Offset<K, V>(bs: seq<seq<(K, V)>>, b: nat): nat
    requires b <= |bs|
  {
    |Flatten(bs[..b])|
  }

  lemma OffsetNext<K, V>(bs: seq<seq<(K, V)>>, b: nat)
    requires b < |bs|
    ensures Offset(bs, b + 1) == Offset(bs, b) + |bs[b]|
  {
    assert bs[..b + 1][..b] == bs[..b];
  }

  lemma OffsetAll<K, V>(bs: seq<seq<(K, V)>>)
    ensures Offset(bs, |bs|) == |Flatten(bs)|
  {
    assert bs[..|bs|] == bs;
  }

  lemma OffsetPrefix<K, V>(bs: seq<seq<(K, V)>>, n: nat, b: nat)
    requires b <= n <= |bs|
    ensures Offset(bs[..n], b) == Offset(bs, b)
  {
    assert bs[..n][..b] == bs[..b];
  }

  lemma OffsetMonotone<K, V>(bs: seq<seq<(K, V)>>, i: nat, j: nat)
    requires i <= j <= |bs|
    ensures Offset(bs, i) <= Offset(bs, j)
  {
    assert bs[..j] == bs[..i] + bs[i..j];
    FlattenAppend(bs[..i], bs[i..j]);
  }

  // ---------------------------------------------------------------------
  // Iterators
  // ---------------------------------------------------------------------

  /**
   * An iterator: a bucket index and a position in that bucket's list.  The
   * end iterator stands just past the last pair of the last bucket.
   */
  datatype Iterator = Iterator(bucket: nat, pos: nat)

  /** `it` names a stored pair. */
  predicate IsElem<K, V>(bs: seq<seq<(K, V)>>, it: Iterator) {
    it.bucket < |bs| && it.pos < |bs[it.bucket]|
  }

  /** The end iterator: the end of the last bucket's list. */
  function EndOf<K, V>(bs: seq<seq<(K, V)>>): Iterator
    requires |bs| > 0
  {
    Iterator(|bs| - 1, |bs[|bs| - 1]|)
  }

  /** `it` names a stored pair or is the end iterator. */
  predicate IsIter<K, V>(bs: seq<seq<(K, V)>>, it: Iterator) {
    |bs| > 0 && (IsElem(bs, it) || it == EndOf(bs))
  }

  /** How many pairs the iteration order puts before `it`. */
  function Rank<K, V>(bs: seq<seq<(K, V)>>, it: Iterator): nat
    requires it.bucket < |bs|
  {
    Offset(bs, it.bucket) + it.pos
  }

  /** The pair an element position names sits at its rank in the iteration order. */
  lemma FlattenAt<K, V>(bs: seq<seq<(K, V)>>, it: Iterator)
    requires IsElem(bs, it)
    ensures Rank(bs, it) < |Flatten(bs)|
    ensures Flatten(bs)[Rank(bs, it)] == bs[it.bucket][it.pos]
  {
    FlattenSplit(bs, it.bucket);
  }

  /** The end iterator comes after every pair. */
  lemma RankEnd<K, V>(bs: seq<seq<(K, V)>>)
    requires |bs| > 0
    ensures Rank(bs, EndOf(bs)) == |Flatten(bs)|
  {
    OffsetNext(bs, |bs| - 1);
    OffsetAll(bs);
  }

  /** Every pair's position lies below the offset of any later bucket. */
  lemma RankBelowLater<K, V>(bs: seq<seq<(K, V)>>, it: Iterator, b: nat)
    requires IsElem(bs, it) && it.bucket < b <= |bs|
    ensures Rank(bs, it) < Offset(bs, b)
  {
    OffsetNext(bs, it.bucket);
    OffsetMonotone(bs, it.bucket + 1, b);
  }

  /** Different iterators have different ranks. */
  lemma RankInjective<K, V>(bs: seq<seq<(K, V)>>, a: Iterator, c: Iterator)
    requires IsIter(bs, a) && IsIter(bs, c) && Rank(bs, a) == Rank(bs, c)
    ensures a == c
  {
    RankEnd(bs);
    if IsElem(bs, a) && IsElem(bs, c) && a.bucket != c.bucket {
      if a.bucket < c.bucket {
        RankBelowLater(bs, a, c.bucket);
      } else {
        RankBelowLater(bs, c, a.bucket);
      }
    } else if IsElem(bs, a) && !IsElem(bs, c) {
      FlattenAt(bs, a);
    } else if !IsElem(bs, a) && IsElem(bs, c) {
      FlattenAt(bs, c);
    }
  }

  /** Every rank below the number of pairs is the rank of a stored pair. */
  ghost function PositionOf<K, V>(bs: seq<seq<(K, V)>>, r: nat): (it: Iterator)
    requires r < |Flatten(bs)|
    ensures IsElem(bs, it) && Rank(bs, it) == r
    decreases |bs|
  {
    var last := |bs| - 1;
    OffsetNext(bs, last);
    OffsetAll(bs);
    if r < Offset(bs, last) then
      assert Flatten(bs[..last]) == Flatten(bs[..|bs| - 1]);
      var it := PositionOf(bs[..last], r);
      OffsetPrefix(bs, last, it.bucket);
      it
    else
      Iterator(last, r - Offset(bs, last))
  }

  // ---------------------------------------------------------------------
  // The representation invariant and the abstract map
  // ---------------------------------------------------------------------

  /** The pair at position `i` of bucket `b` lies in the bucket its key hashes to. */
  ghost predicate PlacedAt<K, V>(hash: K -> nat, bs: seq<seq<(K, V)>>, b: int, i: int) {
    0 <= b < |bs| && 0 <= i < |bs[b]| ==> hash(bs[b][i].0) % |bs| == b
  }

  /** Positions `i` and `j` of bucket `b` hold different keys. */
  ghost predicate DistinctAt<K, V>(bs: seq<seq<(K, V)>>, b: int, i: int, j: int) {
    0 <= b < |bs| && 0 <= i < j < |bs[b]| ==> bs[b][i].0 != bs[b][j].0
  }

  /**
   * There is at least one bucket, every pair lies in the bucket its key
   * hashes to, no bucket holds a key twice (so no key occurs twice in the
   * map), and the cached size is the number of pairs.
   */
  ghost predicate WellFormed<K, V>(hash: K -> nat, bs: seq<seq<(K, V)>>, size: nat) {
    && |bs| > 0
    && (forall b, i :: PlacedAt(hash, bs, b, i))
    && (forall b, i, j :: DistinctAt(bs, b, i, j))
    && size == |Flatten(bs)|
  }

  /** The keys stored in the buckets. */
  ghost function KeysOf<K, V>(bs: seq<seq<(K, V)>>): set<K> {
    set b, i | 0 <= b < |bs| && 0 <= i < |bs[b]| :: bs[b][i].0
  }

  /** The first position in `chain` holding key `k`, or `|chain|` when there is none. */
  function FindIn<K(==), V>(chain: seq<(K, V)>, k: K): (p: nat)
    ensures p <= |chain|
    ensures p < |chain| ==> chain[p].0 == k
    ensures forall j :: 0 <= j < p ==> chain[j].0 != k
  {
    if chain == [] then 0
    else if chain[0].0 == k then 0
    else 1 + FindIn(chain[1..], k)
  }

  /** A position holding `k` with no `k` before it is the one `FindIn` returns. */
  lemma FindInUnique<K, V>(chain: seq<(K, V)>, k: K, p: nat)
    requires p <= |chain| && (p < |chain| ==> chain[p].0 == k)
    requires forall j :: 0 <= j < p ==> chain[j].0 != k
    ensures FindIn(chain, k) == p
  {
  }

  /** The bucket `k` belongs in. */
  function BucketOf<K, V>(hash: K -> nat, bs: seq<seq<(K, V)>>, k: K): (b: nat)
    requires |bs| > 0
    ensures b < |bs|
  {
    hash(k) % |bs|
  }

  /** A key is stored exactly when the search of its bucket finds it. */
  lemma KeyInBucket<K, V>(hash: K -> nat, bs: seq<seq<(K, V)>>, size: nat, k: K)
    requires WellFormed(hash, bs, size)
    ensures var h := BucketOf(hash, bs, k);
      k in KeysOf(bs) <==> FindIn(bs[h], k) < |bs[h]|
  {
    var h := BucketOf(hash, bs, k);
    var p := FindIn(bs[h], k);
    if p < |bs[h]| {
      assert bs[h][p].0 in KeysOf(bs);
    }
    if k in KeysOf(bs) {
      var b, i :| 0 <= b < |bs| && 0 <= i < |bs[b]| && bs[b][i].0 == k;
      assert PlacedAt(hash, bs, b, i);
      assert b == h;
    }
  }

  /** A stored pair is the first, and only, pair of its bucket with its key. */
  lemma StoredIsFound<K, V>(hash: K -> nat, bs: seq<seq<(K, V)>>, size: nat, it: Iterator)
    requires WellFormed(hash, bs, size) && IsElem(bs, it)
    ensures var k := bs[it.bucket][it.pos].0;
      it.bucket == BucketOf(hash, bs, k) && FindIn(bs[it.bucket], k) == it.pos
  {
    var k := bs[it.bucket][it.pos].0;
    assert PlacedAt(hash, bs, it.bucket, it.pos);
    forall j | 0 <= j < it.pos ensures bs[it.bucket][j].0 != k {
      assert DistinctAt(bs, it.bucket, j, it.pos);
    }
    FindInUnique(bs[it.bucket], k, it.pos);
  }

  /** The value stored under `k`, looked up where the map looks for it. */
  function ValueIn<K(==), V>(hash: K -> nat, bs: seq<seq<(K, V)>>, k: K): Option<V>
    requires |bs| > 0
  {
    var h := BucketOf(hash, bs, k);
    var p := FindIn(bs[h], k);
    if p < |bs[h]| then Some(bs[h][p].1) else None
  }

  /** The map the buckets represent: each stored key to its value. */
  ghost function MappingOf<K, V>(hash: K -> nat, bs: seq<seq<(K, V)>>): map<K, V>
    requires |bs| > 0
  {
    map k | k in KeysOf(bs) && ValueIn(hash, bs, k).Some? :: ValueIn(hash, bs, k).value
  }

  /** The map's domain is the set of stored keys, and its value is the one the lookup finds. */
  lemma MappingDomain<K, V>(hash: K -> nat, bs: seq<seq<(K, V)>>, size: nat)
    requires WellFormed(hash, bs, size)
    ensures MappingOf(hash, bs).Keys == KeysOf(bs)
    ensures forall k :: ValueIn(hash, bs, k).Some? <==> k in KeysOf(bs)
  {
    forall k ensures ValueIn(hash, bs, k).Some? <==> k in KeysOf(bs) {
      KeyInBucket(hash, bs, size, k);
    }
  }

  // ---------------------------------------------------------------------
  // Changing one bucket
  // ---------------------------------------------------------------------

  lemma FlattenReplace<K, V>(bs: seq<seq<(K, V)>>, b: nat, c: seq<(K, V)>)
    requires b < |bs|
    ensures Flatten(bs[b := c]) == Flatten(bs[..b]) + c + Flatten(bs[b + 1..])
  {
    var bs' := bs[b := c];
    FlattenSplit(bs', b);
    assert bs'[..b] == bs[..b];
    assert bs'[b + 1..] == bs[b + 1..];
  }

  /** Replacing bucket `b` shifts the offsets of the later buckets by the change in its length. */
  lemma OffsetReplace<K, V>(bs: seq<seq<(K, V)>>, b: nat, c: seq<(K, V)>, j: nat)
    requires b < |bs| && j <= |bs|
    ensures j <= b ==> Offset(bs[b := c], j) == Offset(bs, j)
    ensures b < j ==> Offset(bs[b := c], j) + |bs[b]| == Offset(bs, j) + |c|
  {
    var bs' := bs[b := c];
    if j <= b {
      assert bs'[..j] == bs[..j];
    } else {
      FlattenSplit(bs[..j], b);
      FlattenSplit(bs'[..j], b);
      assert bs[..j][..b] == bs[..b] == bs'[..j][..b];
      assert bs[..j][b + 1..] == bs[b + 1..j] == bs'[..j][b + 1..];
      assert bs'[..j][b] == c;
    }
  }

  /** The buckets after erasing the pair that `e` names. */
  function Erased<K, V>(bs: seq<seq<(K, V)>>, e: Iterator): seq<seq<(K, V)>>
    requires IsElem(bs, e)
  {
    bs[e.bucket := bs[e.bucket][..e.pos] + bs[e.bucket][e.pos + 1..]]
  }

  /**
   * Where the pair `it` names sits once the pair `e` names is erased: the
   * later pairs of the same bucket move down one place, the others stay.
   * (A list iterator names a node; a position has to follow the node.)
   */
  function AfterErase(it: Iterator, e: Iterator): Iterator {
    if it.bucket == e.bucket && e.pos < it.pos then Iterator(it.bucket, it.pos - 1) else it
  }

  /** A pair ranked before an iterator lies in an earlier bucket, or earlier in the same one. */
  lemma RankOrder<K, V>(bs: seq<seq<(K, V)>>, a: Iterator, c: Iterator)
    requires IsElem(bs, a) && IsIter(bs, c) && Rank(bs, a) < Rank(bs, c)
    ensures a.bucket < c.bucket || (a.bucket == c.bucket && a.pos < c.pos)
  {
    if c.bucket < a.bucket {
      RankBelowLater(bs, c, a.bucket);
    }
  }

  /** Erasing a pair keeps every later iterator valid and lowers its rank by one. */
  lemma EraseShift<K, V>(bs: seq<seq<(K, V)>>, e: Iterator, it: Iterator)
    requires IsElem(bs, e) && IsIter(bs, it) && Rank(bs, e) < Rank(bs, it)
    ensures IsIter(Erased(bs, e), AfterErase(it, e))
    ensures Rank(Erased(bs, e), AfterErase(it, e)) + 1 == Rank(bs, it)
  {
    var c := bs[e.bucket][..e.pos] + bs[e.bucket][e.pos + 1..];
    RankOrder(bs, e, it);
    OffsetReplace(bs, e.bucket, c, it.bucket);
  }

  /** Erasing a pair removes exactly that pair from the iteration order. */
  lemma EraseFlatten<K, V>(bs: seq<seq<(K, V)>>, e: Iterator)
    requires IsElem(bs, e)
    ensures var all, r := Flatten(bs), Rank(bs, e);
      r < |all| && Flatten(Erased(bs, e)) == all[..r] + all[r + 1..]
  {
    var b, p := e.bucket, e.pos;
    EraseFlattenParts(bs, e);
    RemoveMiddle(Flatten(bs), Flatten(bs[..b]), bs[b], Flatten(bs[b + 1..]), p);
  }

  /** The iteration orders before and after an erasure share the buckets before and after the changed one. */
  lemma EraseFlattenParts<K, V>(bs: seq<seq<(K, V)>>, e: Iterator)
    requires IsElem(bs, e)
    ensures var b, p := e.bucket, e.pos;
      && Flatten(bs) == Flatten(bs[..b]) + bs[b] + Flatten(bs[b + 1..])
      && Flatten(Erased(bs, e)) == Flatten(bs[..b]) + (bs[b][..p] + bs[b][p + 1..]) + Flatten(bs[b + 1..])
  {
    FlattenReplace(bs, e.bucket, bs[e.bucket][..e.pos] + bs[e.bucket][e.pos + 1..]);
    FlattenSplit(bs, e.bucket);
  }

  /** Removing element `p` of the middle part of a concatenation. */
  lemma RemoveMiddle<T>(all: seq<T>, before: seq<T>, middle: seq<T>, after: seq<T>, p: nat)
    requires all == before + middle + after && p < |middle|
    ensures |before| + p < |all|
    ensures all[..|before| + p] + all[|before| + p + 1..] == before + (middle[..p] + middle[p + 1..]) + after
  {
    var r := |before| + p;
    assert all[..r] == before + middle[..p];
    assert all[r + 1..] == middle[p + 1..] + after;
  }

  // ---------------------------------------------------------------------
  // Insertion and erasure keep the invariant and change the map as expected
  // ---------------------------------------------------------------------

  /** The buckets after appending `x` to the bucket of its key. */
  function Appended<K, V>(hash: K -> nat, bs: seq<seq<(K, V)>>, x: (K, V)): seq<seq<(K, V)>>
    requires |bs| > 0
  {
    var h := BucketOf(hash, bs, x.0);
    bs[h := bs[h] + [x]]
  }

  /** Appending a pair with an absent key keeps the map well formed with one more pair. */
  lemma AppendWellFormed<K, V>(hash: K -> nat, bs: seq<seq<(K, V)>>, size: nat, x: (K, V))
    requires WellFormed(hash, bs, size) && x.0 !in KeysOf(bs)
    ensures WellFormed(hash, Appended(hash, bs, x), size + 1)
  {
    var h := BucketOf(hash, bs, x.0);
    var bs' := Appended(hash, bs, x);
    forall b, i ensures PlacedAt(hash, bs', b, i) {
      assert PlacedAt(hash, bs, b, i);
    }
    forall b, i, j ensures DistinctAt(bs', b, i, j) {
      assert DistinctAt(bs, b, i, j);
      if b == h && 0 <= i < j == |bs[h]| {
        assert bs[h][i].0 in KeysOf(bs);
      }
    }
    FlattenReplace(bs, h, bs[h] + [x]);
    FlattenSplit(bs, h);
  }

  /** After appending `x`, its key maps to its value and every other key keeps its value. */
  lemma AppendValue<K, V>(hash: K -> nat, bs: seq<seq<(K, V)>>, size: nat, x: (K, V), k: K)
    requires WellFormed(hash, bs, size) && x.0 !in KeysOf(bs)
    ensures ValueIn(hash, Appended(hash, bs, x), k) == if k == x.0 then Some(x.1) else ValueIn(hash, bs, k)
  {
    var h := BucketOf(hash, bs, x.0);
    var bs' := Appended(hash, bs, x);
    var chain, chain' := bs[h], bs[h] + [x];
    if BucketOf(hash, bs, k) == h {
      KeyInBucket(hash, bs, size, x.0);
      var q := FindIn(chain, k);
      if k == x.0 {
        FindInUnique(chain', k, |chain|);
      } else if q < |chain| {
        FindInUnique(chain', k, q);
      } else {
        FindInUnique(chain', k, |chain| + 1);
      }
    }
  }

  /** The buckets after overwriting the value of the pair at `e`, as a write through `operator[]` does. */
  function Overwritten<K, V>(bs: seq<seq<(K, V)>>, e: Iterator, v: V): seq<seq<(K, V)>>
    requires IsElem(bs, e)
  {
    bs[e.bucket := bs[e.bucket][e.pos := (bs[e.bucket][e.pos].0, v)]]
  }

  /** Overwriting the value of a stored pair keeps the map well formed with the same size and keys. */
  lemma OverwriteWellFormed<K, V>(hash: K -> nat, bs: seq<seq<(K, V)>>, size: nat, e: Iterator, v: V)
    requires WellFormed(hash, bs, size) && IsElem(bs, e)
    ensures WellFormed(hash, Overwritten(bs, e, v), size)
    ensures KeysOf(Overwritten(bs, e, v)) == KeysOf(bs)
  {
    var bs' := Overwritten(bs, e, v);
    forall c, i ensures PlacedAt(hash, bs', c, i) {
      assert PlacedAt(hash, bs, c, i);
    }
    forall c, i, j ensures DistinctAt(bs', c, i, j) {
      assert DistinctAt(bs, c, i, j);
    }
    FlattenReplace(bs, e.bucket, bs'[e.bucket]);
    FlattenSplit(bs, e.bucket);
    forall k ensures k in KeysOf(bs') <==> k in KeysOf(bs) {
      if k in KeysOf(bs) {
        var c, i :| 0 <= c < |bs| && 0 <= i < |bs[c]| && bs[c][i].0 == k;
        assert bs'[c][i].0 == k;
      }
      if k in KeysOf(bs') {
        var c, i :| 0 <= c < |bs'| && 0 <= i < |bs'[c]| && bs'[c][i].0 == k;
        assert bs[c][i].0 == k;
      }
    }
  }

  /** After overwriting the value at `e`, its key has the new value and every other key keeps its value. */
  lemma OverwriteValue<K, V>(hash: K -> nat, bs: seq<seq<(K, V)>>, size: nat, e: Iterator, v: V, k: K)
    requires WellFormed(hash, bs, size) && IsElem(bs, e)
    ensures ValueIn(hash, Overwritten(bs, e, v), k) == if k == bs[e.bucket][e.pos].0 then Some(v) else ValueIn(hash, bs, k)
  {
    StoredIsFound(hash, bs, size, e);
    var h := BucketOf(hash, bs, k);
    FindInUnique(Overwritten(bs, e, v)[h], k, FindIn(bs[h], k));
  }

  /**
   * Overwriting the value of a stored pair keeps every key where it was:
   * the map stays well formed with the same size and keys, and only that
   * key's value changes.
   */
  lemma OverwriteMapping<K, V>(hash: K -> nat, bs: seq<seq<(K, V)>>, size: nat, e: Iterator, v: V)
    requires WellFormed(hash, bs, size) && IsElem(bs, e)
    ensures WellFormed(hash, Overwritten(bs, e, v), size)
    ensures KeysOf(Overwritten(bs, e, v)) == KeysOf(bs)
    ensures MappingOf(hash, Overwritten(bs, e, v)) == MappingOf(hash, bs)[bs[e.bucket][e.pos].0 := v]
  {
    OverwriteWellFormed(hash, bs, size, e, v);
    forall k {
      OverwriteValue(hash, bs, size, e, v, k);
    }
    MappingDomain(hash, bs, size);
    MappingDomain(hash, Overwritten(bs, e, v), size);
  }

  /** Erasing a stored pair keeps the map well formed with one pair fewer. */
  lemma EraseWellFormed<K, V>(hash: K -> nat, bs: seq<seq<(K, V)>>, size: nat, e: Iterator)
    requires WellFormed(hash, bs, size) && IsElem(bs, e)
    ensures size > 0 && WellFormed(hash, Erased(bs, e), size - 1)
  {
    var h, p := e.bucket, e.pos;
    var bs' := Erased(bs, e);
    forall b, i ensures PlacedAt(hash, bs', b, i) {
      if b == h && 0 <= i {
        assert PlacedAt(hash, bs, b, if i < p then i else i + 1);
      } else {
        assert PlacedAt(hash, bs, b, i);
      }
    }
    forall b, i, j ensures DistinctAt(bs', b, i, j) {
      if b == h && 0 <= i < j {
        assert DistinctAt(bs, b, if i < p then i else i + 1, if j < p then j else j + 1);
      } else {
        assert DistinctAt(bs, b, i, j);
      }
    }
    EraseFlatten(bs, e);
    FlattenAt(bs, e);
  }

  /** After erasing the pair `e` names, its key is absent and every other key keeps its value. */
  lemma EraseValue<K, V>(hash: K -> nat, bs: seq<seq<(K, V)>>, size: nat, e: Iterator, k: K)
    requires WellFormed(hash, bs, size) && IsElem(bs, e)
    ensures ValueIn(hash, Erased(bs, e), k) == if k == bs[e.bucket][e.pos].0 then None else ValueIn(hash, bs, k)
  {
    var h, p := e.bucket, e.pos;
    StoredIsFound(hash, bs, size, e);
    forall j | p < j < |bs[h]| ensures bs[h][j].0 != bs[h][p].0 {
      assert DistinctAt(bs, h, p, j);
    }
    ChainErase(bs[h], p, k);
  }

  /**
   * Removing position `p` of a bucket whose key occurs there only: the
   * search no longer finds that key and finds every other key as before.
   */
  lemma ChainErase<K, V>(chain: seq<(K, V)>, p: nat, k: K)
    requires p < |chain| && FindIn(chain, chain[p].0) == p
    requires forall j :: p < j < |chain| ==> chain[j].0 != chain[p].0
    ensures var chain' := chain[..p] + chain[p + 1..];
      var q, q' := FindIn(chain, k), FindIn(chain', k);
      && (k == chain[p].0 ==> q' == |chain'|)
      && (k != chain[p].0 ==> (q' < |chain'| <==> q < |chain|) && (q' < |chain'| ==> chain'[q'] == chain[q]))
  {
    var chain' := chain[..p] + chain[p + 1..];
    var q := FindIn(chain, k);
    if k == chain[p].0 {
      FindInUnique(chain', k, |chain'|);
    } else if q < p {
      FindInUnique(chain', k, q);
    } else {
      FindInUnique(chain', k, q - 1);
    }
  }

  /** Appending a pair with an absent key adds that key, mapped to the pair's value. */
  lemma AppendMapping<K, V>(hash: K -> nat, bs: seq<seq<(K, V)>>, size: nat, x: (K, V))
    requires WellFormed(hash, bs, size) && x.0 !in KeysOf(bs)
    ensures WellFormed(hash, Appended(hash, bs, x), size + 1)
    ensures KeysOf(Appended(hash, bs, x)) == KeysOf(bs) + {x.0}
    ensures MappingOf(hash, Appended(hash, bs, x)) == MappingOf(hash, bs)[x.0 := x.1]
  {
    var bs' := Appended(hash, bs, x);
    AppendWellFormed(hash, bs, size, x);
    MappingDomain(hash, bs, size);
    MappingDomain(hash, bs', size + 1);
    forall k ensures ValueIn(hash, bs', k) == if k == x.0 then Some(x.1) else ValueIn(hash, bs, k) {
      AppendValue(hash, bs, size, x, k);
    }
    assert forall k :: k in KeysOf(bs') <==> k in KeysOf(bs) + {x.0};
  }

  /** Erasing a stored pair removes its key and leaves every other key's value. */
  lemma EraseMapping<K, V>(hash: K -> nat, bs: seq<seq<(K, V)>>, size: nat, e: Iterator)
    requires WellFormed(hash, bs, size) && IsElem(bs, e)
    ensures size > 0 && WellFormed(hash, Erased(bs, e), size - 1)
    ensures KeysOf(Erased(bs, e)) == KeysOf(bs) - {bs[e.bucket][e.pos].0}
    ensures MappingOf(hash, Erased(bs, e)) == MappingOf(hash, bs) - {bs[e.bucket][e.pos].0}
  {
    var bs' := Erased(bs, e);
    EraseWellFormed(hash, bs, size, e);
    MappingDomain(hash, bs, size);
    MappingDomain(hash, bs', size - 1);
    forall k ensures ValueIn(hash, bs', k) == if k == bs[e.bucket][e.pos].0 then None else ValueIn(hash, bs, k) {
      EraseValue(hash, bs, size, e, k);
    }
    assert forall k :: k in KeysOf(bs') <==> k in KeysOf(bs) - {bs[e.bucket][e.pos].0};
  }

  /** The iteration order lists every stored key exactly once. */
  lemma IterationKeysDistinct<K, V>(hash: K -> nat, bs: seq<seq<(K, V)>>, size: nat)
    requires WellFormed(hash, bs, size)
    ensures forall i, j :: 0 <= i < j < |Flatten(bs)| ==> Flatten(bs)[i].0 != Flatten(bs)[j].0
    ensures forall k :: k in KeysOf(bs) <==> exists i :: 0 <= i < |Flatten(bs)| && Flatten(bs)[i].0 == k
  {
    var all := Flatten(bs);
    forall i, j | 0 <= i < j < |all| ensures all[i].0 != all[j].0 {
      var a, c := PositionOf(bs, i), PositionOf(bs, j);
      FlattenAt(bs, a);
      FlattenAt(bs, c);
      StoredIsFound(hash, bs, size, a);
      StoredIsFound(hash, bs, size, c);
    }
    forall k ensures k in KeysOf(bs) <==> exists i :: 0 <= i < |all| && all[i].0 == k {
      if k in KeysOf(bs) {
        var b, p :| 0 <= b < |bs| && 0 <= p < |bs[b]| && bs[b][p].0 == k;
        FlattenAt(bs, Iterator(b, p));
      }
      if i :| 0 <= i < |all| && all[i].0 == k {
        var a := PositionOf(bs, i);
        FlattenAt(bs, a);
        assert bs[a.bucket][a.pos].0 in KeysOf(bs);
      }
    }
  }

  /** A map is empty exactly when it has no keys. */
  lemma EmptyIffNoKeys<K, V>(bs: seq<seq<(K, V)>>)
    ensures Flatten(bs) == [] <==> KeysOf(bs) == {}
  {
    if Flatten(bs) != [] {
      var a := PositionOf(bs, 0);
      assert bs[a.bucket][a.pos].0 in KeysOf(bs);
    }
    if KeysOf(bs) != {} {
      var k :| k in KeysOf(bs);
      var b, p :| 0 <= b < |bs| && 0 <= p < |bs[b]| && bs[b][p].0 == k;
      FlattenAt(bs, Iterator(b, p));
    }
  }

  /** No iterator ranks past the end. */
  lemma RankAtMost<K, V>(bs: seq<seq<(K, V)>>, it: Iterator)
    requires IsIter(bs, it)
    ensures Rank(bs, it) <= |Flatten(bs)|
    ensures IsElem(bs, it) <==> Rank(bs, it) < |Flatten(bs)|
  {
    RankEnd(bs);
    if IsElem(bs, it) {
      FlattenAt(bs, it);
    }
  }

  /** Of two different iterators, the one that does not rank higher ranks lower and names a pair. */
  lemma RankStrict<K, V>(bs: seq<seq<(K, V)>>, a: Iterator, c: Iterator)
    requires IsIter(bs, a) && IsIter(bs, c) && a != c && Rank(bs, a) <= Rank(bs, c)
    ensures Rank(bs, a) < Rank(bs, c) && IsElem(bs, a)
  {
    if Rank(bs, a) == Rank(bs, c) {
      RankInjective(bs, a, c);
    }
    RankAtMost(bs, a);
    RankAtMost(bs, c);
  }

  /** Dropping one more element right after a kept prefix. */
  lemma SkipOne<T>(xs: seq<T>, lo: nat, c: nat)
    requires lo <= c < |xs|
    ensures var ys := xs[..lo] + xs[c..];
      ys[..lo] + ys[lo + 1..] == xs[..lo] + xs[c + 1..]
  {
    var ys := xs[..lo] + xs[c..];
    assert ys[..lo] == xs[..lo];
    assert ys[lo + 1..] == xs[c + 1..];
  }

  /** The pairs of `bs` in order are those of `all` without positions `lo` up to `hi`. */
  ghost predicate Dropped<K, V>(bs: seq<seq<(K, V)>>, all: seq<(K, V)>, lo: nat, hi: nat) {
    lo <= hi <= |all| && Flatten(bs) == all[..lo] + all[hi..]
  }

  /**
   * One round of erasing a range: with `lo` pairs kept before `next` and the
   * pairs up to `stop` still to go, erasing at `next` keeps `stop` valid,
   * one rank lower, and drops one more pair of the original order.
   */
  lemma EraseRangeStep<K, V>(bs: seq<seq<(K, V)>>, all: seq<(K, V)>, lo: nat, hi: nat, next: Iterator, stop: Iterator)
    requires IsIter(bs, next) && IsIter(bs, stop) && next != stop
    requires Rank(bs, next) == lo <= Rank(bs, stop) <= hi
    requires Dropped(bs, all, lo, lo + hi - Rank(bs, stop))
    ensures IsElem(bs, next) && Rank(bs, next) < Rank(bs, stop)
    ensures var bs', stop' := Erased(bs, next), AfterErase(stop, next);
      && IsIter(bs', stop') && Rank(bs', stop') + 1 == Rank(bs, stop)
      && Dropped(bs', all, lo, lo + hi - Rank(bs', stop'))
  {
    RankStrict(bs, next, stop);
    RankAtMost(bs, stop);
    EraseShift(bs, next, stop);
    EraseFlatten(bs, next);
    SkipOne(all, lo, lo + hi - Rank(bs, stop));
  }

  // ---------------------------------------------------------------------
  // Inserting a sequence of pairs
  // ---------------------------------------------------------------------

  /** `m` after inserting `x`: a present key keeps its value. */
  function Put<K, V>(m: map<K, V>, x: (K, V)): map<K, V> {
    if x.0 in m then m else m[x.0 := x.1]
  }

  /** `m` after inserting the pairs of `xs` one after the other. */
  function PutAll<K, V>(m: map<K, V>, xs: seq<(K, V)>): map<K, V> {
    if xs == [] then m else Put(PutAll(m, xs[..|xs| - 1]), xs[|xs| - 1])
  }

  /** The keys of a sequence of pairs. */
  ghost function PairKeys<K, V>(xs: seq<(K, V)>): set<K> {
    set i | 0 <= i < |xs| :: xs[i].0
  }

  lemma PairKeysSnoc<K, V>(xs: seq<(K, V)>)
    requires xs != []
    ensures PairKeys(xs) == PairKeys(xs[..|xs| - 1]) + {xs[|xs| - 1].0}
  {
    var init := xs[..|xs| - 1];
    assert forall i :: 0 <= i < |init| ==> init[i] == xs[i];
  }

  /** Inserting a sequence adds exactly its keys and never overwrites a value. */
  lemma {:induction false} PutAllKeys<K, V>(m: map<K, V>, xs: seq<(K, V)>)
    ensures PutAll(m, xs).Keys == m.Keys + PairKeys(xs)
    ensures forall k :: k in m ==> PutAll(m, xs)[k] == m[k]
  {
    if xs != [] {
      PutAllKeys(m, xs[..|xs| - 1]);
      PairKeysSnoc(xs);
    }
  }

  /** A key new to `m` gets the value of its first occurrence in `xs`. */
  lemma {:induction false} PutAllFirst<K, V>(m: map<K, V>, xs: seq<(K, V)>, i: nat)
    requires i < |xs| && xs[i].0 !in m
    requires forall j :: 0 <= j < i ==> xs[j].0 != xs[i].0
    ensures xs[i].0 in PutAll(m, xs) && PutAll(m, xs)[xs[i].0] == xs[i].1
  {
    var init := xs[..|xs| - 1];
    PutAllKeys(m, init);
    if i < |init| {
      assert init[i] == xs[i];
      assert forall j :: 0 <= j < i ==> init[j] == xs[j];
      PutAllFirst(m, init, i);
    } else {
      assert xs[i].0 !in PairKeys(init) by {
        assert forall j :: 0 <= j < |init| ==> init[j] == xs[j];
      }
    }
  }

  // ---------------------------------------------------------------------
  // The map
  // ---------------------------------------------------------------------

  /** The error a construction with no buckets reports. */
  datatype Error = InvalidArgument

  class HashMap<K(==), V> {
    /** The buckets, each a list of pairs. */
    var buckets: seq<seq<(K, V)>>
    /** The number of pairs, kept alongside the buckets. */
    var size: nat
    /** The hash function. */
    var hash: K -> nat

    ghost predicate Valid()
      reads this
    {
      WellFormed(hash, buckets, size)
    }

    /** The stored keys. */
    ghost function Keys(): set<K>
      reads this
    {
      KeysOf(buckets)
    }

    /** The map the buckets represent. */
    ghost function Mapping(): (m: map<K, V>)
      reads this
      requires Valid()
      ensures m.Keys == Keys()
    {
      MappingDomain(hash, buckets, size);
      MappingOf(hash, buckets)
    }

    /** A map with `numBuckets` empty buckets; the bucket count is checked by `New`. */
    constructor(hash: K -> nat, numBuckets: nat)
      requires numBuckets > 0
      ensures Valid() && this.hash == hash && size == 0
      ensures |buckets| == numBuckets && forall b :: 0 <= b < numBuckets ==> buckets[b] == []
      ensures Keys() == {} && Mapping() == map[]
    {
      buckets := seq(numBuckets, _ => []);
      size := 0;
      this.hash := hash;
      new;
      EmptyWellFormed(hash, buckets);
    }

    function Size(): (n: nat)
      reads this
      requires Valid()
      ensures n == |Flatten(buckets)|
    {
      size
    }

    function Empty(): (b: bool)
      reads this
      requires Valid()
      ensures b <==> Keys() == {}
      ensures b <==> Flatten(buckets) == []
    {
      EmptyIffNoKeys(buckets);
      size == 0
    }

    function BucketCount(): (n: nat)
      reads this
      requires Valid()
      ensures n == |buckets| && n > 0
    {
      |buckets|
    }

    /** The number of pairs in bucket `n`, which is at most the map's size. */
    function BucketSize(n: nat): (r: nat)
      reads this
      requires Valid() && n < |buckets|
      ensures r == |buckets[n]| && r <= Size()
    {
      FlattenSplit(buckets, n);
      |buckets[n]|
    }

    /** The bucket key `k` belongs in, which holds `k` if it is stored. */
    function Bucket(k: K): (b: nat)
      reads this
      requires Valid()
      ensures b < |buckets| && b == hash(k) % |buckets|
      ensures k in Keys() ==> exists i :: 0 <= i < |buckets[b]| && buckets[b][i].0 == k
      ensures forall i :: 0 <= i < |buckets[b]| ==> hash(buckets[b][i].0) % |buckets| == b
    {
      KeyInBucket(hash, buckets, size, k);
      var b := BucketOf(hash, buckets, k);
      assert forall i :: 0 <= i < |buckets[b]| ==> hash(buckets[b][i].0) % |buckets| == b by {
        forall i | 0 <= i < |buckets[b]| ensures hash(buckets[b][i].0) % |buckets| == b {
          assert PlacedAt(hash, buckets, b, i);
        }
      }
      b
    }

    /** The end iterator, which ranks after every pair. */
    function End(): (it: Iterator)
      reads this
      requires |buckets| > 0
      ensures IsIter(buckets, it) && !IsElem(buckets, it)
      ensures Rank(buckets, it) == |Flatten(buckets)|
    {
      RankEnd(buckets);
      EndOf(buckets)
    }

    /**
     * The position of key `k` in its bucket (the bucket's length when `k`
     * is absent) and that bucket's index.
     */
    function FindElement(k: K): (r: (nat, nat))
      reads this
      requires Valid()
      ensures r.1 < |buckets| && r.1 == hash(k) % |buckets|
      ensures r.0 <= |buckets[r.1]|
      ensures r.0 < |buckets[r.1]| <==> k in Keys()
      ensures r.0 < |buckets[r.1]| ==> buckets[r.1][r.0] == (k, Mapping()[k])
    {
      KeyInBucket(hash, buckets, size, k);
      var b := BucketOf(hash, buckets, k);
      (FindIn(buckets[b], k), b)
    }

    /** An iterator to the pair with key `k`, or the end iterator when `k` is absent. */
    function Find(k: K): (it: Iterator)
      reads this
      requires Valid()
      ensures IsIter(buckets, it)
      ensures it == End() <==> k !in Keys()
      ensures k in Keys() ==> IsElem(buckets, it) && buckets[it.bucket][it.pos] == (k, Mapping()[k])
    {
      var (p, b) := FindElement(k);
      if p == |buckets[b]| then End() else Iterator(b, p)
    }

    /** 1 when `k` is stored, 0 otherwise. */
    function Count(k: K): (n: nat)
      reads this
      requires Valid()
      ensures n == 1 <==> k in Keys()
      ensures n == 0 <==> k !in Keys()
    {
      if Find(k) == End() then 0 else 1
    }

    /** The range of pairs with key `k`: both ends are `Find(k)`. */
    function EqualRange(k: K): (r: (Iterator, Iterator))
      reads this
      requires Valid()
      ensures r.0 == r.1 && IsIter(buckets, r.0)
      ensures k in Keys() ==> IsElem(buckets, r.0) && buckets[r.0.bucket][r.0.pos].0 == k
      ensures k !in Keys() ==> r.0 == End()
    {
      var it := Find(k);
      (it, it)
    }

    /** The first pair of the lowest non-empty bucket, or the end iterator when the map is empty. */
    method Begin() returns (it: Iterator)
      requires Valid()
      ensures IsIter(buckets, it) && Rank(buckets, it) == 0
      ensures it == End() <==> size == 0
    {
      if size == 0 {
        RankEnd(buckets);
        return End();
      }
      OffsetAll(buckets);
      var i := 0;
      while buckets[i] == []
        invariant i < |buckets| && Offset(buckets, i) == 0
        decreases |buckets| - i
      {
        OffsetNext(buckets, i);
        i := i + 1;
      }
      RankAtMost(buckets, Iterator(i, 0));
      return Iterator(i, 0);
    }

    /**
     * The iterator after `it`: the next pair of the same bucket, else the
     * first pair of the next non-empty bucket, else the end iterator.
     */
    method Increment(it: Iterator) returns (r: Iterator)
      requires IsElem(buckets, it)
      ensures IsIter(buckets, r)
      ensures Rank(buckets, r) == Rank(buckets, it) + 1
      ensures r.bucket > it.bucket || r == Iterator(it.bucket, it.pos + 1)
    {
      var b, p := it.bucket, it.pos + 1;
      if p == |buckets[b]| {
        OffsetNext(buckets, b);
        var i := b + 1;
        while i < |buckets|
          invariant b < i <= |buckets|
          invariant Offset(buckets, i) == Rank(buckets, it) + 1
        {
          if buckets[i] != [] {
            return Iterator(i, 0);
          }
          OffsetNext(buckets, i);
          i := i + 1;
        }
        RankEnd(buckets);
        OffsetAll(buckets);
        return End();
      }
      return Iterator(b, p);
    }

    /**
     * The iterator before `it`: the previous pair of the same bucket, else
     * the last pair of the previous non-empty bucket; from the first pair
     * (an invalid decrement) the end iterator.
     */
    method Decrement(it: Iterator) returns (r: Iterator)
      requires IsIter(buckets, it)
      ensures IsIter(buckets, r)
      ensures Rank(buckets, it) > 0 ==> IsElem(buckets, r) && Rank(buckets, r) + 1 == Rank(buckets, it)
      ensures Rank(buckets, it) == 0 ==> r == End()
    {
      if it.pos == 0 {
        var i: int := it.bucket - 1;
        while i >= 0
          invariant -1 <= i < it.bucket
          invariant Offset(buckets, i + 1) == Rank(buckets, it)
        {
          OffsetNext(buckets, i);
          if buckets[i] != [] {
            return Iterator(i, |buckets[i]| - 1);
          }
          i := i - 1;
        }
        return End();
      }
      return Iterator(it.bucket, it.pos - 1);
    }

    /**
     * Inserts `x` unless its key is present.  Returns an iterator to the pair
     * with that key, and whether `x` was added (at the end of its bucket).
     */
    method Insert(x: (K, V)) returns (it: Iterator, inserted: bool)
      requires Valid()
      modifies this
      ensures Valid() && hash == old(hash) && |buckets| == |old(buckets)|
      ensures inserted <==> x.0 !in old(Keys())
      ensures inserted ==> buckets == Appended(hash, old(buckets), x) && size == old(size) + 1
      ensures !inserted ==> buckets == old(buckets) && size == old(size)
      ensures Keys() == old(Keys()) + {x.0}
      ensures Mapping() == if inserted then old(Mapping())[x.0 := x.1] else old(Mapping())
      ensures IsElem(buckets, it) && buckets[it.bucket][it.pos] == (x.0, Mapping()[x.0])
    {
      var (p, b) := FindElement(x.0);
      inserted := false;
      if p == |buckets[b]| {
        AppendMapping(hash, buckets, size, x);
        buckets := buckets[b := buckets[b] + [x]];
        inserted := true;
        size := size + 1;
      }
      it := Iterator(b, p);
    }

    /** Inserts `x`, ignoring the position hint. */
    method InsertHint(hint: Iterator, x: (K, V)) returns (it: Iterator)
      requires Valid()
      modifies this
      ensures Valid() && hash == old(hash) && |buckets| == |old(buckets)|
      ensures Mapping() == Put(old(Mapping()), x)
      ensures IsElem(buckets, it) && buckets[it.bucket][it.pos] == (x.0, Mapping()[x.0])
    {
      var inserted;
      it, inserted := Insert(x);
    }

    /** Inserts the pairs of `xs` in order; a key already present keeps its value. */
    method InsertRange(xs: seq<(K, V)>)
      requires Valid()
      modifies this
      ensures Valid() && hash == old(hash) && |buckets| == |old(buckets)|
      ensures Mapping() == PutAll(old(Mapping()), xs)
    {
      for i := 0 to |xs|
        invariant Valid() && hash == old(hash) && |buckets| == |old(buckets)|
        invariant Mapping() == PutAll(old(Mapping()), xs[..i])
      {
        assert xs[..i + 1][..i] == xs[..i];
        var it, inserted := Insert(xs[i]);
      }
      assert xs[..|xs|] == xs;
    }

    /** The value of key `k`, after inserting `(k, default)` when `k` is absent. */
    method Get(k: K, default: V) returns (v: V)
      requires Valid()
      modifies this
      ensures Valid() && hash == old(hash) && |buckets| == |old(buckets)|
      ensures k in old(Keys()) ==> buckets == old(buckets) && size == old(size) && v == old(Mapping())[k]
      ensures k !in old(Keys()) ==> buckets == Appended(hash, old(buckets), (k, default)) && v == default
      ensures Mapping() == old(Mapping())[k := v]
    {
      var it, inserted := Insert((k, default));
      v := buckets[it.bucket][it.pos].1;
    }

    /**
     * A write `m[k] = v` through the reference `operator[]` returns: the
     * pair of `k` is found, or appended when `k` is absent, and its value
     * is overwritten with `v`.
     */
    method Set(k: K, v: V)
      requires Valid()
      modifies this
      ensures Valid() && hash == old(hash) && |buckets| == |old(buckets)|
      ensures size == if k in old(Keys()) then old(size) else old(size) + 1
      ensures Keys() == old(Keys()) + {k}
      ensures Mapping() == old(Mapping())[k := v]
    {
      ghost var before := Mapping();
      var it, inserted := Insert((k, v));
      ghost var bs: seq<seq<(K, V)>>, now: map<K, V> := buckets, Mapping();
      assert bs[it.bucket][it.pos].0 == k;
      assert now[k := v] == before[k := v];
      OverwriteMapping(hash, bs, size, it, v);
      buckets := Overwritten(buckets, it, v);
      assert MappingOf(hash, buckets) == now[k := v];
    }

    /** Erases the pair with key `k`; returns how many pairs were erased. */
    method EraseKey(k: K) returns (n: nat)
      requires Valid()
      modifies this
      ensures Valid() && hash == old(hash) && |buckets| == |old(buckets)|
      ensures k in old(Keys()) ==> n == 1 && buckets == Erased(old(buckets), old(Find(k))) && size == old(size) - 1
      ensures k !in old(Keys()) ==> n == 0 && buckets == old(buckets) && size == old(size)
      ensures Keys() == old(Keys()) - {k}
      ensures Mapping() == old(Mapping()) - {k}
    {
      var (p, b) := FindElement(k);
      if p < |buckets[b]| {
        EraseMapping(hash, buckets, size, Iterator(b, p));
        buckets := buckets[b := buckets[b][..p] + buckets[b][p + 1..]];
        size := size - 1;
        return 1;
      }
      return 0;
    }

    /**
     * Erases the pair `position` names and returns an iterator to the pair
     * that followed it, which now has the erased pair's rank.
     */
    method EraseAt(position: Iterator) returns (next: Iterator)
      requires Valid() && IsElem(buckets, position)
      modifies this
      ensures Valid() && hash == old(hash) && |buckets| == |old(buckets)|
      ensures buckets == Erased(old(buckets), position) && size == old(size) - 1
      ensures Mapping() == old(Mapping()) - {old(buckets)[position.bucket][position.pos].0}
      ensures var r := Rank(old(buckets), position);
        r < |Flatten(old(buckets))| && Flatten(buckets) == Flatten(old(buckets))[..r] + Flatten(old(buckets))[r + 1..]
      ensures IsIter(buckets, next) && Rank(buckets, next) == old(Rank(buckets, position))
    {
      var after := Increment(position);
      EraseMapping(hash, buckets, size, position);
      EraseShift(buckets, position, after);
      EraseFlatten(buckets, position);
      var b, p := position.bucket, position.pos;
      buckets := buckets[b := buckets[b][..p] + buckets[b][p + 1..]];
      size := size - 1;
      next := AfterErase(after, position);
    }

    /**
     * Erases the pairs from `first` up to, not including, `last`, and
     * returns `last`, which then names the pair at `first`'s rank.
     */
    method EraseRange(first: Iterator, last: Iterator) returns (r: Iterator)
      requires Valid() && IsIter(buckets, first) && IsIter(buckets, last)
      requires Rank(buckets, first) <= Rank(buckets, last)
      modifies this
      ensures Valid() && hash == old(hash) && |buckets| == |old(buckets)|
      ensures var lo, hi := old(Rank(buckets, first)), old(Rank(buckets, last));
        hi <= |old(Flatten(buckets))| &&
        Flatten(buckets) == old(Flatten(buckets))[..lo] + old(Flatten(buckets))[hi..]
      ensures IsIter(buckets, r) && Rank(buckets, r) == old(Rank(buckets, first))
    {
      ghost var all, lo, hi := Flatten(buckets), Rank(buckets, first), Rank(buckets, last);
      RankAtMost(buckets, last);
      assert all == all[..lo] + all[lo..];
      var next, stop := first, last;
      while next != stop
        invariant Valid() && hash == old(hash) && |buckets| == |old(buckets)|
        invariant IsIter(buckets, next) && IsIter(buckets, stop)
        invariant Rank(buckets, next) == lo <= Rank(buckets, stop) <= hi
        invariant Dropped(buckets, all, lo, lo + hi - Rank(buckets, stop))
        decreases Rank(buckets, stop)
      {
        next, stop := EraseRound(all, lo, hi, next, stop);
      }
      return stop;
    }

    /**
     * One round of the range erasure: erases the pair `next` names and
     * returns the iterator after it and `stop`, one rank lower.
     */
    method EraseRound(ghost all: seq<(K, V)>, ghost lo: nat, ghost hi: nat, next: Iterator, stop: Iterator)
      returns (next': Iterator, stop': Iterator)
      requires Valid() && IsIter(buckets, next) && IsIter(buckets, stop) && next != stop
      requires Rank(buckets, next) == lo <= Rank(buckets, stop) <= hi
      requires Dropped(buckets, all, lo, lo + hi - Rank(buckets, stop))
      modifies this
      ensures Valid() && hash == old(hash) && |buckets| == |old(buckets)|
      ensures IsIter(buckets, next') && IsIter(buckets, stop')
      ensures Rank(buckets, next') == lo <= Rank(buckets, stop') < old(Rank(buckets, stop))
      ensures Dropped(buckets, all, lo, lo + hi - Rank(buckets, stop'))
    {
      EraseRangeStep(buckets, all, lo, hi, next, stop);
      next' := EraseAt(next);
      stop' := AfterErase(stop, next);
    }

    /** Empties every bucket; the bucket count stays. */
    method Clear()
      requires Valid()
      modifies this
      ensures Valid() && hash == old(hash) && |buckets| == |old(buckets)| && size == 0
      ensures forall b :: 0 <= b < |buckets| ==> buckets[b] == []
      ensures Keys() == {} && Mapping() == map[]
    {
      var i := 0;
      while i < |buckets|
        invariant i <= |buckets| == |old(buckets)| && hash == old(hash)
        invariant forall b :: 0 <= b < i ==> buckets[b] == []
      {
        buckets := buckets[i := []];
        i := i + 1;
      }
      size := 0;
      EmptyWellFormed(hash, buckets);
    }

    /** Exchanges the contents, sizes and hash functions of two maps. */
    method Swap(other: HashMap<K, V>)
      requires Valid() && other.Valid()
      modifies this, other
      ensures Valid() && other.Valid()
      ensures buckets == old(other.buckets) && size == old(other.size) && hash == old(other.hash)
      ensures other.buckets == old(buckets) && other.size == old(size) && other.hash == old(hash)
    {
      var b, n, h := buckets, size, hash;
      buckets, size, hash := other.buckets, other.size, other.hash;
      other.buckets, other.size, other.hash := b, n, h;
    }

    /** Copy assignment: makes this map a copy of `rhs`; assigning a map to itself changes nothing. */
    method Assign(rhs: HashMap<K, V>)
      requires rhs.Valid()
      modifies this
      ensures Valid() && buckets == old(rhs.buckets) && size == old(rhs.size) && hash == old(rhs.hash)
    {
      if this == rhs {
        return;
      }
      buckets, size, hash := rhs.buckets, rhs.size, rhs.hash;
    }

    /** Assignment from a list: the pairs of `xs` in as many buckets as before. */
    method AssignList(xs: seq<(K, V)>)
      requires Valid()
      modifies this
      ensures Valid() && hash == old(hash) && |buckets| == |old(buckets)|
      ensures Mapping() == PutAll(map[], xs)
    {
      buckets := seq(|buckets|, _ => []);
      size := 0;
      EmptyWellFormed(hash, buckets);
      InsertRange(xs);
    }
  }

  /** A map with `numBuckets` buckets; no buckets at all is an invalid argument. */
  method New<K(==), V>(hash: K -> nat, numBuckets: nat) returns (r: Result<HashMap<K, V>, Error>)
    ensures r.Failure? <==> numBuckets == 0
    ensures r.Failure? ==> r.error == InvalidArgument
    ensures r.Success? ==> fresh(r.value) && r.value.Valid() && r.value.hash == hash
    ensures r.Success? ==> |r.value.buckets| == numBuckets && r.value.Mapping() == map[]
  {
    if numBuckets == 0 {
      return Failure(InvalidArgument);
    }
    var m := new HashMap(hash, numBuckets);
    return Success(m);
  }

  /** A map with the default number of buckets. */
  method NewDefault<K(==), V>(hash: K -> nat) returns (m: HashMap<K, V>)
    ensures fresh(m) && m.Valid() && m.hash == hash
    ensures |m.buckets| == DefaultBucketCount && m.Mapping() == map[]
  {
    m := new HashMap(hash, DefaultBucketCount);
  }

  /** A map with `numBuckets` buckets holding the pairs of `xs`, inserted in order. */
  method NewFrom<K(==), V>(hash: K -> nat, numBuckets: nat, xs: seq<(K, V)>) returns (r: Result<HashMap<K, V>, Error>)
    ensures r.Failure? <==> numBuckets == 0
    ensures r.Failure? ==> r.error == InvalidArgument
    ensures r.Success? ==> fresh(r.value) && r.value.Valid() && r.value.hash == hash
    ensures r.Success? ==> |r.value.buckets| == numBuckets && r.value.Mapping() == PutAll(map[], xs)
  {
    r := New(hash, numBuckets);
    if r.Success? {
      r.value.InsertRange(xs);
    }
  }
}
