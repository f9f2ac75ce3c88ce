/**
 * Votes and their tally. A vote book is the `Dict[int, int]` from voter to
 * target that both `GameManager.process_votes` and `utils.calculate_votes`
 * read: a Python dict, so it keeps insertion order, and writing an existing
 * key replaces the value in place. The tally counts how often each target
 * occurs and picks the first target, in order of first occurrence, that has
 * the largest count; that is what `max(counts.items(), key=...)` returns.
 */
module Votes {
  import opened Wrappers
  import opened Models

  /** An insertion-ordered dictionary from voter to target. */
  type Book = seq<(nat, int)>

  function Keys(b: Book): (ks: seq<nat>)
    ensures |ks| == |b|
    ensures forall i :: 0 <= i < |b| ==> ks[i] == b[i].0
  {
    seq(|b|, i requires 0 <= i < |b| => b[i].0)
  }

  /** `book.values()`, in insertion order. */
  function Values(b: Book): (vs: seq<int>)
    ensures |vs| == |b|
    ensures forall i :: 0 <= i < |b| ==> vs[i] == b[i].1
  {
    seq(|b|, i requires 0 <= i < |b| => b[i].1)
  }

  predicate ValidBook(b: Book)
  {
    NoDuplicates(Keys(b))
  }

  /** The position of voter `k` in the book, or `|b|` when it has not voted. */
  function KeyIndex(b: Book, k: nat): (i: nat)
    ensures i <= |b|
    ensures i < |b| ==> b[i].0 == k
    ensures i == |b| ==> k !in Keys(b)
  {
    IndexOf(Keys(b), k)
  }

  /** `book.get(k)` */
  function Get(b: Book, k: nat): Option<int>
  {
    var i := KeyIndex(b, k);
    if i < |b| then Some(b[i].1) else None
  }

  /**
   * `book[k] = v`: an existing key keeps its position and takes the new
   * value, a new key goes last.
   */
  function Put(b: Book, k: nat, v: int): Book
  {
    var i := KeyIndex(b, k);
    if i < |b| then b[i := (k, v)] else b + [(k, v)]
  }

  /** After `book[k] = v`, `k` maps to `v`, every other voter keeps its vote, and the order of voters is kept. */
  lemma PutSpec(b: Book, k: nat, v: int)
    requires ValidBook(b)
    ensures ValidBook(Put(b, k, v))
    ensures Get(Put(b, k, v), k) == Some(v)
    ensures forall k' :: k' != k ==> Get(Put(b, k, v), k') == Get(b, k')
    ensures Keys(Put(b, k, v)) == if k in Keys(b) then Keys(b) else Keys(b) + [k]
  {
    var r, i := Put(b, k, v), KeyIndex(b, k);
    if i < |b| {
      assert Keys(r) == Keys(b);
    } else {
      assert Keys(r) == Keys(b) + [k];
      forall k' | k' != k
        ensures Get(r, k') == Get(b, k')
      {
        var j := KeyIndex(b, k');
        if j < |b| {
          IndexOfDistinct(Keys(r), KeyIndex(r, k'), j);
        }
      }
    }
  }

  /** In a sequence without duplicates, a value sits at one position only. */
  lemma IndexOfDistinct(keys: seq<nat>, a: nat, b: nat)
    requires NoDuplicates(keys) && a < |keys| && b < |keys| && keys[a] == keys[b]
    ensures a == b
  {
  }

  /** A voter's last vote is the one that counts, and a repeated vote does not move the voter in the order. */
  lemma LastVoteCounts(b: Book, k: nat, v1: int, v2: int)
    requires ValidBook(b)
    ensures Put(Put(b, k, v1), k, v2) == Put(b, k, v2)
  {
    PutSpec(b, k, v1);
    var i := KeyIndex(b, k);
    if i == |b| {
      assert Keys(Put(b, k, v1)) == Keys(b) + [k];
      IndexOfDistinct(Keys(b) + [k], KeyIndex(Put(b, k, v1), k), |b|);
    }
  }

  /** How many entries of `vals` equal `x`. */
  function Count(vals: seq<int>, x: int): nat
  {
    multiset(vals)[x]
  }

  /** The position of the first occurrence of `x`. */
  function FirstIndex(vals: seq<int>, x: int): (i: nat)
    requires x in vals
    ensures i < |vals| && vals[i] == x
    ensures forall j :: 0 <= j < i ==> vals[j] != x
  {
    if vals[0] == x then 0 else 1 + FirstIndex(vals[1..], x)
  }

  /**
   * `w` is the target the tally elects: it received a vote, no target
   * received more, and every target first voted for before `w` received
   * strictly fewer.
   */
  predicate IsFirstMax(vals: seq<int>, w: int)
  {
    && w in vals
    && (forall i :: 0 <= i < |vals| ==> Count(vals, vals[i]) <= Count(vals, w))
    && (forall i :: 0 <= i < FirstIndex(vals, w) ==> Count(vals, vals[i]) < Count(vals, w))
  }

  /** The election rule leaves no choice: at most one target satisfies it. */
  lemma FirstMaxIsUnique(vals: seq<int>, w1: int, w2: int)
    requires IsFirstMax(vals, w1) && IsFirstMax(vals, w2)
    ensures w1 == w2
  {
    var i1, i2 := FirstIndex(vals, w1), FirstIndex(vals, w2);
    var c1, c2 := Count(vals, vals[i1]), Count(vals, vals[i2]);
    assert c1 == c2;
  }

  lemma FirstIndexOfPrefix(p: seq<int>, y: int, x: int)
    requires x in p
    ensures FirstIndex(p + [y], x) == FirstIndex(p, x)
  {
    var v := p + [y];
    var i := FirstIndex(p, x);
    assert v[i] == x;
    var k := FirstIndex(v, x);
    assert k <= i;
    assert v[k] == p[k];
  }

  /**
   * The keys of the count dictionary: the distinct values of `vals` in order
   * of first occurrence.
   */
  function Dedup(vals: seq<int>): (d: seq<int>)
    ensures forall x :: x in d <==> x in vals
    ensures NoDuplicates(d)
    ensures forall a, b :: 0 <= a < b < |d| ==> FirstIndex(vals, d[a]) < FirstIndex(vals, d[b])
  {
    if vals == [] then []
    else
      var p, y := vals[..|vals| - 1], vals[|vals| - 1];
      assert vals == p + [y];
      FirstIndexOfSnoc(p, y);
      var d := Dedup(p);
      if y in d then d else d + [y]
  }

  /** Appending a value moves no first occurrence, and a new value occurs first at the end. */
  lemma FirstIndexOfSnoc(p: seq<int>, y: int)
    ensures forall x :: x in p ==> FirstIndex(p + [y], x) == FirstIndex(p, x)
    ensures y !in p ==> FirstIndex(p + [y], y) == |p|
  {
    forall x | x in p
      ensures FirstIndex(p + [y], x) == FirstIndex(p, x)
    {
      FirstIndexOfPrefix(p, y, x);
    }
  }

  /** The position of `x` in `keys`, or `|keys|` when it is absent. */
  function IndexOf<T(==)>(keys: seq<T>, x: T): (j: nat)
    ensures j <= |keys|
    ensures j < |keys| ==> keys[j] == x
    ensures j == |keys| ==> x !in keys
  {
    if keys == [] then 0
    else if keys[0] == x then 0
    else 1 + IndexOf(keys[1..], x)
  }

  lemma CountSnoc(p: seq<int>, y: int, x: int)
    ensures Count(p + [y], x) == Count(p, x) + (if x == y then 1 else 0)
  {
    assert multiset(p + [y]) == multiset(p) + multiset{y};
  }

  lemma DedupSnoc(p: seq<int>, y: int)
    ensures Dedup(p + [y]) == if y in Dedup(p) then Dedup(p) else Dedup(p) + [y]
  {
    assert (p + [y])[..|p|] == p;
  }

  /** `keys` and `counts` are the count dictionary of `vals`: its keys in first-occurrence order, each with its number of votes. */
  predicate Tallied(vals: seq<int>, keys: seq<int>, counts: seq<nat>)
  {
    keys == Dedup(vals) && |counts| == |keys|
    && forall j :: 0 <= j < |keys| ==> counts[j] == Count(vals, keys[j])
  }

  /** One more vote for a target already counted raises that target's count only. */
  lemma TalliedSnocSeen(p: seq<int>, x: int, keys: seq<int>, counts: seq<nat>, j: nat)
    requires Tallied(p, keys, counts) && j < |keys| && keys[j] == x
    ensures Tallied(p + [x], keys, counts[j := counts[j] + 1])
  {
    DedupSnoc(p, x);
    forall k | 0 <= k < |keys|
      ensures counts[j := counts[j] + 1][k] == Count(p + [x], keys[k])
    {
      CountSnoc(p, x, keys[k]);
      if k != j {
        assert keys[k] != x;
      }
    }
  }

  /** A vote for a target not counted yet appends it with one vote. */
  lemma TalliedSnocNew(p: seq<int>, x: int, keys: seq<int>, counts: seq<nat>)
    requires Tallied(p, keys, counts) && x !in keys
    ensures Tallied(p + [x], keys + [x], counts + [1])
  {
    DedupSnoc(p, x);
    forall k | 0 <= k < |keys| + 1
      ensures (counts + [1])[k] == Count(p + [x], (keys + [x])[k])
    {
      CountSnoc(p, x, (keys + [x])[k]);
      if k < |keys| {
        assert keys[k] != x;
      } else {
        assert x !in p;
      }
    }
  }

  /** The loop that fills `vote_count`. */
  method CountVotes(vals: seq<int>) returns (keys: seq<int>, counts: seq<nat>)
    ensures Tallied(vals, keys, counts)
  {
    keys, counts := [], [];
    for i := 0 to |vals|
      invariant Tallied(vals[..i], keys, counts)
    {
      var x := vals[i];
      assert vals[..i + 1] == vals[..i] + [x];
      var j := IndexOf(keys, x);
      if j < |keys| {
        TalliedSnocSeen(vals[..i], x, keys, counts, j);
        counts := counts[j := counts[j] + 1];
      } else {
        TalliedSnocNew(vals[..i], x, keys, counts);
        keys := keys + [x];
        counts := counts + [1];
      }
    }
    assert vals[..|vals|] == vals;
  }

  /** The scan of `max(..., key=...)`: the first position holding the largest count. */
  method FirstArgMax(counts: seq<nat>) returns (best: nat)
    requires |counts| > 0
    ensures best < |counts|
    ensures forall k :: 0 <= k < |counts| ==> counts[k] <= counts[best]
    ensures forall k :: 0 <= k < best ==> counts[k] < counts[best]
  {
    best := 0;
    for j := 1 to |counts|
      invariant best < j
      invariant forall k :: 0 <= k < j ==> counts[k] <= counts[best]
      invariant forall k :: 0 <= k < best ==> counts[k] < counts[best]
    {
      if counts[j] > counts[best] {
        best := j;
      }
    }
  }

  /**
   * Counts the votes in `vals` and returns the first target with the
   * largest count, with that count. With no votes there is no winner and the
   * count is 0.
   */
  method Tally(vals: seq<int>) returns (winner: Option<int>, maxVotes: nat)
    ensures winner.None? <==> vals == []
    ensures winner.None? ==> maxVotes == 0
    ensures winner.Some? ==> IsFirstMax(vals, winner.value) && maxVotes == Count(vals, winner.value)
  {
    var keys, counts := CountVotes(vals);
    assert |vals| > 0 ==> vals[0] in keys;
    if |keys| == 0 {
      return None, 0;
    }
    var best := FirstArgMax(counts);
    var w := keys[best];
    forall i | 0 <= i < |vals|
      ensures Count(vals, vals[i]) <= Count(vals, w)
      ensures i < FirstIndex(vals, w) ==> Count(vals, vals[i]) < Count(vals, w)
    {
      var j := IndexOf(keys, vals[i]);
      assert counts[j] <= counts[best];
      assert i < FirstIndex(vals, w) ==> FirstIndex(vals, vals[i]) <= i && j < best;
    }
    winner, maxVotes := Some(w), counts[best];
  }
}
