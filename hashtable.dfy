/**
 * The separate-chaining hash set of integers (HashTable.cs).
 * Buckets are chains of HTNode; a chain node is never changed once it is
 * linked in, so its fields are constants and each node records, as ghost
 * state, the keys from itself to the end of its chain.
 */
module HashTables {

  /** C#'s `%` on `int`: it truncates toward zero, so the remainder takes the sign of the dividend. */
  function CsRem(a: int, b: int): (r: int)
    requires b > 0
    ensures -b < r < b
    ensures a >= 0 ==> r == a % b
    ensures a < 0 ==> r <= 0
    ensures r == 0 <==> a % b == 0
  {
    DivisibleNeg(a, b);
    if a >= 0 then a % b else -((-a) % b)
  }

  lemma MulBounds(b: int, k: int)
    requires b > 0
    ensures k >= 1 ==> b * k >= b
    ensures k <= -1 ==> b * k <= -b
    decreases if k >= 0 then k else -k
  {
    if k >= 1 {
      assert b * k == b * (k - 1) + b;
      MulBounds(b, k - 1);
    } else if k <= -1 {
      assert b * k == b * (k + 1) - b;
      MulBounds(b, k + 1);
    }
  }

  /** A number is a multiple of `b` exactly when its negation is. */
  lemma DivisibleNeg(a: int, b: int)
    requires b > 0
    ensures (-a) % b == 0 <==> a % b == 0
  {
    var q1, q2 := (-a) / b, a / b;
    assert -a == b * q1 + (-a) % b;
    assert a == b * q2 + a % b;
    if (-a) % b == 0 {
      assert b * (-q1 - q2) == a % b;
      MulBounds(b, -q1 - q2);
    }
    if a % b == 0 {
      assert b * (-q2 - q1) == (-a) % b;
      MulBounds(b, -q2 - q1);
    }
  }

  class HTNode {
    const key: int
    const next: HTNode?
    /** The keys of the chain that starts at this node. */
    ghost const keys: set<int>
    /** The number of nodes from this one to the end of its chain. */
    ghost const depth: nat

    ghost predicate Valid()
      decreases depth
    {
      && depth > 0
      && keys == {key} + Keys(next)
      && (next == null ==> depth == 1)
      && (next != null ==> next.depth == depth - 1 && next.Valid())
    }

    constructor (key: int, next: HTNode?)
      requires next != null ==> next.Valid()
      ensures Valid() && this.key == key && this.next == next
      ensures keys == {key} + Keys(next) && depth == Depth(next) + 1
    {
      this.key := key;
      this.next := next;
      this.keys := {key} + Keys(next);
      this.depth := Depth(next) + 1;
    }
  }

  /** The keys of a (possibly empty) chain. */
  ghost function Keys(n: HTNode?): set<int>
  {
    if n == null then {} else n.keys
  }

  /** The length of a (possibly empty) chain. */
  ghost function Depth(n: HTNode?): nat
  {
    if n == null then 0 else n.depth
  }

  /** Chain `n` may sit in bucket `b` of a table of `size` buckets: its nodes are
      well formed, every key in it hashes to `b` and no key appears twice. */
  ghost predicate BucketOk(n: HTNode?, size: int, b: int)
    requires size > 0
    decreases Depth(n)
  {
    n == null ||
      (&& n.Valid()
       && CsRem(n.key, size) == b
       && n.key !in Keys(n.next)
       && BucketOk(n.next, size, b))
  }

  /** Every key of a well-formed bucket hashes to that bucket. */
  lemma {:induction false} BucketHashes(n: HTNode?, size: int, b: int, k: int)
    requires size > 0 && BucketOk(n, size, b) && k in Keys(n)
    ensures CsRem(k, size) == b
    decreases Depth(n)
  {
    if k != n.key {
      BucketHashes(n.next, size, b, k);
    }
  }

  /** No key appears twice in a well-formed bucket: it holds as many keys as nodes. */
  lemma {:induction false} BucketDistinct(n: HTNode?, size: int, b: int)
    requires size > 0 && BucketOk(n, size, b)
    ensures |Keys(n)| == Depth(n)
    decreases Depth(n)
  {
    if n != null {
      BucketDistinct(n.next, size, b);
    }
  }

  /** Buckets 0 .. n - 1 of `bs` are all well formed. */
  ghost predicate BucketsOk(bs: seq<HTNode?>, size: int, n: nat)
    requires size > 0 && n <= |bs|
  {
    n == 0 || (BucketsOk(bs, size, n - 1) && BucketOk(bs[n - 1], size, n - 1))
  }

  /** The keys held in buckets 0 .. n - 1. */
  ghost function TableKeys(bs: seq<HTNode?>, n: nat): set<int>
    requires n <= |bs|
  {
    if n == 0 then {} else TableKeys(bs, n - 1) + Keys(bs[n - 1])
  }

  lemma {:induction false} BucketAt(bs: seq<HTNode?>, size: int, n: nat, b: int)
    requires size > 0 && n <= |bs| && BucketsOk(bs, size, n) && 0 <= b < n
    ensures BucketOk(bs[b], size, b)
  {
    if b < n - 1 {
      BucketAt(bs, size, n - 1, b);
    }
  }

  /** Replacing one bucket by another well-formed chain keeps the table well formed. */
  lemma {:induction false} BucketsAfterUpdate(bs: seq<HTNode?>, size: int, n: nat, b: int, node: HTNode?)
    requires size > 0 && n <= |bs| && BucketsOk(bs, size, n) && 0 <= b < |bs| && BucketOk(node, size, b)
    ensures BucketsOk(bs[b := node], size, n)
  {
    if n > 0 {
      BucketsAfterUpdate(bs, size, n - 1, b, node);
    }
  }

  /** Pushing `key` onto bucket `b` adds exactly `key` to the keys (when b is counted). */
  lemma {:induction false} KeysAfterPush(bs: seq<HTNode?>, n: nat, b: int, node: HTNode?, key: int)
    requires n <= |bs| && 0 <= b < |bs| && Keys(node) == {key} + Keys(bs[b])
    ensures TableKeys(bs[b := node], n) == TableKeys(bs, n) + (if b < n then {key} else {})
  {
    if n > 0 {
      KeysAfterPush(bs, n - 1, b, node, key);
    }
  }

  /** In well-formed buckets a key is held exactly when it is in the chain of the bucket it hashes to. */
  lemma {:induction false} KeysAreHashed(bs: seq<HTNode?>, size: int, n: nat, k: int)
    requires size > 0 && n <= |bs| && BucketsOk(bs, size, n)
    ensures k in TableKeys(bs, n) <==> 0 <= CsRem(k, size) < n && k in Keys(bs[CsRem(k, size)])
  {
    if n > 0 {
      KeysAreHashed(bs, size, n - 1, k);
      if k in Keys(bs[n - 1]) {
        BucketHashes(bs[n - 1], size, n - 1, k);
      }
    }
  }

  /** A table whose buckets are all empty. */
  lemma {:induction false} EmptyBuckets(bs: seq<HTNode?>, size: int, n: nat)
    requires size > 0 && n <= |bs| && forall b :: 0 <= b < n ==> bs[b] == null
    ensures BucketsOk(bs, size, n) && TableKeys(bs, n) == {}
  {
    if n > 0 {
      EmptyBuckets(bs, size, n - 1);
    }
  }

  class HashTable {
    const tableSize: int
    const table: array<HTNode?>
    /** The set of keys the table holds. */
    ghost var Contents: set<int>

    ghost predicate Valid()
      reads this, table
    {
      && table.Length == tableSize
      && (tableSize > 0 ==> BucketsOk(table[..], tableSize, tableSize))
      && Contents == TableKeys(table[..], table.Length)
    }

    /** Key `k` is in the chain of the bucket it hashes to. */
    ghost predicate Stored(k: int)
      reads this, table
    {
      && 0 < tableSize == table.Length
      && 0 <= CsRem(k, tableSize)
      && k in Keys(table[CsRem(k, tableSize)])
    }

    /** The abstract contents are exactly the keys found where their hash points. */
    lemma ContentsAreStored(k: int)
      requires Valid() && tableSize > 0
      ensures k in Contents <==> Stored(k)
    {
      KeysAreHashed(table[..], tableSize, tableSize, k);
    }

    constructor (size: nat)
      ensures Valid() && fresh(table)
      ensures tableSize == size && Contents == {}
    {
      tableSize := size;
      table := new HTNode?[size];
      Contents := {};
      new;
      var i := 0;
      while i < size
        invariant 0 <= i <= size
        invariant forall b :: 0 <= b < i ==> table[b] == null
        invariant Contents == {}
      {
        table[i] := null;
        i := i + 1;
      }
      if size > 0 {
        EmptyBuckets(table[..], size, size);
      }
    }

    /** The bucket of a key: its truncated remainder, which is a valid index exactly
        when the key is non-negative or a multiple of the table size. */
    function HashFunction(key: int): (h: int)
      requires tableSize > 0
      ensures h == CsRem(key, tableSize)
      ensures 0 <= h <==> key >= 0 || key % tableSize == 0
    {
      CsRem(key, tableSize)
    }

    /** Adds a key; a key already present is not added again. */
    method InsertItem(key: int)
      requires Valid() && tableSize > 0 && 0 <= HashFunction(key)
      modifies this, table
      ensures Valid()
      ensures Contents == old(Contents) + {key}
      ensures key in old(Contents) ==> table[..] == old(table[..])
    {
      var present := SearchItem(key);
      if !present {
        var index := HashFunction(key);
        ghost var bs := table[..];
        BucketAt(bs, tableSize, tableSize, index);
        var node := new HTNode(key, table[index]);
        KeysAreHashed(bs, tableSize, tableSize, key);
        assert BucketOk(node, tableSize, index);
        table[index] := node;
        assert table[..] == bs[index := node];
        BucketsAfterUpdate(bs, tableSize, tableSize, index, node);
        KeysAfterPush(bs, tableSize, index, node, key);
        Contents := Contents + {key};
      }
    }

    /** Walks the chain of the key's bucket. */
    method SearchItem(key: int) returns (found: bool)
      requires Valid() && tableSize > 0 && 0 <= HashFunction(key)
      ensures found <==> key in Contents
    {
      ContentsAreStored(key);
      found := false;
      var index := HashFunction(key);
      BucketAt(table[..], tableSize, tableSize, index);
      var walker := table[index];
      while walker != null
        invariant walker != null ==> walker.Valid()
        invariant key in Keys(table[index]) <==> key in Keys(walker)
        decreases Depth(walker)
      {
        if walker.key == key {
          found := true;
          break;
        }
        walker := walker.next;
      }
    }
  }
}
