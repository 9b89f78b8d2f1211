/**
 * The Bloom filter of util/bloom.go: a bitmap of `size` booleans, set by `numHashFuncs`
 * probes per element with double hashing over the two 32-bit halves of one 64-bit digest.
 *
 * The digest (FNV-1 64 in the Go code, reset and rewritten on every call) is the
 * uninterpreted function `hashfn`. The ghost `added` records the elements added so far.
 */
module Bloom {
  import opened Common

  type byte = x: int | 0 <= x < 256

  /** `getHash`'s split of the digest: `h1` its low 32 bits, `h2` its high 32 bits. */
  function Split(h: u64): (r: (u32, u32))
    ensures r.0 + r.1 * U32 == h
    ensures r.0 == h % U32
  {
    (h % U32, h / U32)
  }

  /**
   * The `i`-th probe of a digest: `(h1 + uint32(i)*h2) % uint32(size)`, where the product and
   * the sum wrap modulo 2^32 and `uint32(size)` truncates `size`.
   */
  function Index(h1: u32, h2: u32, i: int, size: int): (index: int)
    requires 0 <= size && size % U32 != 0
    ensures 0 <= index < size
  {
    ((h1 + ((i % U32) * h2) % U32) % U32) % (size % U32)
  }

  /** The `i`-th probe for element `b` of a filter with digest `hashfn` and `size` bits. */
  function Slot(hashfn: seq<byte> -> u64, size: int, b: seq<byte>, i: int): (j: int)
    requires 0 <= size && size % U32 != 0
    ensures 0 <= j < size
  {
    var (h1, h2) := Split(hashfn(b));
    Index(h1, h2, i, size)
  }

  /** The bits the first `m` probes of `b` set. */
  ghost function Probes(hashfn: seq<byte> -> u64, size: int, m: int, b: seq<byte>): set<int>
    requires 0 <= size && (m <= 0 || size % U32 != 0)
  {
    set i | 0 <= i < m :: Slot(hashfn, size, b, i)
  }

  class BloomFilter {
    const bitmap: array<bool>
    const hashfn: seq<byte> -> u64
    const numHashFuncs: int
    var n: int
    const size: int
    ghost var added: seq<seq<byte>>

    /** Every probe of every element added so far hits a set bit, and `n` counts the additions. */
    ghost predicate Valid()
      reads this, bitmap
    {
      && bitmap.Length == size >= 0
      && n == |added|
      && (forall x, i :: x in added && 0 <= i < numHashFuncs ==> size % U32 != 0 && bitmap[Slot(hashfn, size, x, i)])
    }

    /** `NewBloomFilter(numHashFuncs, size)`: `size` clear bits and no elements. */
    constructor (numHashFuncs: int, size: int, hashfn: seq<byte> -> u64)
      requires size >= 0
      ensures Valid() && fresh(bitmap) && added == [] && n == 0
      ensures this.numHashFuncs == numHashFuncs && this.size == size && this.hashfn == hashfn
      ensures forall j :: 0 <= j < bitmap.Length ==> !bitmap[j]
    {
      bitmap := new bool[size](_ => false);
      this.hashfn := hashfn;
      this.numHashFuncs := numHashFuncs;
      n := 0;
      this.size := size;
      added := [];
    }

    /** `getHash(b)`: the two halves of the digest of `b`. */
    method GetHash(b: seq<byte>) returns (h1: u32, h2: u32)
      ensures (h1, h2) == Split(hashfn(b))
    {
      var h := hashfn(b);
      h1 := h % U32;
      h2 := h / U32;
    }

    /**
     * `Add(b)`: sets the bit of each probe, never clearing one, and counts the element. A
     * `uint32(size)` of 0 is a division by zero as soon as there is a probe.
     */
    method Add(b: seq<byte>)
      requires Valid() && (numHashFuncs <= 0 || size % U32 != 0)
      modifies this, bitmap
      ensures Valid()
      ensures added == old(added) + [b] && n == old(n) + 1
      ensures forall j :: 0 <= j < size ==> bitmap[j] == (old(bitmap[j]) || j in Probes(hashfn, size, numHashFuncs, b))
    {
      var h1, h2 := GetHash(b);
      var i := 0;
      while i < numHashFuncs
        invariant 0 <= i && (i == 0 || i <= numHashFuncs)
        invariant forall j :: 0 <= j < size ==> bitmap[j] == (old(bitmap[j]) || j in Probes(hashfn, size, i, b))
        invariant added == old(added) && n == old(n)
        invariant forall x, t :: x in added && 0 <= t < numHashFuncs ==> bitmap[Slot(hashfn, size, x, t)]
      {
        var index := Index(h1, h2, i, size);
        assert index == Slot(hashfn, size, b, i);
        bitmap[index] := true;
        assert Probes(hashfn, size, i + 1, b) == Probes(hashfn, size, i, b) + {Slot(hashfn, size, b, i)};
        i := i + 1;
      }
      assert Probes(hashfn, size, i, b) == Probes(hashfn, size, numHashFuncs, b) by {
        if numHashFuncs <= 0 {
          assert i == 0;
        }
      }
      added := added + [b];
      n := n + 1;
      forall x, t | x in added && 0 <= t < numHashFuncs
        ensures bitmap[Slot(hashfn, size, x, t)]
      {
        if x == b {
          assert Slot(hashfn, size, x, t) in Probes(hashfn, size, numHashFuncs, b);
        }
      }
    }

    /** `Contains(b)`: whether every probe of `b` hits a set bit, stopping at the first miss. */
    method Contains(b: seq<byte>) returns (result: bool)
      requires Valid() && (numHashFuncs <= 0 || size % U32 != 0)
      ensures result <==> forall j :: j in Probes(hashfn, size, numHashFuncs, b) ==> bitmap[j]
      ensures b in added ==> result
    {
      var h1, h2 := GetHash(b);
      result := true;
      var i := 0;
      while i < numHashFuncs && result
        invariant 0 <= i && (i == 0 || i <= numHashFuncs)
        invariant result <==> forall t :: 0 <= t < i ==> bitmap[Slot(hashfn, size, b, t)]
      {
        var index := Index(h1, h2, i, size);
        assert index == Slot(hashfn, size, b, i);
        result := result && bitmap[index];
        i := i + 1;
      }
      if result {
        forall j | j in Probes(hashfn, size, numHashFuncs, b)
          ensures bitmap[j]
        {
          var t :| 0 <= t < numHashFuncs && j == Slot(hashfn, size, b, t);
        }
      } else {
        var t :| 0 <= t < i && !bitmap[Slot(hashfn, size, b, t)];
        assert Slot(hashfn, size, b, t) in Probes(hashfn, size, numHashFuncs, b);
      }
    }

    /** `GetEleNum()`: the number of `Add` calls so far. */
    method GetEleNum() returns (count: int)
      requires Valid()
      ensures count == |added|
    {
      count := n;
    }
  }
}
