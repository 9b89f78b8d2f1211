/**
 * The hash value of hash.go, a struct holding a `map[string]string`, and of types/hash.go,
 * where `Hash` is the map type itself. A Go map is shared by reference either way, so one
 * class with the map as a field models both; `Type` is hash.go's only.
 */
module Hashes {
  import opened Common
  import Values

  class Hash {
    var h: map<string, string>

    /** `NewHash()`: an empty map. */
    constructor ()
      ensures h == map[]
    {
      h := map[];
    }

    /** `Size()`: the uint64 sum of `len(k) + len(v)` over the pairs; the size the cache charges for it. */
    method Size() returns (size: u64)
      ensures size == Values.HashBytes(h) % U64 == Values.Bytes(Values.Hsh(h, Values.TypesValue))
      ensures size == Values.Bytes(Values.Hsh(h, Values.RootPointer))
    {
      size := Values.HashSize(h);
    }

    /** `Len()`: the number of keys. */
    method Len() returns (n: int)
      ensures n == |h.Keys|
    {
      n := |h|;
    }

    /** `Type()`. */
    function Type(): (t: string)
      ensures t == "Hash"
    {
      "Hash"
    }

    /** `Put(key, value)`: inserts or overwrites one key. */
    method Put(key: string, value: string)
      modifies this
      ensures h == old(h)[key := value]
    {
      h := h[key := value];
    }

    /** `Get(key)`: the value and true, or "" and false for a missing key. */
    method Get(key: string) returns (value: string, ok: bool)
      ensures ok <==> key in h
      ensures ok ==> value == h[key]
      ensures !ok ==> value == ""
    {
      if key in h {
        return h[key], true;
      }
      return "", false;
    }

    /** `Remove(key)`: `delete`, a no-op on a missing key. */
    method Remove(key: string)
      modifies this
      ensures h == old(h) - {key}
    {
      h := h - {key};
    }
  }

  /** A `Put` is seen by the next `Get` of its key and by no other key's; an overwrite keeps the count. */
  lemma PutThenGet(h: map<string, string>, key: string, value: string, other: string)
    ensures key in h[key := value] && h[key := value][key] == value
    ensures other != key ==> (other in h[key := value] <==> other in h)
    ensures other != key && other in h ==> h[key := value][other] == h[other]
    ensures key in h ==> |h[key := value].Keys| == |h.Keys|
    ensures key !in h ==> |h[key := value].Keys| == |h.Keys| + 1
  {
    if key in h {
      assert h[key := value].Keys == h.Keys;
    } else {
      assert h[key := value].Keys == h.Keys + {key};
    }
  }
}
