/**
 * The set value of set.go, a struct holding a `map[string]struct{}`, and of types/set.go,
 * where `Set` is the map type itself. The map is shared by reference either way, so one class
 * with the member set as a field models both. The two files differ only in `GetAll`:
 * `GetAll` is set.go's, `GetAllPadded` is types/set.go's.
 *
 * A `range` over a Go map visits the keys in an unspecified order; the loops pick any
 * remaining key, so what they prove holds for every order.
 */
module Sets {
  import opened Common
  import Values

  /** `GetAll`'s result lists the members of `s` once each, in some order. */
  ghost predicate Lists(r: seq<string>, s: set<string>) {
    Distinct(r) && (forall x :: x in r <==> x in s)
  }

  /** A sequence listing a set once each is as long as the set is large. */
  lemma {:induction false} ListsLength(r: seq<string>, s: set<string>)
    requires Lists(r, s)
    ensures |r| == |s|
    decreases |r|
  {
    if r != [] {
      var x := r[|r| - 1];
      var r' := r[..|r| - 1];
      assert Lists(r', s - {x}) by {
        forall y
          ensures y in r' <==> y in s - {x}
        {
          if y in r' {
            var a :| 0 <= a < |r'| && r'[a] == y;
            assert r[a] == y && a < |r| - 1;
          }
          if y in s && y != x {
            var a :| 0 <= a < |r| && r[a] == y;
            assert a != |r| - 1;
          }
        }
      }
      ListsLength(r', s - {x});
    }
  }

  class Set {
    var s: set<string>

    /** `NewEmptySet()`. */
    constructor ()
      ensures s == {}
    {
      s := {};
    }

    /** `NewSet(strs)`: `Add` in turn each string, so duplicates collapse. */
    static method NewSet(strs: seq<string>) returns (set': Set)
      ensures fresh(set') && set'.s == set x | x in strs
    {
      set' := new Set();
      for i := 0 to |strs|
        invariant set'.s == set x | x in strs[..i]
      {
        assert strs[..i + 1] == strs[..i] + [strs[i]];
        set'.Add(strs[i]);
      }
      assert strs[..|strs|] == strs;
    }

    /** `Size()`: the uint64 sum of the members' byte lengths; the size the cache charges for it. */
    method Size() returns (size: u64)
      ensures size == Values.SetBytes(s) % U64 == Values.Bytes(Values.St(s, Values.TypesValue))
      ensures size == Values.Bytes(Values.St(s, Values.RootPointer))
    {
      size := Values.SetSize(s);
    }

    /** `Add(s)`: idempotent. */
    method Add(x: string)
      modifies this
      ensures s == old(s) + {x}
    {
      s := s + {x};
    }

    /** `Contains(s)`. */
    method Contains(x: string) returns (b: bool)
      ensures b <==> x in s
    {
      b := x in s;
    }

    /** `Remove(s)`: `delete`, a no-op on a non-member. */
    method Remove(x: string)
      modifies this
      ensures s == old(s) - {x}
    {
      s := s - {x};
    }

    /** `Len()`. */
    method Len() returns (n: int)
      ensures n == |s|
    {
      n := |s|;
    }

    /** set.go's `GetAll()`: the members appended one by one to an empty slice. */
    method GetAll() returns (strs: seq<string>)
      ensures Lists(strs, s) && |strs| == |s|
    {
      strs := [];
      var rest := s;
      while rest != {}
        invariant rest <= s
        invariant Lists(strs, s - rest)
        decreases rest
      {
        var k :| k in rest;
        strs := strs + [k];
        rest := rest - {k};
      }
      assert s - rest == s;
      ListsLength(strs, s);
    }

    /**
     * types/set.go's `GetAll()`: the slice is made with length `len(set)` and the members are
     * then appended, so `Len` empty strings come first.
     */
    method GetAllPadded() returns (strs: seq<string>)
      ensures |strs| == 2 * |s|
      ensures forall a :: 0 <= a < |s| ==> strs[a] == ""
      ensures Lists(strs[|s|..], s)
    {
      var pad := seq(|s|, _ => "");
      var tail := GetAll();
      strs := pad + tail;
      assert strs[|s|..] == tail;
    }

    /** `Intersect(set2)`: a nested `range` adding every member of this set equal to a member of `set2`. */
    method Intersect(set2: Set) returns (res: Set)
      ensures fresh(res) && res.s == s * set2.s
    {
      res := new Set();
      var rest1 := s;
      while rest1 != {}
        invariant rest1 <= s && res.s == (s - rest1) * set2.s
        decreases rest1
      {
        var k1 :| k1 in rest1;
        var rest2 := set2.s;
        while rest2 != {}
          invariant rest2 <= set2.s
          invariant res.s == (s - rest1) * set2.s + ({k1} * (set2.s - rest2))
          decreases rest2
        {
          var k2 :| k2 in rest2;
          if k1 == k2 {
            res.s := res.s + {k1};
          }
          rest2 := rest2 - {k2};
        }
        assert (s - (rest1 - {k1})) * set2.s == (s - rest1) * set2.s + ({k1} * set2.s);
        rest1 := rest1 - {k1};
      }
      assert s - rest1 == s;
    }

    /** `Union(set2)`: every member of this set, then every member of `set2`. */
    method Union(set2: Set) returns (res: Set)
      ensures fresh(res) && res.s == s + set2.s
    {
      res := new Set();
      var rest1 := s;
      while rest1 != {}
        invariant rest1 <= s && res.s == s - rest1
        decreases rest1
      {
        var k1 :| k1 in rest1;
        res.s := res.s + {k1};
        rest1 := rest1 - {k1};
      }
      var rest2 := set2.s;
      while rest2 != {}
        invariant rest2 <= set2.s && res.s == s + (set2.s - rest2)
        decreases rest2
      {
        var k2 :| k2 in rest2;
        res.s := res.s + {k2};
        rest2 := rest2 - {k2};
      }
    }
  }

  /** What types/set.go's `GetAll` returns for the set {"a"}: a non-member "" ahead of the one member. */
  lemma PaddedExample(strs: seq<string>)
    requires |strs| == 2 && strs[0] == "" && Lists(strs[1..], {"a"})
    ensures strs == ["", "a"] && !Lists(strs, {"a"})
  {
    assert "a" in strs[1..];
    assert strs[1..] == [strs[1]];
    assert strs[0] in strs && strs[0] !in {"a"};
  }
}
