/**
 * The sorted set of types/zset.go and zset.go: a score -> member map kept in a skip list.
 * The two files hold the same code (zset.go adds `Type`), so one class models both.
 *
 * Scores are integers. `GetRange` probes the scores `start, start + step, ...` below `end`.
 */
module Zsets {
  import SkipList

  /**
   * The members found at the probe scores `start, start + step, ...` below `end`, in probe
   * order, a missing score contributing nothing. With `start >= end` there is no probe, for
   * any step.
   */
  ghost function Probe(m: map<int, string>, start: int, end: int, step: int): seq<string>
    requires step > 0 || start >= end
    decreases end - start
  {
    if start >= end then []
    else (if start in m then [m[start]] else []) + Probe(m, start + step, end, step)
  }

  /** A probe contributes a member exactly when its score is of the form `start + j * step` below `end` and held. */
  lemma {:induction false} ProbeMembers(m: map<int, string>, start: int, end: int, step: int, x: string)
    requires step > 0
    ensures x in Probe(m, start, end, step) <==>
      exists j: nat :: start + j * step < end && start + j * step in m && m[start + j * step] == x
    decreases end - start
  {
    if start < end {
      ProbeMembers(m, start + step, end, step, x);
      if x in Probe(m, start + step, end, step) {
        var j: nat :| start + step + j * step < end && start + step + j * step in m && m[start + step + j * step] == x;
        assert start + (j + 1) * step == start + step + j * step;
      }
      if exists j: nat :: start + j * step < end && start + j * step in m && m[start + j * step] == x {
        var j: nat :| start + j * step < end && start + j * step in m && m[start + j * step] == x;
        if j > 0 {
          assert start + step + (j - 1) * step == start + j * step;
        }
      }
    } else {
      forall j: nat
        ensures start + j * step >= end
      {
        assert j * step >= 0;
      }
    }
  }

  class Zset {
    const list: SkipList.SkipList

    ghost predicate Valid()
      reads this, list
    {
      list.Valid()
    }

    /** The score -> member map the set holds. */
    ghost function Content(): map<int, string>
      reads this, list
      requires Valid()
    {
      list.Content()
    }

    /** `NewZset()`: an empty set over `skiplist.New()`. */
    constructor ()
      ensures Valid() && Content() == map[] && fresh(list) && fresh(list.prevNodesCache)
    {
      var l := SkipList.New();
      list := l;
    }

    /**
     * `Add(score, value)`: a held score has its member replaced, a new score is inserted.
     * `coin` is the skip list's random source, which only decides the new node's height.
     */
    method Add(score: int, value: string, coin: int -> bool)
      requires Valid()
      modifies list, list.prevNodesCache
      ensures Valid() && Content() == old(Content())[score := value]
    {
      var _ := list.Set(score, value, coin);
    }

    /** `Get(score)`: the member and true, or "" and false for an absent score. */
    method Get(score: int) returns (value: string, ok: bool)
      requires Valid()
      ensures ok <==> score in Content()
      ensures ok ==> value == Content()[score]
      ensures !ok ==> value == ""
    {
      var e := list.Get(score);
      if e != SkipList.Nil {
        return list.Value(e), true;
      }
      return "", false;
    }

    /**
     * `GetRange(start, end, step)`: a `Get` per probe score, appending the members found. An
     * empty range returns no members whatever the step.
     */
    method GetRange(start: int, end: int, step: int) returns (strs: seq<string>)
      requires Valid() && (step > 0 || start >= end)
      ensures strs == Probe(Content(), start, end, step)
      ensures start >= end ==> strs == []
    {
      strs := [];
      var i := start;
      while i < end
        invariant step > 0 || i == start
        invariant strs + Probe(Content(), i, end, step) == Probe(Content(), start, end, step)
        decreases end - i
      {
        var value, ok := Get(i);
        if ok {
          strs := strs + [value];
        }
        i := i + step;
      }
    }

    /** `Remove(score)`: a no-op on an absent score. */
    method Remove(score: int)
      requires Valid()
      modifies list, list.prevNodesCache
      ensures Valid() && Content() == old(Content()) - {score}
    {
      var _ := list.Remove(score);
    }

    /** `Len()`: the skip list's `Length`, which is the number of scores held. */
    method Len() returns (n: int)
      requires Valid()
      ensures n == |Content()|
    {
      SkipList.EntriesSize(list.keys, list.vals, list.levels[0]);
      n := list.Length;
    }

    /** `Type()` (zset.go only). */
    function Type(): (t: string)
      ensures t == "Zset"
    {
      "Zset"
    }
  }
}
