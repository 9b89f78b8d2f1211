/**
 * The list value of types/list.go. `List` is a Go slice of strings passed by value: the
 * methods receive a copy of the slice header but share its backing array with the caller.
 * The model takes the caller's slice as the array `l`, as long as the slice itself, so a
 * write through the shared array is a write to `l`, and a reassignment of the receiver is
 * invisible to the caller.
 *
 * An index below zero is a Go runtime panic; the operations require `i >= 0`.
 */
module TypesList {
  import opened Common
  import Values

  /** `NewEmptyList()`: a fresh slice of length 0. */
  method NewEmptyList() returns (l: array<string>)
    ensures fresh(l) && l.Length == 0
  {
    l := new string[0];
  }

  /** `NewList(strs)`: a conversion, so the list is the very slice it was made from. */
  method NewList(strs: array<string>) returns (l: array<string>)
    ensures l == strs
  {
    l := strs;
  }

  /** `Size()`: the uint64 sum of the elements' byte lengths, accumulated in a loop. */
  method Size(l: array<string>) returns (size: u64)
    ensures size == Values.ListBytes(l[..]) % U64
  {
    size := Values.ListSize(l[..]);
  }

  /** `Len()`. */
  method Len(l: array<string>) returns (n: int)
    ensures n == |l[..]|
  {
    n := l.Length;
  }

  /** `Get(i)`: the element, or "" and an "index out of bounds" error past the end. */
  method Get(l: array<string>, i: int) returns (s: string, err: bool)
    requires i >= 0
    ensures err <==> i >= l.Length
    ensures !err ==> s == l[i]
    ensures err ==> s == ""
  {
    if i >= l.Length {
      return "", true;
    }
    return l[i], false;
  }

  /** `GetAll()`: the slice itself, sharing the backing array. */
  method GetAll(l: array<string>) returns (r: array<string>)
    ensures r == l
  {
    r := l;
  }

  /** `Set(i, s)`: writes slot `i` of the shared array; past the end, an error and no change. */
  method Set(l: array<string>, i: int, s: string) returns (err: bool)
    requires i >= 0
    modifies l
    ensures err <==> i >= l.Length
    ensures err ==> l[..] == old(l[..])
    ensures !err ==> l[..] == old(l[..])[i := s]
  {
    if i >= l.Length {
      return true;
    }
    l[i] := s;
    return false;
  }

  /**
   * `Add(s)`: appends to the receiver's copy of the slice header only. That copy, returned
   * here as `receiver`, is dropped when the method returns, so the caller's list is left as
   * it was.
   */
  method Add(l: array<string>, s: string) returns (receiver: seq<string>)
    ensures receiver == old(l[..]) + [s]
    ensures l[..] == old(l[..])
  {
    receiver := l[..] + [s];
  }

  /** What an in-range `Remove(i)` leaves in the caller's slice: the tail moved down one slot, the last slot kept. */
  function Shifted(old_l: seq<string>, i: int): (r: seq<string>)
    requires 0 <= i < |old_l|
    ensures |r| == |old_l|
    ensures forall j :: 0 <= j < i ==> r[j] == old_l[j]
    ensures forall j :: i <= j < |old_l| - 1 ==> r[j] == old_l[j + 1]
    ensures r[|old_l| - 1] == old_l[|old_l| - 1]
  {
    old_l[..i] + old_l[i + 1..] + [old_l[|old_l| - 1]]
  }

  /** The receiver's new slice, `l[:i] ++ l[i+1:]`, is the prefix of the shifted array: the element at `i` is gone. */
  lemma ShiftedPrefix(old_l: seq<string>, i: int)
    requires 0 <= i < |old_l|
    ensures Shifted(old_l, i)[..|old_l| - 1] == old_l[..i] + old_l[i + 1..]
    ensures multiset(Shifted(old_l, i)) == multiset(old_l) - multiset{old_l[i]} + multiset{old_l[|old_l| - 1]}
  {
    var r := Shifted(old_l, i);
    assert r == (old_l[..i] + old_l[i + 1..]) + [old_l[|old_l| - 1]];
    assert old_l == old_l[..i] + [old_l[i]] + old_l[i + 1..];
  }

  /**
   * `Remove(i)`: past the end, an error and no change. Otherwise `append(l[:i], l[i+1:]...)`
   * copies the tail down one slot inside the shared array; the receiver's shorter slice is
   * then dropped, so the caller keeps its length and sees the last element twice.
   */
  method Remove(l: array<string>, i: int) returns (err: bool)
    requires i >= 0
    modifies l
    ensures err <==> i >= l.Length
    ensures err ==> l[..] == old(l[..])
    ensures !err ==> l[..] == Shifted(old(l[..]), i)
  {
    if i >= l.Length {
      return true;
    }
    var j := i;
    while j < l.Length - 1
      invariant i <= j <= l.Length - 1
      invariant forall t :: 0 <= t < i ==> l[t] == old(l[t])
      invariant forall t :: i <= t < j ==> l[t] == old(l[t + 1])
      invariant forall t :: j <= t < l.Length ==> l[t] == old(l[t])
    {
      l[j] := l[j + 1];
      j := j + 1;
    }
    return false;
  }
}
