/**
 * The skip list of types/skiplist (skiplist.go and type.go), over an arena of nodes.
 *
 * A node is an index into the arena. Node 0 is the list's own embedded `elementNode` (the
 * head), and `Nil` stands for a nil `*Element`. Each node has a forward array `next[x]` whose
 * length is the height drawn when it was inserted; `next[x][i]` is its successor on level `i`.
 * Keys are integers. Values are strings, which is what the sorted sets store.
 *
 * The ghost `levels[i]` is the sequence of nodes reachable on level `i`, in list order;
 * `levels[0]` holds every element. The pure part of this module says when forward pointers
 * realise such a sequence (`Chain`), where a key falls in it (`Below`), and what a splice does.
 */
module SkipList {

  /** A nil `*Element`. */
  const Nil: int := -1

  /** `DefaultMaxLevel`. */
  const DefaultMaxLevel: int := 18

  // ---------------------------------------------------------------------------------------
  // Positions in a level
  // ---------------------------------------------------------------------------------------

  /** The node at position `t` of a level, where position -1 is the head. */
  function At(c: seq<int>, t: int): int
    requires -1 <= t < |c|
  {
    if t < 0 then 0 else c[t]
  }

  /** What the node at position `t` points to: the next node of the level, or nil at its end. */
  function After(c: seq<int>, t: int): int
    requires -1 <= t < |c|
  {
    if t + 1 < |c| then c[t + 1] else Nil
  }

  function Insert(c: seq<int>, u: int, n: int): seq<int>
    requires 0 <= u <= |c|
  {
    c[..u] + [n] + c[u..]
  }

  function RemoveAt(c: seq<int>, u: int): seq<int>
    requires 0 <= u < |c|
  {
    c[..u] + c[u + 1..]
  }

  /**
   * The forward pointers at level `i` realise the sequence `c`: the head points to its first
   * node, each node to the following one, and the last to nil.
   */
  ghost predicate Chain(next: seq<seq<int>>, c: seq<int>, i: nat) {
    forall t :: -1 <= t < |c| ==>
      0 <= At(c, t) < |next| && i < |next[At(c, t)]| && next[At(c, t)][i] == After(c, t)
  }

  /** The nodes of `c` are elements of the arena (not the head), in strictly ascending key order. */
  ghost predicate Ascending(keys: seq<int>, c: seq<int>) {
    && (forall t :: 0 <= t < |c| ==> 0 < c[t] < |keys|)
    && (forall s, t :: 0 <= s < t < |c| ==> keys[c[s]] < keys[c[t]])
  }

  /** How many nodes at the start of `c` have a key below `k`: the position a search for `k` stops before. */
  ghost function Below(keys: seq<int>, c: seq<int>, k: int): (b: nat)
    requires forall t :: 0 <= t < |c| ==> 0 <= c[t] < |keys|
    ensures b <= |c|
  {
    if c == [] || keys[c[0]] >= k then 0 else 1 + Below(keys, c[1..], k)
  }

  /** In an ascending level, the nodes before position `Below` are exactly those with a key below `k`. */
  lemma {:induction false} BelowSplit(keys: seq<int>, c: seq<int>, k: int)
    requires Ascending(keys, c)
    ensures forall t :: 0 <= t < |c| ==> (t < Below(keys, c, k) <==> keys[c[t]] < k)
  {
    if c != [] && keys[c[0]] < k {
      assert Ascending(keys, c[1..]);
      BelowSplit(keys, c[1..], k);
      forall t | 0 < t < |c|
        ensures t < Below(keys, c, k) <==> keys[c[t]] < k
      {
        assert c[1..][t - 1] == c[t];
      }
    }
  }

  /** `Below` only looks at the keys of the nodes of `c`. */
  lemma {:induction false} BelowFrame(keys: seq<int>, keys': seq<int>, c: seq<int>, k: int)
    requires forall t :: 0 <= t < |c| ==> 0 <= c[t] < |keys| <= |keys'|
    requires forall t :: 0 <= t < |c| ==> keys'[c[t]] == keys[c[t]]
    ensures Below(keys', c, k) == Below(keys, c, k)
  {
    if c != [] {
      BelowFrame(keys, keys', c[1..], k);
    }
  }

  /** A node of an ascending level whose key is `k` sits at position `Below(k)`. */
  lemma PositionOfKey(keys: seq<int>, c: seq<int>, t: int, k: int)
    requires Ascending(keys, c) && 0 <= t < |c| && keys[c[t]] == k
    ensures Below(keys, c, k) == t
  {
    BelowSplit(keys, c, k);
    var b := Below(keys, c, k);
    assert b <= t && keys[c[t]] == k;
    assert b < |c| ==> keys[c[b]] >= k;
  }

  /** Where the search for `k` stops: the last node of the level with a key below `k`, or the head. */
  ghost function Pred(keys: seq<int>, c: seq<int>, k: int): int
    requires Ascending(keys, c)
  {
    BelowSplit(keys, c, k);
    At(c, Below(keys, c, k) - 1)
  }

  // ---------------------------------------------------------------------------------------
  // Splicing
  // ---------------------------------------------------------------------------------------

  /** `next[a][i] = b`: one forward pointer rewritten. */
  function Link(next: seq<seq<int>>, a: int, i: nat, b: int): (r: seq<seq<int>>)
    requires 0 <= a < |next| && i < |next[a]|
    ensures |r| == |next| && forall x :: 0 <= x < |next| ==> |r[x]| == |next[x]|
  {
    next[a := next[a][i := b]]
  }

  /** Two arenas agree on level `j`: the same nodes, the same heights, the same level-`j` pointers. */
  ghost predicate SameLevel(next: seq<seq<int>>, next': seq<seq<int>>, j: nat) {
    && |next'| == |next|
    && forall x :: 0 <= x < |next| ==>
         |next'[x]| == |next[x]| && (j < |next[x]| ==> next'[x][j] == next[x][j])
  }

  /** Rewriting a pointer of level `i` leaves every other level alone. */
  lemma LinkOtherLevel(next: seq<seq<int>>, a: int, i: nat, b: int, j: nat)
    requires 0 <= a < |next| && i < |next[a]| && j != i
    ensures SameLevel(next, Link(next, a, i, b), j)
  {
  }

  lemma ChainFrame(next: seq<seq<int>>, next': seq<seq<int>>, c: seq<int>, j: nat)
    requires Chain(next, c, j) && SameLevel(next, next', j)
    ensures Chain(next', c, j)
  {
    forall t | -1 <= t < |c|
      ensures 0 <= At(c, t) < |next'| && j < |next'[At(c, t)]| && next'[At(c, t)][j] == After(c, t)
    {
      assert 0 <= At(c, t) < |next| && j < |next[At(c, t)]|;
    }
  }

  /** Appending a node to the arena keeps a level's chain. */
  lemma ChainAppend(next: seq<seq<int>>, s: seq<int>, c: seq<int>, j: nat)
    requires Chain(next, c, j)
    ensures Chain(next + [s], c, j)
  {
    forall t | -1 <= t < |c|
      ensures (next + [s])[At(c, t)] == next[At(c, t)]
    {
    }
  }

  /**
   * The splice of `Set` at one level: the new node `n` takes over the successor of `p`, the
   * node before position `u`, and `p` then points to `n`.
   */
  lemma ChainInsert(next: seq<seq<int>>, keys: seq<int>, c: seq<int>, i: nat, u: int, n: int)
    requires Chain(next, c, i) && Ascending(keys, c)
    requires 0 <= u <= |c| && 0 < n < |next| && n !in c && i < |next[n]|
    ensures var p := At(c, u - 1);
      Chain(Link(Link(next, n, i, next[p][i]), p, i, n), Insert(c, u, n), i)
  {
    var p := At(c, u - 1);
    var next1 := Link(next, n, i, next[p][i]);
    var next2 := Link(next1, p, i, n);
    var c' := Insert(c, u, n);
    assert p != n;
    forall t | -1 <= t < |c'|
      ensures 0 <= At(c', t) < |next2| && i < |next2[At(c', t)]| && next2[At(c', t)][i] == After(c', t)
    {
      if t < u - 1 {
        assert At(c', t) == At(c, t) && After(c', t) == After(c, t);
        assert At(c, t) != p && At(c, t) != n;
      } else if t == u - 1 {
        assert At(c', t) == p && After(c', t) == n;
      } else if t == u {
        assert At(c', t) == n && After(c', t) == After(c, u - 1);
      } else {
        assert At(c', t) == c[t - 1] && After(c', t) == After(c, t - 1);
        assert c[t - 1] != p && c[t - 1] != n;
      }
    }
  }

  /** The splice of `Remove` at one level: the node before position `u` takes over its successor. */
  lemma ChainRemove(next: seq<seq<int>>, keys: seq<int>, c: seq<int>, i: nat, u: int)
    requires Chain(next, c, i) && Ascending(keys, c) && 0 <= u < |c|
    ensures Chain(Link(next, At(c, u - 1), i, After(c, u)), RemoveAt(c, u), i)
  {
    var p := At(c, u - 1);
    var next' := Link(next, p, i, After(c, u));
    var c' := RemoveAt(c, u);
    forall t | -1 <= t < |c'|
      ensures 0 <= At(c', t) < |next'| && i < |next'[At(c', t)]| && next'[At(c', t)][i] == After(c', t)
    {
      if t < u - 1 {
        assert At(c', t) == At(c, t) && After(c', t) == After(c, t);
        assert At(c, t) != p;
      } else if t == u - 1 {
        assert At(c', t) == p && After(c', t) == After(c, u);
      } else {
        assert At(c', t) == c[t + 1] && After(c', t) == After(c, t + 1);
        assert c[t + 1] != p;
      }
    }
  }

  // ---------------------------------------------------------------------------------------
  // The shape every level keeps
  // ---------------------------------------------------------------------------------------

  /** The number of forward slots of node `x`: the height it was given, or 0 outside the arena. */
  function Height(next: seq<seq<int>>, x: int): nat {
    if 0 <= x < |next| then |next[x]| else 0
  }

  /** Level `i` holds exactly the elements taller than `i`. */
  ghost predicate Members(next: seq<seq<int>>, levels: seq<seq<int>>, i: nat)
    requires i < |levels|
  {
    forall x :: x in levels[i] <==> x in levels[0] && i < Height(next, x)
  }

  /**
   * The arena realises `levels`: the head has `maxLevel` slots, every level is an ascending
   * chain of the elements taller than it, and no element is taller than `maxLevel`.
   */
  ghost predicate Shape(keys: seq<int>, next: seq<seq<int>>, levels: seq<seq<int>>, maxLevel: nat) {
    && |next| == |keys| > 0
    && |next[0]| == maxLevel
    && |levels| == maxLevel > 0
    && (forall i :: 0 <= i < maxLevel ==>
          Ascending(keys, levels[i]) && Chain(next, levels[i], i) && Members(next, levels, i))
    && (forall x :: x in levels[0] ==> Height(next, x) <= maxLevel)
  }

  /** An ascending level with no key `k` stays ascending with a node of key `k` placed at `Below(k)`. */
  lemma AscendingInsert(keys: seq<int>, c: seq<int>, k: int, n: int)
    requires Ascending(keys, c) && 0 < n < |keys| && keys[n] == k
    requires forall t :: 0 <= t < |c| ==> keys[c[t]] != k
    ensures Ascending(keys, Insert(c, Below(keys, c, k), n))
  {
    BelowSplit(keys, c, k);
    var u := Below(keys, c, k);
    var c' := Insert(c, u, n);
    forall s, t | 0 <= s < t < |c'|
      ensures keys[c'[s]] < keys[c'[t]]
    {
      if t < u {
        assert c'[s] == c[s] && c'[t] == c[t];
      } else if t == u {
        assert c'[s] == c[s] && c'[t] == n;
      } else if s < u {
        assert c'[s] == c[s] && c'[t] == c[t - 1];
      } else if s == u {
        assert c'[s] == n && c'[t] == c[t - 1];
      } else {
        assert c'[s] == c[s - 1] && c'[t] == c[t - 1];
      }
    }
  }

  lemma AscendingRemove(keys: seq<int>, c: seq<int>, u: int)
    requires Ascending(keys, c) && 0 <= u < |c|
    ensures Ascending(keys, RemoveAt(c, u))
  {
    var c' := RemoveAt(c, u);
    forall s, t | 0 <= s < t < |c'|
      ensures keys[c'[s]] < keys[c'[t]]
    {
      if t < u {
        assert c'[s] == c[s] && c'[t] == c[t];
      } else if s < u {
        assert c'[s] == c[s] && c'[t] == c[t + 1];
      } else {
        assert c'[s] == c[s + 1] && c'[t] == c[t + 1];
      }
    }
  }

  // ---------------------------------------------------------------------------------------
  // The content: key -> value
  // ---------------------------------------------------------------------------------------

  /** The key -> value map the nodes of `c` hold. */
  ghost function Entries(keys: seq<int>, vals: seq<string>, c: seq<int>): map<int, string>
    requires forall t :: 0 <= t < |c| ==> 0 <= c[t] < |keys| && c[t] < |vals|
  {
    if c == [] then map[] else Entries(keys, vals, c[1..])[keys[c[0]] := vals[c[0]]]
  }

  /** The keys held by the nodes of `c`. */
  ghost function KeysOf(keys: seq<int>, c: seq<int>): set<int>
    requires forall t :: 0 <= t < |c| ==> 0 <= c[t] < |keys|
  {
    set t | 0 <= t < |c| :: keys[c[t]]
  }

  lemma {:induction false} EntriesKeys(keys: seq<int>, vals: seq<string>, c: seq<int>)
    requires forall t :: 0 <= t < |c| ==> 0 <= c[t] < |keys| && c[t] < |vals|
    ensures Entries(keys, vals, c).Keys == KeysOf(keys, c)
  {
    if c != [] {
      EntriesKeys(keys, vals, c[1..]);
      assert KeysOf(keys, c) == KeysOf(keys, c[1..]) + {keys[c[0]]} by {
        forall x | x in KeysOf(keys, c)
          ensures x in KeysOf(keys, c[1..]) + {keys[c[0]]}
        {
          var t :| 0 <= t < |c| && keys[c[t]] == x;
          if t > 0 {
            assert c[1..][t - 1] == c[t];
          }
        }
        forall x | x in KeysOf(keys, c[1..])
          ensures x in KeysOf(keys, c)
        {
          var t :| 0 <= t < |c[1..]| && keys[c[1..][t]] == x;
          assert c[1..][t] == c[t + 1];
        }
      }
    }
  }

  /** In an ascending level, each node's key maps to that node's value. */
  lemma {:induction false} EntriesValue(keys: seq<int>, vals: seq<string>, c: seq<int>, t: int)
    requires Ascending(keys, c) && |vals| == |keys| && 0 <= t < |c|
    ensures keys[c[t]] in Entries(keys, vals, c) && Entries(keys, vals, c)[keys[c[t]]] == vals[c[t]]
  {
    if t > 0 {
      assert Ascending(keys, c[1..]);
      assert c[1..][t - 1] == c[t];
      EntriesValue(keys, vals, c[1..], t - 1);
    }
  }

  /** `Entries` only looks at the keys and values of the nodes of `c`. */
  lemma {:induction false} EntriesFrame(keys: seq<int>, vals: seq<string>, keys': seq<int>, vals': seq<string>, c: seq<int>)
    requires forall t :: 0 <= t < |c| ==> 0 <= c[t] < |keys| && c[t] < |vals|
    requires forall t :: 0 <= t < |c| ==> c[t] < |keys'| && c[t] < |vals'|
    requires forall t :: 0 <= t < |c| ==> keys'[c[t]] == keys[c[t]] && vals'[c[t]] == vals[c[t]]
    ensures Entries(keys', vals', c) == Entries(keys, vals, c)
  {
    if c != [] {
      EntriesFrame(keys, vals, keys', vals', c[1..]);
    }
  }

  /** Placing a node with a new key anywhere in a level adds its pair to the content. */
  lemma {:induction false} EntriesInsert(keys: seq<int>, vals: seq<string>, c: seq<int>, u: int, n: int)
    requires forall t :: 0 <= t < |c| ==> 0 <= c[t] < |keys| && c[t] < |vals|
    requires 0 <= u <= |c| && 0 <= n < |keys| && n < |vals|
    requires forall t :: 0 <= t < |c| ==> keys[c[t]] != keys[n]
    ensures Entries(keys, vals, Insert(c, u, n)) == Entries(keys, vals, c)[keys[n] := vals[n]]
    decreases u
  {
    if u == 0 {
      assert Insert(c, u, n) == [n] + c;
      assert ([n] + c)[1..] == c;
    } else {
      assert Insert(c, u, n) == [c[0]] + Insert(c[1..], u - 1, n);
      assert ([c[0]] + Insert(c[1..], u - 1, n))[1..] == Insert(c[1..], u - 1, n);
      EntriesInsert(keys, vals, c[1..], u - 1, n);
    }
  }

  lemma MapUpdateRemove(m: map<int, string>, k: int, v: string)
    requires k !in m
    ensures m[k := v] - {k} == m
  {
  }

  lemma MapRemoveUpdate(m: map<int, string>, a: int, b: int, v: string)
    requires a != b
    ensures (m - {a})[b := v] == m[b := v] - {a}
  {
  }

  /** Unlinking the node at position `u` of an ascending level drops its key from the content. */
  lemma {:induction false} EntriesRemove(keys: seq<int>, vals: seq<string>, c: seq<int>, u: int)
    requires Ascending(keys, c) && |vals| == |keys| && 0 <= u < |c|
    ensures Entries(keys, vals, RemoveAt(c, u)) == Entries(keys, vals, c) - {keys[c[u]]}
    decreases u
  {
    if u == 0 {
      EntriesRemoveFirst(keys, vals, c);
    } else {
      var tail := c[1..];
      assert Ascending(keys, tail);
      var r := RemoveAt(tail, u - 1);
      assert RemoveAt(c, u) == [c[0]] + r;
      assert ([c[0]] + r)[1..] == r;
      assert tail[u - 1] == c[u];
      EntriesRemove(keys, vals, tail, u - 1);
      MapRemoveUpdate(Entries(keys, vals, tail), keys[c[u]], keys[c[0]], vals[c[0]]);
    }
  }

  lemma EntriesRemoveFirst(keys: seq<int>, vals: seq<string>, c: seq<int>)
    requires Ascending(keys, c) && |vals| == |keys| && 0 < |c|
    ensures Entries(keys, vals, RemoveAt(c, 0)) == Entries(keys, vals, c) - {keys[c[0]]}
  {
    var tail := c[1..];
    assert RemoveAt(c, 0) == tail;
    assert keys[c[0]] !in Entries(keys, vals, tail) by {
      EntriesKeys(keys, vals, tail);
    }
    MapUpdateRemove(Entries(keys, vals, tail), keys[c[0]], vals[c[0]]);
  }

  /** Replacing the value of a node of an ascending level replaces the value of its key. */
  lemma {:induction false} EntriesUpdate(keys: seq<int>, vals: seq<string>, c: seq<int>, t: int, v: string)
    requires Ascending(keys, c) && |vals| == |keys| && 0 <= t < |c|
    ensures Entries(keys, vals[c[t] := v], c) == Entries(keys, vals, c)[keys[c[t]] := v]
  {
    if t == 0 {
      EntriesFrame(keys, vals, keys, vals[c[0] := v], c[1..]);
    } else {
      assert Ascending(keys, c[1..]);
      assert c[1..][t - 1] == c[t];
      EntriesUpdate(keys, vals, c[1..], t - 1, v);
    }
  }

  /** An ascending level holds as many pairs as nodes. */
  lemma {:induction false} EntriesSize(keys: seq<int>, vals: seq<string>, c: seq<int>)
    requires Ascending(keys, c) && |vals| == |keys|
    ensures |Entries(keys, vals, c)| == |c|
  {
    if c != [] {
      assert Ascending(keys, c[1..]);
      EntriesSize(keys, vals, c[1..]);
      EntriesKeys(keys, vals, c[1..]);
      assert keys[c[0]] !in KeysOf(keys, c[1..]);
    }
  }

  // ---------------------------------------------------------------------------------------
  // The shape after a whole insertion or removal
  // ---------------------------------------------------------------------------------------

  lemma InInsert(c: seq<int>, u: int, n: int, x: int)
    requires 0 <= u <= |c|
    ensures x in Insert(c, u, n) <==> x in c || x == n
  {
    assert c == c[..u] + c[u..];
  }

  /** In a level without repeated nodes, unlinking position `u` removes exactly the node there. */
  lemma InRemoveAt(keys: seq<int>, c: seq<int>, u: int, x: int)
    requires Ascending(keys, c) && 0 <= u < |c|
    ensures x in RemoveAt(c, u) <==> x in c && x != c[u]
  {
    assert c == c[..u] + [c[u]] + c[u + 1..];
    if x in c && x != c[u] {
      var t :| 0 <= t < |c| && c[t] == x;
      if t < u {
        assert RemoveAt(c, u)[t] == x;
      } else {
        assert RemoveAt(c, u)[t - 1] == x;
      }
    }
  }

  /**
   * `Set`'s splice loop, taken as a whole: after a node `n` with the absent key `k` and height
   * `level` has been linked in at `Below(k)` on every level below `level`, the shape holds again.
   */
  lemma InsertShape(keys0: seq<int>, next0: seq<seq<int>>, L: seq<seq<int>>, k: int,
                    keys: seq<int>, next: seq<seq<int>>, levels: seq<seq<int>>, level: nat, maxLevel: nat)
    requires Shape(keys0, next0, L, maxLevel)
    requires forall t :: 0 <= t < |L[0]| ==> keys0[L[0][t]] != k
    requires keys == keys0 + [k] && |next| == |keys| && 1 <= level <= maxLevel
    requires |next[|keys0|]| == level && forall x :: 0 <= x < |next0| ==> |next[x]| == |next0[x]|
    requires |levels| == maxLevel
    requires forall j :: 0 <= j < maxLevel ==> Chain(next, levels[j], j)
    requires forall j :: 0 <= j < level ==> levels[j] == Insert(L[j], Below(keys0, L[j], k), |keys0|)
    requires forall j :: level <= j < maxLevel ==> levels[j] == L[j]
    ensures Shape(keys, next, levels, maxLevel)
  {
    var n := |keys0|;
    assert forall j, x :: 0 <= j < maxLevel && x in L[j] ==> x in L[0] && 0 < x < n;
    forall i | 0 <= i < maxLevel
      ensures Ascending(keys, levels[i]) && Members(next, levels, i)
    {
      assert Ascending(keys, L[i]);
      if i < level {
        BelowFrame(keys0, keys, L[i], k);
        forall t | 0 <= t < |L[i]|
          ensures keys[L[i][t]] != k
        {
          assert L[i][t] in L[0];
        }
        AscendingInsert(keys, L[i], k, n);
      }
      forall x
        ensures x in levels[i] <==> x in levels[0] && i < Height(next, x)
      {
        InInsert(L[0], Below(keys0, L[0], k), n, x);
        if i < level {
          InInsert(L[i], Below(keys0, L[i], k), n, x);
        }
        assert x in L[i] <==> x in L[0] && i < Height(next0, x);
      }
    }
    forall x | x in levels[0]
      ensures Height(next, x) <= maxLevel
    {
      InInsert(L[0], Below(keys0, L[0], k), n, x);
    }
  }

  /** Appending the new node to the arena keeps every level a chain of ascending existing nodes. */
  lemma AppendNode(keys0: seq<int>, next0: seq<seq<int>>, L: seq<seq<int>>, maxLevel: nat,
                   keys: seq<int>, next: seq<seq<int>>, s: seq<int>, k: int)
    requires Shape(keys0, next0, L, maxLevel)
    requires keys == keys0 + [k] && next == next0 + [s]
    ensures forall j :: 0 <= j < maxLevel ==> Chain(next, L[j], j) && Ascending(keys, L[j]) && |keys0| !in L[j]
  {
    forall j | 0 <= j < maxLevel
      ensures Chain(next, L[j], j) && Ascending(keys, L[j]) && |keys0| !in L[j]
    {
      assert Chain(next0, L[j], j) && Ascending(keys0, L[j]);
      ChainAppend(next0, s, L[j], j);
    }
  }

  /** What the new node adds to level 0: its key, mapped to its value, and one more element. */
  lemma InsertContent(keys0: seq<int>, vals0: seq<string>, c0: seq<int>, k: int, v: string,
                      keys: seq<int>, vals: seq<string>, c: seq<int>)
    requires Ascending(keys0, c0) && |vals0| == |keys0|
    requires forall t :: 0 <= t < |c0| ==> keys0[c0[t]] != k
    requires keys == keys0 + [k] && vals == vals0 + [v]
    requires c == Insert(c0, Below(keys0, c0, k), |keys0|)
    ensures Entries(keys, vals, c) == Entries(keys0, vals0, c0)[k := v]
    ensures |keys0| in c && |c| == |c0| + 1
  {
    var b := Below(keys0, c0, k);
    EntriesFrame(keys0, vals0, keys, vals, c0);
    EntriesInsert(keys, vals, c0, b, |keys0|);
    InInsert(c0, b, |keys0|, |keys0|);
  }

  /** An element sits, on every level it occupies, at the position the search for its key stops at. */
  lemma ElementPositions(keys: seq<int>, next: seq<seq<int>>, L: seq<seq<int>>, e: int, maxLevel: nat)
    requires Shape(keys, next, L, maxLevel) && e in L[0]
    ensures 1 <= |next[e]| <= maxLevel
    ensures forall j :: 0 <= j < |next[e]| ==>
      e in L[j] && Below(keys, L[j], keys[e]) < |L[j]| && L[j][Below(keys, L[j], keys[e])] == e
  {
    assert Members(next, L, 0);
    forall j | 0 <= j < |next[e]|
      ensures e in L[j] && Below(keys, L[j], keys[e]) < |L[j]| && L[j][Below(keys, L[j], keys[e])] == e
    {
      assert Members(next, L, j);
      var t :| 0 <= t < |L[j]| && L[j][t] == e;
      PositionOfKey(keys, L[j], t, keys[e]);
    }
  }

  /**
   * `Remove`'s unlink loop, taken as a whole: after element `e` has been unlinked at its
   * position on every level it occupies, the shape holds again without it.
   */
  lemma RemoveShape(keys: seq<int>, next0: seq<seq<int>>, L: seq<seq<int>>, e: int,
                    next: seq<seq<int>>, levels: seq<seq<int>>, maxLevel: nat)
    requires Shape(keys, next0, L, maxLevel) && e in L[0]
    requires forall j :: 0 <= j < |next0[e]| ==> Below(keys, L[j], keys[e]) < |L[j]|
    requires |next| == |next0| && forall x :: 0 <= x < |next0| ==> |next[x]| == |next0[x]|
    requires |levels| == maxLevel
    requires forall j :: 0 <= j < maxLevel ==> Chain(next, levels[j], j)
    requires forall j :: 0 <= j < |next0[e]| ==> levels[j] == RemoveAt(L[j], Below(keys, L[j], keys[e]))
    requires forall j :: |next0[e]| <= j < maxLevel ==> levels[j] == L[j]
    ensures Shape(keys, next, levels, maxLevel)
  {
    var h := |next0[e]|;
    ElementPositions(keys, next0, L, e, maxLevel);
    forall i | 0 <= i < maxLevel
      ensures Ascending(keys, levels[i]) && Members(next, levels, i)
    {
      if i < h {
        AscendingRemove(keys, L[i], Below(keys, L[i], keys[e]));
      }
      forall x
        ensures x in levels[i] <==> x in levels[0] && i < Height(next, x)
      {
        InRemoveAt(keys, L[0], Below(keys, L[0], keys[e]), x);
        if i < h {
          InRemoveAt(keys, L[i], Below(keys, L[i], keys[e]), x);
        }
        assert x in L[i] <==> x in L[0] && i < Height(next0, x);
      }
    }
    forall x | x in levels[0]
      ensures Height(next, x) <= maxLevel
    {
      InRemoveAt(keys, L[0], Below(keys, L[0], keys[e]), x);
    }
  }

  /** Splicing `n` into level `i` keeps every level a chain: level `i` gains `n`, the others are untouched. */
  lemma SpliceIn(next: seq<seq<int>>, keys: seq<int>, levels: seq<seq<int>>, i: nat, u: int, n: int,
                 p: int, next': seq<seq<int>>, levels': seq<seq<int>>)
    requires i < |levels| && forall j :: 0 <= j < |levels| ==> Chain(next, levels[j], j)
    requires Ascending(keys, levels[i]) && 0 <= u <= |levels[i]|
    requires 0 < n < |next| && n !in levels[i] && i < |next[n]|
    requires p == At(levels[i], u - 1) && 0 <= p < |next| && i < |next[p]|
    requires next' == Link(Link(next, n, i, next[p][i]), p, i, n)
    requires levels' == levels[i := Insert(levels[i], u, n)]
    ensures forall j :: 0 <= j < |levels'| ==> Chain(next', levels'[j], j)
  {
    var next1 := Link(next, n, i, next[p][i]);
    ChainInsert(next, keys, levels[i], i, u, n);
    forall j | 0 <= j < |levels| && j != i
      ensures Chain(next', levels[j], j)
    {
      LinkOtherLevel(next, n, i, next[p][i], j);
      LinkOtherLevel(next1, p, i, n, j);
      ChainFrame(next, next1, levels[j], j);
      ChainFrame(next1, next', levels[j], j);
    }
  }

  /** Unlinking position `u` of level `i` keeps every level a chain. */
  lemma SpliceOut(next: seq<seq<int>>, keys: seq<int>, levels: seq<seq<int>>, i: nat, u: int,
                  p: int, next': seq<seq<int>>, levels': seq<seq<int>>)
    requires i < |levels| && forall j :: 0 <= j < |levels| ==> Chain(next, levels[j], j)
    requires Ascending(keys, levels[i]) && 0 <= u < |levels[i]|
    requires p == At(levels[i], u - 1) && 0 <= p < |next| && i < |next[p]|
    requires next' == Link(next, p, i, After(levels[i], u))
    requires levels' == levels[i := RemoveAt(levels[i], u)]
    ensures forall j :: 0 <= j < |levels'| ==> Chain(next', levels'[j], j)
  {
    ChainRemove(next, keys, levels[i], i, u);
    forall j | 0 <= j < |levels| && j != i
      ensures Chain(next', levels[j], j)
    {
      LinkOtherLevel(next, p, i, After(levels[i], u), j);
      ChainFrame(next, next', levels[j], j);
    }
  }

  /** Where the search for `k` stops on level 0 decides whether `k` is held, and with which value. */
  lemma Lookup(keys: seq<int>, vals: seq<string>, c: seq<int>, k: int)
    requires Ascending(keys, c) && |vals| == |keys|
    ensures var b := Below(keys, c, k);
      && (k in Entries(keys, vals, c) <==> b < |c| && keys[c[b]] == k)
      && (b < |c| && keys[c[b]] == k ==> Entries(keys, vals, c)[k] == vals[c[b]])
      && (k !in Entries(keys, vals, c) ==> forall t :: 0 <= t < |c| ==> keys[c[t]] != k)
  {
    var b := Below(keys, c, k);
    EntriesKeys(keys, vals, c);
    if b < |c| && keys[c[b]] == k {
      EntriesValue(keys, vals, c, b);
    }
    if k in Entries(keys, vals, c) {
      var t :| 0 <= t < |c| && keys[c[t]] == k;
      PositionOfKey(keys, c, t, k);
    }
  }

  // ---------------------------------------------------------------------------------------
  // The list
  // ---------------------------------------------------------------------------------------

  /**
   * `SkipList`. `keys`, `vals` and `next` are the arena: node `x` has key `keys[x]`, value
   * `vals[x]` and forward array `next[x]`; entry 0 is the embedded head. A node keeps its
   * index after it is removed, as a removed `*Element` keeps its fields.
   */
  class SkipList {
    const maxLevel: int
    var keys: seq<int>
    var vals: seq<string>
    var next: seq<seq<int>>
    var Length: int
    /** `prevNodesCache`: the node a search stopped at, per level. */
    const prevNodesCache: array<int>
    ghost var levels: seq<seq<int>>

    ghost predicate Valid()
      reads this
    {
      && 1 <= maxLevel <= 64
      && Shape(keys, next, levels, maxLevel)
      && |vals| == |keys|
      && prevNodesCache.Length == maxLevel
      && Length == |levels[0]|
    }

    /** The key -> value map the list holds. */
    ghost function Content(): map<int, string>
      reads this
      requires Valid()
    {
      Entries(keys, vals, levels[0])
    }

    /** The empty list behind `NewWithMaxLevel`: a head with `maxLevel` nil slots. */
    constructor (maxLevel: int)
      requires 1 <= maxLevel <= 64
      ensures Valid() && Content() == map[] && Length == 0
      ensures this.maxLevel == maxLevel && next[0] == seq(maxLevel, _ => Nil)
      ensures fresh(prevNodesCache)
    {
      this.maxLevel := maxLevel;
      keys := [0];
      vals := [""];
      next := [seq(maxLevel, _ => Nil)];
      Length := 0;
      prevNodesCache := new int[maxLevel](_ => Nil);
      levels := seq(maxLevel, _ => []);
    }

    /** `Element.Key`. */
    function Key(e: int): int
      reads this
      requires 0 <= e < |keys|
    {
      keys[e]
    }

    /** `Element.Value`. */
    function Value(e: int): string
      reads this
      requires 0 <= e < |vals|
    {
      vals[e]
    }

    /** `Element.NextNodesNum`: the height of the node. */
    function NextNodesNum(e: int): int
      reads this
      requires 0 <= e < |next|
    {
      |next[e]|
    }

    /** `Element.Next`: the successor on level 0, or nil at the end. */
    function Next(e: int): (r: int)
      reads this
      requires 0 <= e < |next| && |next[e]| > 0
      ensures Valid() ==> forall t :: 0 <= t < |levels[0]| && levels[0][t] == e ==> r == After(levels[0], t)
    {
      next[e][0]
    }

    /** `Front`: the first node of level 0, which holds the smallest key; nil when the list is empty. */
    function Front(): (r: int)
      reads this
      requires Valid()
      ensures r == Nil <==> Content() == map[]
      ensures r != Nil ==> r in levels[0] && keys[r] in Content() && forall k :: k in Content() ==> keys[r] <= k
    {
      EntriesKeys(keys, vals, levels[0]);
      assert Chain(next, levels[0], 0) && At(levels[0], -1) == 0;
      assert levels[0] != [] ==> keys[levels[0][0]] in KeysOf(keys, levels[0]);
      next[0][0]
    }

    /** An element's `Key` is held by the list, mapped to the element's `Value`. */
    lemma ElementEntry(e: int)
      requires Valid() && e in levels[0]
      ensures 0 <= e < |keys| && Key(e) in Content() && Content()[Key(e)] == Value(e)
    {
      var t :| 0 <= t < |levels[0]| && levels[0][t] == e;
      EntriesValue(keys, vals, levels[0], t);
    }

    /** An element's `NextNodesNum` is its height: between 1 and `maxLevel`, and it occupies every level below it. */
    lemma ElementHeight(e: int)
      requires Valid() && e in levels[0]
      ensures 0 <= e < |next| && 1 <= NextNodesNum(e) <= maxLevel
      ensures forall j :: 0 <= j < NextNodesNum(e) ==> e in levels[j]
    {
      ElementPositions(keys, next, levels, e, maxLevel);
    }

    /**
     * `getPrevElementNodes(key)`: from the top level down, walk right while the next key is below
     * `k`, and record where each level's walk stopped.
     */
    method GetPrevElementNodes(k: int)
      requires Valid()
      modifies prevNodesCache
      ensures forall i :: 0 <= i < maxLevel ==> prevNodesCache[i] == Pred(keys, levels[i], k)
    {
      var node := 0;
      var i := maxLevel - 1;
      while i >= 0
        invariant -1 <= i < maxLevel
        invariant forall j :: i < j < maxLevel ==> prevNodesCache[j] == Pred(keys, levels[j], k)
        invariant i + 1 == maxLevel ==> node == 0
        invariant i + 1 < maxLevel ==> node == Pred(keys, levels[i + 1], k)
      {
        var nx;
        node, nx := WalkLevel(node, i, k);
        prevNodesCache[i] := node;
        i := i - 1;
      }
    }

    /** `Get(key)`: the same descent; the node it stops before on level 0 is the answer if it has key `k`. */
    method Get(k: int) returns (r: int)
      requires Valid()
      ensures r == Nil <==> k !in Content()
      ensures r != Nil ==> r in levels[0] && keys[r] == k && vals[r] == Content()[k]
    {
      var node := 0;
      var nx := Nil;
      var i := maxLevel - 1;
      while i >= 0
        invariant -1 <= i < maxLevel
        invariant i + 1 == maxLevel ==> node == 0
        invariant i + 1 < maxLevel ==> node == Pred(keys, levels[i + 1], k)
        invariant i + 1 < maxLevel ==> nx == After(levels[i + 1], Below(keys, levels[i + 1], k) - 1)
      {
        node, nx := WalkLevel(node, i, k);
        i := i - 1;
      }
      Lookup(keys, vals, levels[0], k);
      if nx != Nil && keys[nx] == k {
        return nx;
      }
      return Nil;
    }

    /**
     * The walk along level `i` that both descents share: starting from where the walk on
     * level `i + 1` stopped (the head at the top), move right while the next key is below `k`.
     * It stops at the last node of the level with a key below `k`; `nx` is that node's successor.
     */
    method WalkLevel(node: int, i: int, k: int) returns (last: int, nx: int)
      requires Valid() && 0 <= i < maxLevel
      requires i + 1 == maxLevel ==> node == 0
      requires i + 1 < maxLevel ==> node == Pred(keys, levels[i + 1], k)
      ensures last == Pred(keys, levels[i], k)
      ensures nx == After(levels[i], Below(keys, levels[i], k) - 1)
    {
      ghost var t := StartOnLevel(node, i, k);
      BelowSplit(keys, levels[i], k);
      last := node;
      nx := next[last][i];
      while nx != Nil && k > keys[nx]
        invariant -1 <= t < |levels[i]| && last == At(levels[i], t) && nx == After(levels[i], t)
        invariant t < Below(keys, levels[i], k)
        decreases |levels[i]| - t
      {
        last := nx;
        t := t + 1;
        assert last == At(levels[i], t);
        nx := next[last][i];
      }
      assert t == Below(keys, levels[i], k) - 1;
    }

    /**
     * Where the walk on level `i` starts: the node the walk on level `i + 1` stopped at (or
     * the head), found at a position of level `i` before the one the search for `k` stops at.
     */
    ghost method StartOnLevel(node: int, i: int, k: int) returns (t: int)
      requires Valid() && 0 <= i < maxLevel
      requires i + 1 == maxLevel ==> node == 0
      requires i + 1 < maxLevel ==> node == Pred(keys, levels[i + 1], k)
      ensures -1 <= t < Below(keys, levels[i], k) && t < |levels[i]| && node == At(levels[i], t)
      ensures Chain(next, levels[i], i)
    {
      assert Chain(next, levels[i], i);
      BelowSplit(keys, levels[i], k);
      if node == 0 {
        t := -1;
      } else {
        assert i + 1 < maxLevel;
        BelowSplit(keys, levels[i + 1], k);
        var u := Below(keys, levels[i + 1], k) - 1;
        assert levels[i + 1][u] == node && keys[node] < k;
        assert Members(next, levels, i + 1) && Members(next, levels, i);
        assert node in levels[i];
        t :| 0 <= t < |levels[i]| && levels[i][t] == node;
      }
    }

    /** `Contains(key)`: whether `Get` finds a node. */
    method Contains(k: int) returns (b: bool)
      requires Valid()
      ensures b <==> k in Content()
    {
      var e := Get(k);
      b := e != Nil;
    }

    /**
     * `randLevel`: climb from height 1 while the level is below `maxLevel` and the random draw
     * says so. `coin(level)` stands for `r < probTable[level]`.
     */
    method RandLevel(coin: int -> bool) returns (level: int)
      requires 1 <= maxLevel
      ensures 1 <= level <= maxLevel
      ensures forall j :: 1 <= j < level ==> coin(j)
      ensures level < maxLevel ==> !coin(level)
    {
      level := 1;
      while level < maxLevel && coin(level)
        invariant 1 <= level <= maxLevel
        invariant forall j :: 1 <= j < level ==> coin(j)
      {
        level := level + 1;
      }
    }

    /**
     * `Set(key, value)`. A present key only has its node's value replaced. Otherwise a node of
     * height `RandLevel(coin)` is appended to the arena and spliced in after the recorded
     * predecessor on each of its levels, and `Length` grows by one.
     */
    method Set(k: int, v: string, coin: int -> bool) returns (r: int)
      requires Valid()
      modifies this, prevNodesCache
      ensures Valid()
      ensures Content() == old(Content())[k := v]
      ensures Length == if k in old(Content()) then old(Length) else old(Length) + 1
      ensures r in levels[0] && keys[r] == k && vals[r] == v
      ensures old(keys) <= keys && |next| >= old(|next|)
      ensures forall x :: 0 <= x < old(|next|) ==> |next[x]| == old(|next[x]|)
      ensures k in old(Content()) ==> keys == old(keys) && next == old(next) && levels == old(levels)
      ensures k !in old(Content()) ==> r == old(|next|) && 1 <= |next[r]| <= maxLevel
      ensures k !in old(Content()) ==> (forall j :: 1 <= j < |next[r]| ==> coin(j)) && (|next[r]| < maxLevel ==> !coin(|next[r]|))
    {
      GetPrevElementNodes(k);
      var e := next[prevNodesCache[0]][0];
      ghost var b: int := Below(keys, levels[0], k);
      assert e == After(levels[0], b - 1) by {
        assert Chain(next, levels[0], 0);
        BelowSplit(keys, levels[0], k);
      }
      Lookup(keys, vals, levels[0], k);
      if e != Nil && keys[e] == k {
        EntriesUpdate(keys, vals, levels[0], b, v);
        vals := vals[e := v];
        return e;
      }
      var level := RandLevel(coin);
      r := AddNode(k, v, level);
    }

    /**
     * The new-key half of `Set`: a node of height `level` with key `k` is appended to the arena
     * and spliced in after `prevNodesCache[i]` on each level `i` below `level`.
     */
    method AddNode(k: int, v: string, level: int) returns (n: int)
      requires Valid() && k !in Content() && 1 <= level <= maxLevel
      requires forall j :: 0 <= j < maxLevel ==> prevNodesCache[j] == Pred(keys, levels[j], k)
      modifies this
      ensures Valid() && Content() == old(Content())[k := v] && Length == old(Length) + 1
      ensures n == old(|next|) && n in levels[0] && |next[n]| == level
      ensures keys == old(keys) + [k] && vals == old(vals) + [v] && |next| == n + 1
      ensures forall x :: 0 <= x < n ==> |next[x]| == old(|next[x]|)
    {
      ghost var L, keys0, vals0, next0 := levels, keys, vals, next;
      Lookup(keys, vals, L[0], k);
      n := |next|;
      keys := keys + [k];
      vals := vals + [v];
      next := next + [seq(level, _ => Nil)];
      AppendNode(keys0, next0, L, maxLevel, keys, next, seq(level, _ => Nil), k);
      ghost var us := seq(maxLevel, j requires 0 <= j < maxLevel => Below(keys0, L[j], k));
      forall j | 0 <= j < maxLevel
        ensures 0 <= us[j] <= |L[j]| && prevNodesCache[j] == At(L[j], us[j] - 1)
      {
      }
      SpliceAll(n, level, L, us);
      InsertShape(keys0, next0, L, k, keys, next, levels, level, maxLevel);
      InsertContent(keys0, vals0, L[0], k, v, keys, vals, levels[0]);
      Length := Length + 1;
    }

    /** The splice loop of `Set`: level by level, `n` takes over `prevs[i].next[i]` and `prevs[i]` points to `n`. */
    method SpliceAll(n: int, level: int, ghost L: seq<seq<int>>, ghost us: seq<int>)
      requires 1 <= level <= maxLevel && prevNodesCache.Length == maxLevel
      requires levels == L && |L| == maxLevel && |us| == maxLevel && 0 < n < |next| && |next[n]| == level
      requires forall j :: 0 <= j < maxLevel ==> Chain(next, L[j], j) && Ascending(keys, L[j]) && n !in L[j]
      requires forall j :: 0 <= j < maxLevel ==> 0 <= us[j] <= |L[j]| && prevNodesCache[j] == At(L[j], us[j] - 1)
      modifies this
      ensures keys == old(keys) && vals == old(vals) && Length == old(Length)
      ensures |next| == old(|next|) && |next[n]| == level
      ensures forall x :: 0 <= x < |next| ==> |next[x]| == old(|next[x]|)
      ensures |levels| == maxLevel
      ensures forall j :: 0 <= j < maxLevel ==> Chain(next, levels[j], j)
      ensures forall j :: 0 <= j < level ==> levels[j] == Insert(L[j], us[j], n)
      ensures forall j :: level <= j < maxLevel ==> levels[j] == L[j]
    {
      var i := 0;
      while i < level
        invariant 0 <= i <= level
        invariant keys == old(keys) && vals == old(vals) && Length == old(Length)
        invariant |next| == old(|next|) && |next[n]| == level
        invariant forall x :: 0 <= x < |next| ==> |next[x]| == old(|next[x]|)
        invariant |levels| == maxLevel
        invariant forall j :: 0 <= j < maxLevel ==> Chain(next, levels[j], j)
        invariant forall j :: 0 <= j < i ==> levels[j] == Insert(L[j], us[j], n)
        invariant forall j :: i <= j < maxLevel ==> levels[j] == L[j]
      {
        var p := prevNodesCache[i];
        ghost var u := us[i];
        assert Chain(next, levels[i], i) && p == At(levels[i], u - 1);
        ghost var next' := Link(Link(next, n, i, next[p][i]), p, i, n);
        ghost var levels' := levels[i := Insert(levels[i], u, n)];
        SpliceIn(next, keys, levels, i, u, n, p, next', levels');
        next := next[n := next[n][i := next[p][i]]];
        next := next[p := next[p][i := n]];
        levels := levels';
        i := i + 1;
      }
    }

    /**
     * `Remove(key)`: if the node after `prevs[0]` on level 0 has key `k`, every level it occupies
     * is unlinked around it and `Length` drops by one; otherwise nothing changes and the result is nil.
     */
    method Remove(k: int) returns (r: int)
      requires Valid()
      modifies this, prevNodesCache
      ensures Valid()
      ensures Content() == old(Content()) - {k}
      ensures r == Nil <==> k !in old(Content())
      ensures Length == if k in old(Content()) then old(Length) - 1 else old(Length)
      ensures r != Nil ==> 0 < r < |keys| && r in old(levels[0]) && r !in levels[0] && keys[r] == k && vals[r] == old(Content())[k]
      ensures keys == old(keys) && vals == old(vals) && |next| == old(|next|)
      ensures forall x :: 0 <= x < |next| ==> |next[x]| == old(|next[x]|)
      ensures k !in old(Content()) ==> next == old(next) && levels == old(levels)
    {
      GetPrevElementNodes(k);
      var e := next[prevNodesCache[0]][0];
      ghost var L := levels;
      ghost var b: int := Below(keys, L[0], k);
      assert e == After(L[0], b - 1) by {
        assert Chain(next, L[0], 0);
        BelowSplit(keys, L[0], k);
      }
      Lookup(keys, vals, L[0], k);
      if e == Nil || keys[e] != k {
        return Nil;
      }
      ghost var keys0 := keys;
      ghost var us := seq(maxLevel, j requires 0 <= j < maxLevel => Below(keys0, L[j], k));
      ElementPositions(keys, next, L, e, maxLevel);
      forall j | 0 <= j < |next[e]|
        ensures 0 <= us[j] < |L[j]| && L[j][us[j]] == e && prevNodesCache[j] == At(L[j], us[j] - 1)
      {
      }
      ghost var next0 := next;
      UnlinkAll(e, L, us);
      RemoveShape(keys, next0, L, e, next, levels, maxLevel);
      EntriesRemove(keys, vals, L[0], b);
      InRemoveAt(keys, L[0], b, e);
      Length := Length - 1;
      return e;
    }

    /** The unlink loop of `Remove`: on each level `i` of node `e`, `prevs[i].next[i] = e.next[i]`. */
    method UnlinkAll(e: int, ghost L: seq<seq<int>>, ghost us: seq<int>)
      requires prevNodesCache.Length == maxLevel && 0 <= e < |next| && |next[e]| <= maxLevel
      requires levels == L && |L| == maxLevel && |us| == maxLevel
      requires forall j :: 0 <= j < maxLevel ==> Chain(next, L[j], j) && Ascending(keys, L[j])
      requires forall j :: 0 <= j < |next[e]| ==>
        0 <= us[j] < |L[j]| && L[j][us[j]] == e && prevNodesCache[j] == At(L[j], us[j] - 1)
      modifies this
      ensures keys == old(keys) && vals == old(vals) && Length == old(Length)
      ensures |next| == old(|next|) && forall x :: 0 <= x < |next| ==> |next[x]| == old(|next[x]|)
      ensures |levels| == maxLevel
      ensures forall j :: 0 <= j < maxLevel ==> Chain(next, levels[j], j)
      ensures forall j :: 0 <= j < old(|next[e]|) ==> levels[j] == RemoveAt(L[j], us[j])
      ensures forall j :: old(|next[e]|) <= j < maxLevel ==> levels[j] == L[j]
    {
      var h := |next[e]|;
      var i := 0;
      while i < h
        invariant |next| == old(|next|) && forall x :: 0 <= x < |next| ==> |next[x]| == old(|next[x]|)
        invariant 0 <= i <= h && |next[e]| == h
        invariant keys == old(keys) && vals == old(vals) && Length == old(Length)
        invariant |levels| == maxLevel
        invariant forall j :: 0 <= j < maxLevel ==> Chain(next, levels[j], j)
        invariant forall j :: 0 <= j < i ==> levels[j] == RemoveAt(L[j], us[j])
        invariant forall j :: i <= j < maxLevel ==> levels[j] == L[j]
      {
        var p := prevNodesCache[i];
        ghost var u := us[i];
        assert Chain(next, levels[i], i) && p == At(levels[i], u - 1);
        var v := next[e][i];
        assert v == After(levels[i], u) by {
          assert At(levels[i], u) == e;
        }
        ghost var next' := Link(next, p, i, v);
        ghost var levels' := levels[i := RemoveAt(levels[i], u)];
        SpliceOut(next, keys, levels, i, u, p, next', levels');
        next := next[p := next[p][i := v]];
        levels := levels';
        i := i + 1;
      }
    }
  }

  /** `NewWithMaxLevel(maxLevel)`: an empty list, or nil where the Go code panics on a level outside 1..64. */
  method NewWithMaxLevel(maxLevel: int) returns (list: SkipList?)
    ensures list == null <==> maxLevel < 1 || maxLevel > 64
    ensures list != null ==> fresh(list) && fresh(list.prevNodesCache) && list.Valid() && list.Content() == map[] && list.Length == 0
    ensures list != null ==> list.maxLevel == maxLevel
  {
    if maxLevel < 1 || maxLevel > 64 {
      return null;
    }
    list := new SkipList(maxLevel);
  }

  /** `New()`: an empty list of `DefaultMaxLevel` levels. */
  method New() returns (list: SkipList)
    ensures fresh(list) && fresh(list.prevNodesCache) && list.Valid() && list.Content() == map[] && list.Length == 0
    ensures list.maxLevel == DefaultMaxLevel
  {
    list := new SkipList(DefaultMaxLevel);
  }
}
