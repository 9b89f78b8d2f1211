/** Machine integers, an option type and sums over finite sets, shared by the whole model. */
module Common {

  /** 2^64 and 2^32: the moduli of Go's uint64 and uint32 arithmetic. */
  const U64: int := 0x1_0000_0000_0000_0000
  const U32: int := 0x1_0000_0000

  /** Go's uint64 and uint32: unbounded integers restricted to their range. */
  type u64 = x: int | 0 <= x < 0x1_0000_0000_0000_0000
  type u32 = x: int | 0 <= x < 0x1_0000_0000

  /** uint64 addition and subtraction wrap around modulo 2^64. */
  function AddU64(a: u64, b: int): u64 { (a + b) % U64 }
  function SubU64(a: u64, b: int): u64 { (a - b) % U64 }

  datatype Option<T> = None | Some(value: T)

  /** No element occurs twice: a list of keys without duplicates. */
  ghost predicate Distinct<T>(s: seq<T>) {
    forall a, b :: 0 <= a < b < |s| ==> s[a] != s[b]
  }

  /** Reducing a summand modulo 2^64 first does not change the wrapped sum. */
  lemma ModAdd(a: int, b: int)
    ensures (a % U64 + b) % U64 == (a + b) % U64
  {
    var q := a / U64;
    assert a == q * U64 + a % U64;
    assert (a + b) == (a % U64 + b) + q * U64;
  }

  /** The same fact for a wrapped subtraction. */
  lemma ModSub(a: int, b: int)
    ensures (a % U64 - b) % U64 == (a - b) % U64
  {
    ModAdd(a, -b);
  }

  /** An arbitrary but fixed element of a non-empty set: the order in which a Go `range` visits a map. */
  ghost function Pick<T>(s: set<T>): (x: T)
    requires s != {}
    ensures x in s
  {
    var x :| x in s; x
  }

  /** The sum of `f` over the elements of `s`, in no particular order. */
  ghost function SumSet<T>(s: set<T>, f: T -> nat): nat
    decreases |s|
  {
    if s == {} then 0 else f(Pick(s)) + SumSet(s - {Pick(s)}, f)
  }

  /** Any element may be taken out first: the sum does not depend on the visiting order. */
  lemma {:induction false} SumSetRemove<T>(s: set<T>, f: T -> nat, x: T)
    requires x in s
    ensures SumSet(s, f) == f(x) + SumSet(s - {x}, f)
    decreases |s|
  {
    var y := Pick(s);
    if y != x {
      SumSetRemove(s - {y}, f, x);
      SumSetRemove(s - {x}, f, y);
      assert s - {y} - {x} == s - {x} - {y};
    }
  }

  /** Adding a new element to the visited part adds its value to the sum. */
  lemma SumSetAdd<T>(s: set<T>, f: T -> nat, x: T)
    requires x !in s
    ensures SumSet(s + {x}, f) == SumSet(s, f) + f(x)
  {
    SumSetRemove(s + {x}, f, x);
    assert s + {x} - {x} == s;
  }

  /** A multiple of 2^64 strictly between -2^64 and 2^64 is 0. */
  lemma SmallMultiple(d: int)
    requires -U64 < d * U64 < U64
    ensures d == 0
  {
  }

  /** A counter that agrees with a sum modulo 2^64 still agrees after both grow by `b`. */
  lemma WrapAdd(size: int, t: int, b: int, size': int, t': int)
    requires size == t % U64 && size' == (size + b) % U64 && t' == t + b
    ensures size' == t' % U64
  {
    ModAdd(t, b);
  }

  /** The same for a wrapping subtraction. */
  lemma WrapSub(size: int, t: int, b: int, size': int, t': int)
    requires size == t % U64 && size' == (size - b) % U64 && t' == t - b
    ensures size' == t' % U64
  {
    ModSub(t, b);
  }

  /** Replacing a summand `ob` by `nb` moves the counter by the wrapped difference. */
  lemma WrapShift(size: u64, t: int, ob: u64, nb: u64, w: int, size': int, t': int)
    requires size == t % U64 && t == ob + w
    requires size' == AddU64(size, SubU64(nb, ob)) && t' == nb + w
    ensures size' == t' % U64
  {
    ModAdd(nb - ob, size);
    ModAdd(ob + w, nb - ob);
  }

  /** A counter that counts `ob` agrees with a sum that counts `nb` exactly when the two are equal. */
  lemma WrapIff(size: int, t: int, nb: u64, ob: u64, w: int)
    requires size == (ob + w) % U64 && t == nb + w
    ensures size == t % U64 <==> nb == ob
  {
    var q1 := (ob + w) / U64;
    var q2 := (nb + w) / U64;
    assert ob + w == q1 * U64 + (ob + w) % U64;
    assert nb + w == q2 * U64 + (nb + w) % U64;
    if size == t % U64 {
      assert nb - ob == (q2 - q1) * U64;
      SmallMultiple(q2 - q1);
    }
  }

  /** Two wrapped subtractions are one. */
  lemma WrapSubTwice(size: u64, a: int, b: int)
    ensures SubU64(SubU64(size, a), b) == SubU64(size, a + b)
  {
    ModSub(size - a, b);
  }
}
