/**
 * The value variants a cache entry can hold (the `Valuer` interface of value.go and entry.go),
 * as an immutable tagged union, with the byte size each variant reports to the cache.
 */
module Values {
  import opened Common

  /**
   * How the stored value's Go dynamic type is formed, which a type assertion tells apart:
   * a value of a types/ package type (what `types.NewString`, `NewList`, `NewHash` and
   * `NewSet` return), a pointer to a types/ package type (what `types.NewZset` returns), or a
   * pointer to a root-package type (what the root package's constructors return).
   */
  datatype Form = TypesValue | TypesPointer | RootPointer

  /**
   * One arm per variant, each with its `Form`. A stored value is a snapshot: what it holds
   * when it is stored. The sorted-set arm carries the size it reports, because the skip
   * list's own `Size` is not part of this model.
   */
  datatype Value =
    | Str(s: string, form: Form)
    | Lst(items: seq<string>, form: Form)
    | Hsh(pairs: map<string, string>, form: Form)
    | St(members: set<string>, form: Form)
    | Zs(reported: u64, form: Form)

  /** The variant a typed getter asserts the stored value to be. */
  datatype Kind = StringKind | ListKind | HashKind | SetKind | ZsetKind

  function KindOf(v: Value): Kind {
    match v
    case Str(_, _) => StringKind
    case Lst(_, _) => ListKind
    case Hsh(_, _) => HashKind
    case St(_, _) => SetKind
    case Zs(_, _) => ZsetKind
  }

  /**
   * Whether the assertion `v.(T)` succeeds, for the `T` given by a variant and a form: the
   * dynamic type must match in both, so `*types.String` does not match a `types.String`.
   */
  predicate Asserts(v: Value, kind: Kind, form: Form) {
    KindOf(v) == kind && v.form == form
  }

  /** Sum of the byte lengths of the items of a list, without wrap-around. */
  function ListBytes(items: seq<string>): nat {
    if items == [] then 0 else |items[0]| + ListBytes(items[1..])
  }

  /** The bytes one key of a hash costs: its own length plus its value's. */
  ghost function PairBytes(m: map<string, string>): string -> nat {
    k => if k in m then |k| + |m[k]| else 0
  }

  ghost function MemberBytes(): string -> nat {
    k => |k|
  }

  /** Sum of `len(k) + len(v)` over the pairs of a hash, without wrap-around. */
  ghost function HashBytes(m: map<string, string>): nat {
    SumSet(m.Keys, PairBytes(m))
  }

  /** Sum of the byte lengths of the members of a set, without wrap-around. */
  ghost function SetBytes(s: set<string>): nat {
    SumSet(s, MemberBytes())
  }

  /** What `Size()` returns for each variant: the uint64 accumulation wraps modulo 2^64. */
  ghost function Bytes(v: Value): u64 {
    match v
    case Str(s, _) => |s| % U64
    case Lst(items, _) => ListBytes(items) % U64
    case Hsh(m, _) => HashBytes(m) % U64
    case St(s, _) => SetBytes(s) % U64
    case Zs(n, _) => n
  }

  lemma {:induction false} ListBytesAppend(a: seq<string>, b: seq<string>)
    ensures ListBytes(a + b) == ListBytes(a) + ListBytes(b)
  {
    if a == [] {
      assert a + b == b;
    } else {
      assert (a + b)[1..] == a[1..] + b;
      ListBytesAppend(a[1..], b);
    }
  }

  /** The accumulator loop of `List.Size`: the wrapped sum of the items' byte lengths. */
  method ListSize(items: seq<string>) returns (size: u64)
    ensures size == ListBytes(items) % U64
  {
    size := 0;
    for i := 0 to |items|
      invariant size == ListBytes(items[..i]) % U64
    {
      ListBytesAppend(items[..i], [items[i]]);
      assert items[..i + 1] == items[..i] + [items[i]];
      ModAdd(ListBytes(items[..i]), |items[i]|);
      size := AddU64(size, |items[i]|);
    }
    assert items[..|items|] == items;
  }

  /** The accumulator loop of `Hash.Size`: a `range` over the map in an arbitrary order. */
  method HashSize(m: map<string, string>) returns (size: u64)
    ensures size == HashBytes(m) % U64
  {
    size := 0;
    var rest := m.Keys;
    while rest != {}
      invariant rest <= m.Keys
      invariant size == SumSet(m.Keys - rest, PairBytes(m)) % U64
      decreases rest
    {
      var k :| k in rest;
      SumSetAdd(m.Keys - rest, PairBytes(m), k);
      assert m.Keys - rest + {k} == m.Keys - (rest - {k});
      ModAdd(SumSet(m.Keys - rest, PairBytes(m)), |k| + |m[k]|);
      size := AddU64(size, |k| + |m[k]|);
      rest := rest - {k};
    }
    assert m.Keys - rest == m.Keys;
  }

  /** The accumulator loop of `Set.Size`. */
  method SetSize(s: set<string>) returns (size: u64)
    ensures size == SetBytes(s) % U64
  {
    size := 0;
    var rest := s;
    while rest != {}
      invariant rest <= s
      invariant size == SumSet(s - rest, MemberBytes()) % U64
      decreases rest
    {
      var k :| k in rest;
      SumSetAdd(s - rest, MemberBytes(), k);
      assert s - rest + {k} == s - (rest - {k});
      ModAdd(SumSet(s - rest, MemberBytes()), |k|);
      size := AddU64(size, |k|);
      rest := rest - {k};
    }
    assert s - rest == s;
  }

  /** `value.Size()` through the interface: dispatch on the variant. */
  method SizeOf(v: Value) returns (n: u64)
    ensures n == Bytes(v)
  {
    match v
    case Str(s, _) => n := |s| % U64;
    case Lst(items, _) => n := ListSize(items);
    case Hsh(m, _) => n := HashSize(m);
    case St(s, _) => n := SetSize(s);
    case Zs(r, _) => n := r;
  }
}
