/**
 * The string values. In types/string.go `String` is Go's `string` type itself; in string.go it
 * is a struct wrapping one, with `Type` and `ToString`. A Go `len` counts bytes; a character of
 * the model's strings stands for one byte.
 */
module Strings {
  import opened Common
  import Values

  // ---------------------------------------------------------------------------------------
  // types/string.go
  // ---------------------------------------------------------------------------------------

  /** `NewString(s)`: a conversion, the same bytes. */
  function NewPlain(s: string): string {
    s
  }

  /** `Size()`: the byte length, as a uint64. */
  function PlainSize(s: string): u64 {
    |s| % U64
  }

  /** `Len()`: also the byte length as a uint64. */
  function PlainLen(s: string): u64 {
    |s| % U64
  }

  /**
   * A string made by `NewString(s)` keeps the bytes of `s`, reports the same number for
   * `Size` and `Len`, and that number is what the cache charges for a string entry.
   */
  lemma PlainSizeIsLen(s: string)
    ensures NewPlain(s) == s
    ensures PlainSize(NewPlain(s)) == PlainLen(NewPlain(s)) == Values.Bytes(Values.Str(s, Values.TypesValue))
  {
  }

  // ---------------------------------------------------------------------------------------
  // string.go
  // ---------------------------------------------------------------------------------------

  /** string.go's `String`: a struct with the one field `s`. */
  datatype String = String(s: string)

  /** `NewString(s)`. */
  function NewString(s: string): (r: String)
    ensures r.s == s
  {
    String(s)
  }

  /** `ToString()`: the wrapped string. */
  function ToString(str: String): (s: string)
    ensures NewString(s) == str
  {
    str.s
  }

  /** `Size()`: the byte length as a uint64; what the cache charges for a string entry. */
  function Size(str: String): (n: u64)
    ensures n == Values.Bytes(Values.Str(ToString(str), Values.RootPointer))
  {
    |str.s| % U64
  }

  /** `Len()`: the byte length as an `int`. */
  function Len(str: String): (n: nat)
    ensures n == |ToString(str)|
  {
    |str.s|
  }

  /** `Type()`. */
  function Type(str: String): (t: string)
    ensures t == "String"
  {
    "String"
  }

  /** Wrapping and unwrapping give back the string, and `Size` is `Len` wrapped modulo 2^64. */
  lemma RoundTrip(s: string)
    ensures ToString(NewString(s)) == s
    ensures Size(NewString(s)) == Len(NewString(s)) % U64
  {
  }
}
