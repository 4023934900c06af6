/** Shared types, and strings that end with a null character. */
module Common {
  datatype Option<+T> = None | Some(value: T)

  type byte = bv8

  /** A character of a string, or the null character behind it. */
  function At(s: string, i: nat): char {
    if i < |s| then s[i] else '\0'
  }

  /** The characters of a string, with the null character that ends it. */
  predicate IsCString(s: seq<byte>) {
    s != [] && forall i :: 0 <= i < |s| ==> (s[i] == 0 <==> i == |s| - 1)
  }
}
