/** Small value types shared by the models of the node's firmware and its tools. */
module Common {

  /** An optional value: the result of a decoder that may not recognise its input. */
  datatype Option<+T> = None | Some(value: T)

  /** The outcome of an operation that the source can abort by throwing. */
  datatype Result<+T> = Ok(value: T) | Err(message: string)

  /** An unsigned 8-bit value (`uint8_t`, or one element of a JavaScript `Buffer`). */
  type Byte = b: int | 0 <= b < 256

  /** 2 to the power of `n`. */
  function Pow2(n: nat): (r: nat)
    ensures r >= 1
  {
    if n == 0 then 1 else 2 * Pow2(n - 1)
  }

  // Facts about sequences, proved once for every element type.

  /** A sequence is its prefix up to `i` followed by the rest. */
  lemma SplitAt<T>(s: seq<T>, i: nat)
    requires i <= |s|
    ensures s[..i] + s[i..] == s
  {
  }

  /** A non-empty sequence is its prefix followed by its last element. */
  lemma LastSplit<T>(s: seq<T>)
    requires s != []
    ensures s[..|s| - 1] + [s[|s| - 1]] == s
  {
  }

  lemma AppendAssoc<T>(a: seq<T>, b: seq<T>, c: seq<T>)
    ensures (a + b) + c == a + (b + c)
  {
  }

  /** The middle part of a concatenation is found again by slicing. */
  lemma SliceMiddle<T>(a: seq<T>, p: seq<T>, c: seq<T>)
    ensures (a + (p + c))[|a|..|a| + |p|] == p
  {
  }
}
