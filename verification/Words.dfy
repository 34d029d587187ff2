/** What all modules share: the fixed-width integers of the C source, and a few small notions.  The integers are subset
    types of `int`, so every assignment to one of them is a proof that the value fits: a sum that could overflow a 32-bit
    accumulator does not verify.  Where the C relies on wrap-around, the model writes the `%` out. */
module Words {
  type u8 = x: int | 0 <= x < 0x100
  type u16 = x: int | 0 <= x < 0x1_0000
  type u32 = x: int | 0 <= x < 0x1_0000_0000
  type i32 = x: int | -0x8000_0000 <= x < 0x8000_0000

  const B16 := 0x1_0000
  const B32 := 0x1_0000_0000

  // Veils.  A definition that most proofs should not unfold is written `forall k :: VeilX(k) ==> D`, with a predicate
  // VeilX of its own that is always true: D is seen only where a proof says `assert VeilX(0)`.  A function can be kept
  // n steps of unfolding away, by a parameter n that its recursion only counts down.

  datatype Option<T> = None | Some(value: T)

  function Least(a: nat, b: nat): nat
  {
    if a < b then a else b
  }

  ghost predicate Distinct<T>(s: seq<T>)
  {
    forall i, j :: 0 <= i < j < |s| ==> s[i] != s[j]
  }

  /** Strings end to end. */
  function Flatten<T>(pieces: seq<seq<T>>): seq<T>
  {
    if pieces == [] then [] else Flatten(pieces[..|pieces| - 1]) + pieces[|pieces| - 1]
  }
}
