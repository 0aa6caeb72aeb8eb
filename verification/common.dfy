/** Small shared vocabulary: bytes, an optional value standing for `null` or
    `undefined`, and a result standing for a value or a thrown exception. */
module Common {

  /** An element of a `Uint8Array`. */
  type byte = b: int | 0 <= b < 256

  /** A value that may be absent (`null` / `undefined` in the source). */
  datatype Option<+T> = None | Some(value: T)

  /** A value, or the error an operation raised instead of returning. */
  datatype Result<+T, +E> = Ok(value: T) | Err(error: E)

  /** No element of `s` equals `c`. */
  predicate Free(s: string, c: char)
  {
    forall i :: 0 <= i < |s| ==> s[i] != c
  }

  const UpperLetters: string := "ABCDEFGHIJKLMNOPQRSTUVWXYZ"
  const LowerLetters: string := "abcdefghijklmnopqrstuvwxyz"
  const Digits: string := "0123456789"

  /** `s` is the `n` consecutive code points starting at `first`. */
  ghost predicate IsRun(s: string, first: char, n: nat)
  {
    |s| == n && forall i :: 0 <= i < n ==> s[i] as int == first as int + i
  }

  /** The three ASCII ranges the alphabets of this system are built from. */
  lemma AsciiRuns()
    ensures IsRun(UpperLetters, 'A', 26)
    ensures IsRun(LowerLetters, 'a', 26)
    ensures IsRun(Digits, '0', 10)
  {
  }
}
