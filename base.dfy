/**
 * Primitive types shared by the model of Wabbajack.Common: bytes, the
 * fixed-width unsigned integers the hash sidecar stores, the .NET
 * exceptions the modelled code can raise, and Option/Result wrappers that
 * stand for a null return and for a thrown exception.
 */
module Base {

  /** A .NET `byte`. */
  type byte = x: int | 0 <= x < 256

  /** A .NET `uint` (System.UInt32). */
  type u32 = x: int | 0 <= x < 0x1_0000_0000

  /** A .NET `ulong` (System.UInt64). */
  type u64 = x: int | 0 <= x < 0x1_0000_0000_0000_0000

  /** The exceptions the modelled members throw. */
  datatype Exception =
    | InvalidData          // System.IO.InvalidDataException
    | ArgumentOutOfRange   // System.ArgumentOutOfRangeException
    | Argument             // System.ArgumentException
    | Format               // System.FormatException
    | FileNotFound         // System.IO.FileNotFoundException, an IOException

  /** A value or `null`. */
  datatype Option<+T> = None | Some(value: T)

  /** A returned value, or the exception the source would throw instead. */
  datatype Result<+T> = Success(value: T) | Failure(error: Exception)

  function Min(a: int, b: int): int
  {
    if a <= b then a else b
  }

  /** `char.ToLower` restricted to ASCII: 'A'..'Z' map to 'a'..'z'. */
  function LowerChar(c: char): char
  {
    if 'A' <= c <= 'Z' then (c as int + 32) as char else c
  }

  /** `char.ToUpperInvariant` restricted to ASCII: 'a'..'z' map to 'A'..'Z'. */
  function UpperChar(c: char): char
  {
    if 'a' <= c <= 'z' then (c as int - 32) as char else c
  }

  /** `string.ToLower` restricted to ASCII letters. */
  function Lower(s: string): (r: string)
    ensures |r| == |s|
    ensures forall i :: 0 <= i < |s| ==> r[i] == LowerChar(s[i])
  {
    seq(|s|, i requires 0 <= i < |s| => LowerChar(s[i]))
  }

  /** Two characters are equal under OrdinalIgnoreCase exactly when their lower-case forms are. */
  lemma UpperEqIffLowerEq(c: char, d: char)
    ensures UpperChar(c) == UpperChar(d) <==> LowerChar(c) == LowerChar(d)
  {
  }
}
