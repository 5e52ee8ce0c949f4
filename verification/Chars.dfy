/** UEFI's 16-bit characters and NUL-terminated strings of them. */
module Chars {
  type Char16 = x: int | 0 <= x < 0x1_0000

  const SPACE: Char16 := 0x20
  const PERCENT: Char16 := 0x25
  const STAR: Char16 := 0x2a
  const COMMA: Char16 := 0x2c
  const MINUS: Char16 := 0x2d
  const DOT: Char16 := 0x2e
  const ZERO: Char16 := 0x30
  const NINE: Char16 := 0x39
  const QUESTION: Char16 := 0x3f
  const NEWLINE: Char16 := 0x0a
  const RETURN: Char16 := 0x0d

  /** A buffer that holds a string, its terminator, and nothing behind it. */
  ghost predicate CString(s: seq<Char16>) {
    |s| > 0 && s[|s| - 1] == 0 && forall i :: 0 <= i < |s| - 1 ==> s[i] != 0
  }

  /** The characters from an index up to the terminator. */
  function From(s: seq<Char16>, i: nat): seq<Char16>
    requires i < |s|
  {
    s[i..|s| - 1]
  }

  /** The character at an index of a string, 0 at its end. */
  function At(s: seq<Char16>, i: nat): Char16
    requires i <= |s|
  {
    if i < |s| then s[i] else 0
  }
}
