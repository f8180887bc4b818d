/**
 Bytes, C strings and the character codes that the JSON engine looks at.
 */
module Bytes {
  type byte = x: int | 0 <= x < 256

  const NUL: byte := 0
  const TAB: byte := 9
  const NEWLINE: byte := 10
  const RETURN: byte := 13
  const SPACE: byte := 32
  const QUOTE: byte := 34
  const STAR: byte := 42
  const PLUS: byte := 43
  const COMMA: byte := 44
  const MINUS: byte := 45
  const DOT: byte := 46
  const SLASH: byte := 47
  const COLON: byte := 58
  const LBRACKET: byte := 91
  const BACKSLASH: byte := 92
  const RBRACKET: byte := 93
  const LOWER_U: byte := 117
  const LBRACE: byte := 123
  const RBRACE: byte := 125

  const NULL_TEXT: seq<byte> := [110, 117, 108, 108]
  const FALSE_TEXT: seq<byte> := [102, 97, 108, 115, 101]
  const TRUE_TEXT: seq<byte> := [116, 114, 117, 101]

  /** The bytes of a C string, its terminator left off. */
  type CChars = s: seq<byte> | NUL !in s witness []

  /** A `char *` that may be NULL. */
  datatype CString = NoString | Chars(chars: CChars)

  /** What a reader of a NUL-terminated buffer sees of `s`. */
  function BeforeNul(s: seq<byte>): (r: CChars)
    ensures r <= s
    ensures |r| == |s| || s[|r|] == NUL
    ensures NUL !in s ==> r == s
  {
    if s == [] || s[0] == NUL then [] else [s[0]] + BeforeNul(s[1..])
  }
}
