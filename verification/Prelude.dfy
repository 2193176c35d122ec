/** Vocabulary shared by every module: optional values and the machine integers the program counts with. */
module Prelude {

  datatype Option<+T> = None | Some(value: T)

  const U16_MAX := 0xFFFF
  const U32_MAX := 0xFFFF_FFFF
  const U64_MAX := 0xFFFF_FFFF_FFFF_FFFF

  type byte = n: int | 0 <= n < 0x100
  type u16 = n: int | 0 <= n <= U16_MAX
  type u32 = n: int | 0 <= n <= U32_MAX
  type u64 = n: int | 0 <= n <= U64_MAX

  function Min(a: int, b: int): int { if a <= b then a else b }

  function Max(a: int, b: int): int { if a <= b then b else a }

  /** The nearest value a 64-bit counter can hold. */
  function Clamp(n: nat): u64 { Min(n, U64_MAX) }

  function SaturatingAdd(a: u64, b: u64): (r: u64)
    ensures r == a + b || (r == U64_MAX && a + b > U64_MAX)
  {
    Clamp(a + b)
  }

  function SaturatingSub(a: u64, b: u64): (r: u64)
    ensures r == a - b || (r == 0 && a < b)
  {
    Max(a - b, 0)
  }

  /** The most bytes any one recovered file may have. */
  const MAX_SAMPLE_BYTES := 256 * 1024 * 1024

  /** The Unicode White_Space property. */
  predicate IsWhitespace(c: char) {
    || '\t' <= c <= '\r' || c == ' ' || c == '\U{85}' || c == '\U{A0}' || c == '\U{1680}'
    || '\U{2000}' <= c <= '\U{200A}' || c == '\U{2028}' || c == '\U{2029}' || c == '\U{202F}'
    || c == '\U{205F}' || c == '\U{3000}'
  }

  /** Bytes a text takes in UTF-8. */
  function Utf8Length(s: string): nat {
    if s == "" then 0
    else
      (if s[0] < '\U{80}' then 1 else if s[0] < '\U{800}' then 2 else if s[0] < '\U{10000}' then 3 else 4)
      + Utf8Length(s[1..])
  }
}
