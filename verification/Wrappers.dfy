/** What several modules share: optional values, prefixes and the 64-bit counter. */
module Wrappers {
  datatype Option<+T> = None | Some(value: T)

  /** What a JSON library makes of a text: a record, nothing, or an exception when the text is JSON of
    * another shape. */
  datatype Parsed<+T> = Parsed(value: T) | Discarded | Throws

  predicate StartsWith(s: string, prefix: string) {
    |prefix| <= |s| && s[..|prefix|] == prefix
  }

  /** A signed 64-bit counter after fetch_add(1). */
  function FetchAdd(n: int): int {
    if n == 0x7FFF_FFFF_FFFF_FFFF then -0x8000_0000_0000_0000 else n + 1
  }
}
