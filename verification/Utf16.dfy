/** The code units of UTF-16. */
module Utf16 {

  const REPLACEMENT := 0xFFFD

  predicate Lead(u: nat) {
    0xD800 <= u < 0xDC00
  }

  predicate Trail(u: nat) {
    0xDC00 <= u < 0xE000
  }

  predicate Surrogate(u: nat) {
    0xD800 <= u < 0xE000
  }

  /** The text starts with a surrogate pair. */
  predicate Pair(text: seq<nat>) {
    |text| >= 2 && Lead(text[0]) && Trail(text[1])
  }
}
