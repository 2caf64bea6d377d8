/**
 Constants of the configuration that is modelled, a 64-bit platform with blocks of 4096 bytes, and what several parts of
 the collector share.
 */
module Platform {

  const WORD_BYTES: nat := 8
  const HBLKSIZE: nat := 4096

  /** Blocks in the address space. */
  const ADDRESS_BLOCKS: nat := 0x10_0000_0000_0000

  /** Entries of a page hash table. */
  const PHT_ENTRIES: nat := 0x4_0000

  /** Ranges of at least this many words are scanned piecemeal. */
  const SPLIT_RANGE_WORDS: nat := 128

  /** PHT_HASH, for a page given by its number. */
  function PhtHash(page: int): (r: nat)
    ensures r < PHT_ENTRIES
  {
    page % PHT_ENTRIES
  }
}

/**
 Sequences with one element more or less.
 */
module Sequences {

  function Without<T>(s: seq<T>, k: int): seq<T>
    requires 0 <= k < |s|
  {
    s[..k] + s[k + 1..]
  }

  function Inserted<T>(s: seq<T>, k: int, x: T): seq<T>
    requires 0 <= k <= |s|
  {
    s[..k] + [x] + s[k..]
  }
}
