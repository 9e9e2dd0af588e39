/**
 The hidden-entry filter of `walk_directory` (src/main.rs:104-109): an entry is
 skipped when its metadata can be read, its Windows attribute word has the
 `FILE_ATTRIBUTE_HIDDEN` bit set, and `include-hidden` was not given.
 */
module HiddenFilter {
  import opened Io

  /** `FILE_ATTRIBUTE_HIDDEN` (src/main.rs:12). */
  const FILE_ATTRIBUTE_HIDDEN: bv32 := 0x0000_0002

  /** The attribute word has the hidden bit set (src/main.rs:106). */
  predicate HasHiddenAttribute(attributes: bv32)
  {
    attributes & FILE_ATTRIBUTE_HIDDEN != 0
  }

  /** The mask test is exactly the test of bit 1 of the attribute word. */
  lemma HiddenIsBitOne(attributes: bv32)
    ensures HasHiddenAttribute(attributes) <==> (attributes >> 1) & 1 == 1
  {
  }

  /**
   Whether the walker drops the entry at `p` without enqueueing or hashing it:
   the metadata query succeeds, the hidden bit is set and hidden entries were
   not asked for. An entry whose metadata cannot be read is never skipped.
   */
  predicate Skipped(fs: FileSystem, includeHidden: bool, p: Path)
  {
    p in fs.metadata && HasHiddenAttribute(fs.metadata[p].attributes) && !includeHidden
  }

  /** With `include-hidden` the filter lets every entry through. */
  lemma IncludeHiddenKeepsAll(fs: FileSystem, p: Path)
    ensures !Skipped(fs, true, p)
  {
  }
}
