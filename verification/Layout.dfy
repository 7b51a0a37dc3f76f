/** The layout that the allocator's model and the bytes of its heap share. */
module Layout {
  /** The bytes of a chunk's header: four words. */
  const HEADER: nat := 32
}
