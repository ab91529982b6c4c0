/** Pool entries as the driver records them. */
module Pool {
  import opened Base

  /** The bits of the flag word, KN_DIFF_POOL_FLAG_*; a flag word is the set of its bits. */
  datatype Flag =
    | NonPaged | Accessible | Writable | Executable
    | AccessibleAll | WritableAll | ExecutableAny | WritableMixed | ExecutableMixed
    | HashChanged | HashSampled

  type Flags = set<Flag>

  /** KN_DIFF_POOL_SEARCH_TARGET_*: which snapshot a search is about. */
  const TARGET_DIFF: u32 := 0
  const TARGET_CURRENT: u32 := 1

  datatype Entry = Entry(
    address: u64, size: u64, tag: u32, flags: Flags,
    pageCount: u32, accessiblePages: u32, writablePages: u32, executablePages: u32,
    contentHash: u64, hashedBytes: u32, snapshotId: u32)

  datatype SearchResult = SearchResult(
    address: u64, offset: u64, poolSize: u64, tag: u32, flags: Flags,
    pageCount: u32, accessiblePages: u32, writablePages: u32, executablePages: u32,
    contentHash: u64, hashedBytes: u32, snapshotId: u32)

  /** An entry of a snapshot buffer while the scan is still filling it in. */
  class PoolEntry {
    const address: u64
    const size: u64
    const tag: u32
    const snapshotId: u32
    var flags: Flags
    var pageCount: u32
    var accessiblePages: u32
    var writablePages: u32
    var executablePages: u32
    var contentHash: u64
    var hashedBytes: u32

    constructor (address: u64, size: u64, tag: u32, snapshotId: u32)
      ensures Value() == Entry(address, size, tag, {NonPaged}, 0, 0, 0, 0, 0, 0, snapshotId)
    {
      this.address, this.size, this.tag, this.snapshotId := address, size, tag, snapshotId;
      flags := {NonPaged};
      pageCount, accessiblePages, writablePages, executablePages := 0, 0, 0, 0;
      contentHash, hashedBytes := 0, 0;
    }

    function Value(): Entry
      reads this
    {
      Entry(address, size, tag, flags, pageCount, accessiblePages, writablePages, executablePages,
            contentHash, hashedBytes, snapshotId)
    }
  }
}
