/** Values shared by the buffer manager: status codes, page keys and the
    per-frame descriptor `BufDesc` with its `Set` and `Clear` updates. */
module Types {

  datatype Option<T> = None | Some(value: T)

  /** The status codes the buffer manager and the file layer return. */
  datatype Status =
    | OK
    | BufferExceeded   // every frame is pinned
    | HashNotFound     // key absent from the page index
    | HashTblError     // insert of a key the page index already holds
    | PageNotPinned    // unpin of a frame whose pin count is zero
    | PagePinned       // flush of a file that still has a pinned page
    | BadBuffer        // an invalid frame that still names a file
    | UnixErr          // failure reported by the I/O layer

  /** Identity of an open file (the engine compares `File*` pointers). */
  type FileId = nat

  /** A page of a file: the key of the page index. */
  type Key = (FileId, int)

  /** Contents of one page frame. */
  type Page = seq<bv8>

  /** Metadata of one frame of the pool. `file == None` is the engine's NULL file. */
  datatype BufDesc = BufDesc(
    frameNo: int,
    file: Option<FileId>,
    pageNo: int,
    pinCnt: nat,
    dirty: bool,
    valid: bool,
    refbit: bool)
  {
    /** The frame holds page `k`. */
    predicate Holds(k: Key) {
      valid && file == Some(k.0) && pageNo == k.1
    }

    /** Installs page (f, p): pinned once, clean, referenced, valid. */
    function Set(f: FileId, p: int): BufDesc {
      this.(file := Some(f), pageNo := p, pinCnt := 1, dirty := false,
            refbit := true, valid := true)
    }

    /** Empties the frame. */
    function Clear(): BufDesc {
      this.(pinCnt := 0, file := None, pageNo := -1, dirty := false,
            refbit := false, valid := false)
    }

    /** A hit in the page index: one more holder, and referenced again. */
    function Pinned(): BufDesc {
      this.(pinCnt := pinCnt + 1, refbit := true)
    }

    /** One holder lets go; a dirty release makes the frame dirty for good. */
    function Unpinned(markDirty: bool): BufDesc
      requires pinCnt >= 1
    {
      this.(pinCnt := pinCnt - 1, dirty := dirty || markDirty)
    }
  }

  /** The index key of a frame that names a file. */
  function KeyOf(d: BufDesc): Key
    requires d.file.Some?
  {
    (d.file.value, d.pageNo)
  }
}
