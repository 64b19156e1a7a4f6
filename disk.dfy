/** The I/O layer beneath every open file. Each file is named by its FileId;
    a read, write or disposal of a page in `faulty` fails, as does a read or
    disposal of a page the file does not have, and page allocation fails on a
    file in `full`. */
module Io {
  import opened Types

  class Disk {
    var pages: map<Key, Page>
    var faulty: set<Key>
    var full: set<FileId>
    var nextPageNo: map<FileId, int>

    constructor (faulty: set<Key>, full: set<FileId>)
      ensures pages == map[] && nextPageNo == map[]
      ensures this.faulty == faulty && this.full == full
    {
      pages, nextPageNo := map[], map[];
      this.faulty, this.full := faulty, full;
    }

    /** The page number the next allocation in `file` hands out. */
    function NextPage(file: FileId): int
      reads this
    {
      if file in nextPageNo then nextPageNo[file] else 0
    }

    method ReadPage(file: FileId, pageNo: int) returns (status: Status, data: Page)
      ensures status == OK || status == UnixErr
      ensures status == OK <==> (file, pageNo) in pages && (file, pageNo) !in faulty
      ensures status == OK ==> data == pages[(file, pageNo)]
    {
      if (file, pageNo) in pages && (file, pageNo) !in faulty {
        status, data := OK, pages[(file, pageNo)];
      } else {
        status, data := UnixErr, [];
      }
    }

    method WritePage(file: FileId, pageNo: int, data: Page) returns (status: Status)
      modifies this`pages
      ensures status == if (file, pageNo) in faulty then UnixErr else OK
      ensures pages == if status == OK then old(pages)[(file, pageNo) := data] else old(pages)
    {
      if (file, pageNo) in faulty {
        status := UnixErr;
      } else {
        pages := pages[(file, pageNo) := data];
        status := OK;
      }
    }

    method AllocatePage(file: FileId) returns (status: Status, pageNo: int)
      modifies this`pages, this`nextPageNo
      ensures status == if file in full then UnixErr else OK
      ensures status == OK ==> pageNo == old(NextPage(file))
      ensures status == OK ==> pages == old(pages)[(file, pageNo) := []]
      ensures status == OK ==> NextPage(file) == pageNo + 1
      ensures status == OK ==> forall f :: f != file ==> NextPage(f) == old(NextPage(f))
      ensures status != OK ==> pages == old(pages) && nextPageNo == old(nextPageNo)
    {
      if file in full {
        status, pageNo := UnixErr, -1;
      } else {
        pageNo := NextPage(file);
        pages := pages[(file, pageNo) := []];
        nextPageNo := nextPageNo[file := pageNo + 1];
        status := OK;
      }
    }

    method DisposePage(file: FileId, pageNo: int) returns (status: Status)
      modifies this`pages
      ensures status == OK || status == UnixErr
      ensures status == OK <==> (file, pageNo) in old(pages) && (file, pageNo) !in faulty
      ensures pages == if status == OK then old(pages) - {(file, pageNo)} else old(pages)
    {
      if (file, pageNo) in pages && (file, pageNo) !in faulty {
        pages := pages - {(file, pageNo)};
        status := OK;
      } else {
        status := UnixErr;
      }
    }
  }
}
