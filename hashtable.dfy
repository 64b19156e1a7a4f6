/** The page index of the buffer manager, by its contract: a map from
    (file, page number) to frame number that refuses to insert a key it holds
    and to look up or remove a key it does not. */
module HashTable {
  import opened Types

  class BufHashTbl {
    var entries: map<Key, int>

    constructor ()
      ensures entries == map[]
    {
      entries := map[];
    }

    method Insert(file: FileId, pageNo: int, frameNo: int) returns (status: Status)
      modifies this
      ensures (file, pageNo) in old(entries) ==> status == HashTblError && entries == old(entries)
      ensures (file, pageNo) !in old(entries) ==> status == OK && entries == old(entries)[(file, pageNo) := frameNo]
    {
      if (file, pageNo) in entries {
        status := HashTblError;
      } else {
        entries := entries[(file, pageNo) := frameNo];
        status := OK;
      }
    }

    method Lookup(file: FileId, pageNo: int) returns (status: Status, frameNo: int)
      ensures status == OK || status == HashNotFound
      ensures status == OK <==> (file, pageNo) in entries
      ensures status == OK ==> frameNo == entries[(file, pageNo)]
    {
      if (file, pageNo) in entries {
        status, frameNo := OK, entries[(file, pageNo)];
      } else {
        status, frameNo := HashNotFound, -1;
      }
    }

    method Remove(file: FileId, pageNo: int) returns (status: Status)
      modifies this
      ensures status == OK || status == HashNotFound
      ensures status == OK <==> (file, pageNo) in old(entries)
      ensures entries == old(entries) - {(file, pageNo)}
    {
      if (file, pageNo) in entries {
        entries := entries - {(file, pageNo)};
        status := OK;
      } else {
        status := HashNotFound;
      }
    }
  }
}
