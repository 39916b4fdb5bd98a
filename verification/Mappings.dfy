/** What the kernel's fixed mappings do to the mapped bytes of an address space. */
module Mappings {
  import opened Words

  type Bytes = map<int, Byte>

  /** Anonymous: zero bytes over [start, start + len), whatever was there. */
  function MapZero(bytes: Bytes, start: int, len: int): Bytes {
    bytes + map i | start <= i < start + len && Within(i, start, len) :: 0
  }

  /** Of a file from `offset` on, both page aligned. The end of the file's last page reads as zero; touching a page
      that lies wholly beyond the file raises SIGBUS, so it counts as not mapped. */
  function MapFile(bytes: Bytes, start: int, len: int, file: seq<Byte>, offset: nat): Bytes {
    (map i | i in bytes && !Within(i, start, len) :: bytes[i]) +
    map i | start <= i < start + len && Within(i, start, len) && Backed(i - start, file, offset) ::
      if offset + i - start < |file| then file[offset + i - start] else 0
  }

  /** The file has a byte in the page `k` bytes into the mapping. */
  predicate Backed(k: int, file: seq<Byte>, offset: nat) {
    offset + k - k % PAGE_SZ < |file|
  }

  lemma MapZeroAt(bytes: Bytes, start: int, len: int, i: int)
    ensures i in MapZero(bytes, start, len) <==> Within(i, start, len) || i in bytes
    ensures i in MapZero(bytes, start, len) ==> MapZero(bytes, start, len)[i] == if Within(i, start, len) then 0 else bytes[i]
  {
  }

  lemma MapFileAt(bytes: Bytes, start: int, len: int, file: seq<Byte>, offset: nat, i: int)
    ensures i in MapFile(bytes, start, len, file, offset)
            <==> if Within(i, start, len) then Backed(i - start, file, offset) else i in bytes
    ensures i in bytes && !Within(i, start, len) ==> MapFile(bytes, start, len, file, offset)[i] == bytes[i]
    ensures Within(i, start, len) && Backed(i - start, file, offset) ==>
      MapFile(bytes, start, len, file, offset)[i] == if offset + i - start < |file| then file[offset + i - start] else 0
  {
  }
}
