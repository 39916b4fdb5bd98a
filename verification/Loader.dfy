/** core_mapper.c: mapping a PT_LOAD segment after the first, with its zero-filled tail. */
module Loader {
  import opened Words
  import opened Mappings
  import Break

  datatype Segment = Segment(offset: nat, filesz: nat, memsz: nat, writable: bool)

  /** The file mapping's length as the nested macros compute it. */
  function FileLength(curr: Word, filesz: nat): int {
    PageRoundNext(PageRoundNext(curr + filesz) - 1 - PageAlign(curr))
  }

  lemma FileLengthIs(curr: Word, filesz: nat)
    ensures PageAlign(curr) + FileLength(curr, filesz) == PageRoundNext(curr + filesz)
  {
    var p, q := curr / PAGE_SZ, (curr + filesz) / PAGE_SZ;
    assert PageAlign(curr) == PAGE_SZ * p && PageRoundNext(curr + filesz) == PAGE_SZ * q + PAGE_SZ;
    DivModUnique(PAGE_SZ * q + PAGE_SZ - 1 - PAGE_SZ * p, PAGE_SZ, q - p, PAGE_SZ - 1);
  }

  lemma FileLengthBounds(curr: Word, filesz: nat)
    ensures 0 <= PageAlign(curr) <= curr && 0 <= FileLength(curr, filesz) <= filesz + 2 * PAGE_SZ
  {
    hide PageRoundNext;
    FileLengthIs(curr, filesz);
    RoundNextBounds(curr + filesz);
  }

  class Image {
    const file: seq<Byte>
    var bytes: Bytes
    var vbrk: Word
    /** Where the pages that got their segment's own protections end. */
    var protectedTo: int

    constructor (file: seq<Byte>, bytes: Bytes)
      ensures this.file == file && this.bytes == bytes && vbrk == 0 && protectedTo == 0
    {
      this.file, this.bytes, this.vbrk, this.protectedTo := file, bytes, 0, 0;
    }

    /** `map_load` of a segment whose address in memory is `curr`, once the first one is mapped. False where the
        memset of the file's last page raises SIGBUS. */
    method MapLoad(s: Segment, curr: Word) returns (ok: bool)
      requires curr > 0 && curr + s.filesz + 3 * PAGE_SZ < TWO64 && curr + s.memsz + 3 * PAGE_SZ < TWO64
      modifies this
      ensures ok == Loaded(old(bytes), file, s, curr).Some?
      ensures ok ==> bytes == Loaded(old(bytes), file, s, curr).value
      ensures ok ==> vbrk == BreakAfter(old(vbrk), s, curr) && protectedTo == ProtectedEnd(s, curr)
      ensures ok && WellFormed(file, s, curr) ==> FileThere(bytes, file, s, curr)
    {
      hide MapFile, MapZero, PageRoundNext, PageAlign, FileLength, FileThere, WellFormed, PagesKept;
      FileLengthBounds(curr, s.filesz);
      FileLengthBounds(0, s.filesz);
      RoundNextBounds(curr + s.filesz);
      RoundNextBounds(curr + s.memsz);
      bytes := MapFile(bytes, PageAlign(curr), FileLength(curr, s.filesz), file, s.offset - s.offset % PAGE_SZ);
      if s.memsz > s.filesz {
        var mapFilesz := curr + s.filesz;
        var mapEnd := PageRoundNext(mapFilesz);
        var bssEnd := PageRoundNext(curr + s.memsz);
        if mapFilesz !in bytes { return false; }
        bytes := MapZero(bytes, mapFilesz, mapEnd - mapFilesz);  // memset
        if bssEnd > mapEnd {
          RoundNextBounds(bssEnd - mapEnd);
          bytes := MapZero(bytes, mapEnd, PageRoundNext(bssEnd - mapEnd));
          vbrk := mapEnd + PageRoundNext(bssEnd - mapEnd);
        } else if s.writable {
          vbrk := mapEnd;
        }
      } else if s.writable {
        vbrk := PageAlign(curr) + FileLength(0, s.filesz) + 1;
      }
      protectedTo := PageAlign(curr) + PageRoundNext(s.memsz);  // mprotect
      ok := true;
      if WellFormed(file, s, curr) {
        FileIsLoaded(old(bytes), file, s, curr);
      }
    }
  }

  /** End of the zero-filled pages after the file pages; equal to the end of the file pages if none. */
  function BssEnd(s: Segment, curr: Word): int {
    var mapEnd, bssEnd := PageRoundNext(curr + s.filesz), PageRoundNext(curr + s.memsz);
    if bssEnd > mapEnd then mapEnd + PageRoundNext(bssEnd - mapEnd) else mapEnd
  }

  /** None where clearing the rest of the file's last page raises SIGBUS: that page has no byte of the file. The
      bytes to clear all lie in it. */
  function Loaded(bytes: Bytes, file: seq<Byte>, s: Segment, curr: Word): Option<Bytes> {
    var mapEnd := PageRoundNext(curr + s.filesz);
    var m := MapFile(bytes, PageAlign(curr), FileLength(curr, s.filesz), file, s.offset - s.offset % PAGE_SZ);
    if s.memsz <= s.filesz then Some(m)
    else if curr + s.filesz !in m then None
    else
      var z := MapZero(m, curr + s.filesz, mapEnd - (curr + s.filesz));
      Some(if PageRoundNext(curr + s.memsz) > mapEnd then MapZero(z, mapEnd, BssEnd(s, curr) - mapEnd) else z)
  }

  /** The final `mprotect` starts at the segment's first page; the kernel rounds its length up to whole pages. */
  function ProtectedEnd(s: Segment, curr: Word): int {
    PageAlign(curr) + PageRoundNext(s.memsz)
  }

  function BreakAfter(vbrk: int, s: Segment, curr: Word): int {
    if s.memsz > s.filesz then
      if PageRoundNext(curr + s.memsz) > PageRoundNext(curr + s.filesz) || s.writable then BssEnd(s, curr) else vbrk
    else if s.writable then PageAlign(curr) + FileLength(0, s.filesz) + 1 else vbrk
  }

  /** The offsets of `curr` and of the segment in the file agree modulo the page size, and its bytes are there. */
  predicate WellFormed(file: seq<Byte>, s: Segment, curr: Word) {
    s.offset + s.filesz <= |file| && curr % PAGE_SZ == s.offset % PAGE_SZ
  }

  lemma BackedIs(s: Segment, curr: Word, k: int)
    requires curr % PAGE_SZ == s.offset % PAGE_SZ && k >= PageAlign(curr)
    ensures s.offset - s.offset % PAGE_SZ + k - PageAlign(curr) == s.offset + k - curr
    ensures (k - PageAlign(curr)) % PAGE_SZ == k % PAGE_SZ
  {
    DivModUnique(k - PageAlign(curr), PAGE_SZ, k / PAGE_SZ - curr / PAGE_SZ, k % PAGE_SZ);
  }

  /** A segment with a zero-filled tail is loaded exactly when its file part does not end on a page boundary that
      is also the end of the file. */
  lemma LoadsIff(bytes: Bytes, file: seq<Byte>, s: Segment, curr: Word)
    requires s.filesz < s.memsz && WellFormed(file, s, curr)
    ensures Loaded(bytes, file, s, curr).Some? <==> (curr + s.filesz) % PAGE_SZ != 0 || s.offset + s.filesz < |file|
  {
    hide PageRoundNext, FileLength, MapFile, MapZero, BssEnd;
    FileLengthIs(curr, s.filesz);
    RoundNextBounds(curr + s.filesz);
    MapFileAt(bytes, PageAlign(curr), FileLength(curr, s.filesz), file, s.offset - s.offset % PAGE_SZ, curr + s.filesz);
    BackedIs(s, curr, curr + s.filesz);
  }

  /** What the loaded image holds at address `i`. */
  lemma LoadedAt(bytes: Bytes, file: seq<Byte>, s: Segment, curr: Word, i: int)
    requires s.filesz < s.memsz && WellFormed(file, s, curr) && Loaded(bytes, file, s, curr).Some?
    ensures var m := Loaded(bytes, file, s, curr).value;
      if i < PageAlign(curr) || i >= BssEnd(s, curr) then (i in m <==> i in bytes) && (i in m ==> m[i] == bytes[i])
      else (curr <= i < curr + s.filesz ==> i in m && m[i] == file[s.offset + i - curr])
           && (curr + s.filesz <= i ==> i in m && m[i] == 0)
  {
    hide PageRoundNext, FileLength, MapFile, MapZero;
    FileLengthIs(curr, s.filesz);
    RoundNextBounds(curr + s.filesz);
    BssEndIsBeyond(s, curr);
    var mapEnd := PageRoundNext(curr + s.filesz);
    var m := MapFile(bytes, PageAlign(curr), FileLength(curr, s.filesz), file, s.offset - s.offset % PAGE_SZ);
    var z := MapZero(m, curr + s.filesz, mapEnd - (curr + s.filesz));
    MapFileAt(bytes, PageAlign(curr), FileLength(curr, s.filesz), file, s.offset - s.offset % PAGE_SZ, i);
    MapZeroAt(m, curr + s.filesz, mapEnd - (curr + s.filesz), i);
    MapZeroAt(z, mapEnd, BssEnd(s, curr) - mapEnd, i);
    if i >= PageAlign(curr) {
      BackedIs(s, curr, i);
    }
  }

  /** The segment as the ELF specification describes it (System V gABI, chapter 5, Program Header): the
      file's bytes, then zeros up to the memory size, all mapped; nothing outside its pages changes. */
  lemma SegmentIsLoaded(bytes: Bytes, file: seq<Byte>, s: Segment, curr: Word)
    requires s.filesz < s.memsz && WellFormed(file, s, curr) && Loaded(bytes, file, s, curr).Some?
    ensures var m := Loaded(bytes, file, s, curr).value;
      && (forall i :: curr <= i < curr + s.filesz ==> i in m && m[i] == file[s.offset + i - curr])
      && (forall i :: curr + s.filesz <= i < curr + s.memsz ==> i in m && m[i] == 0)
      && (forall i :: i < PageAlign(curr) || i >= BssEnd(s, curr) ==> (i in m <==> i in bytes) && (i in m ==> m[i] == bytes[i]))
  {
    hide Loaded, BssEnd;
    BssEndIsBeyond(s, curr);
    var m := Loaded(bytes, file, s, curr).value;
    forall i: int
      ensures curr <= i < curr + s.filesz ==> i in m && m[i] == file[s.offset + i - curr]
      ensures curr + s.filesz <= i < curr + s.memsz ==> i in m && m[i] == 0
      ensures i < PageAlign(curr) || i >= BssEnd(s, curr) ==> (i in m <==> i in bytes) && (i in m ==> m[i] == bytes[i])
    {
      LoadedAt(bytes, file, s, curr, i);
    }
  }

  /** Every byte of the segment's file part is in its place. */
  ghost predicate FileThere(m: Bytes, file: seq<Byte>, s: Segment, curr: Word)
    requires WellFormed(file, s, curr)
  {
    forall i :: curr <= i < curr + s.filesz ==> i in m && m[i] == file[s.offset + i - curr]
  }

  /** Nothing changed outside the pages of the file part. */
  ghost predicate PagesKept(m: Bytes, m': Bytes, s: Segment, curr: Word) {
    forall i :: i < curr - curr % 4096 || i >= (curr + s.filesz) / 4096 * 4096 + 4096 ==>
      (i in m' <==> i in m) && (i in m ==> m'[i] == m[i])
  }

  /** Every well-formed segment that is loaded, with a zero-filled tail or without: the file's bytes are in their
      places, and nothing changes outside its own pages. */
  lemma FileIsLoaded(bytes: Bytes, file: seq<Byte>, s: Segment, curr: Word)
    requires WellFormed(file, s, curr) && Loaded(bytes, file, s, curr).Some?
    ensures FileThere(Loaded(bytes, file, s, curr).value, file, s, curr)
    ensures s.memsz <= s.filesz ==> PagesKept(bytes, Loaded(bytes, file, s, curr).value, s, curr)
  {
    hide Loaded, BssEnd;
    if s.filesz < s.memsz {
      SegmentIsLoaded(bytes, file, s, curr);
    } else {
      forall i: int
        ensures var m := Loaded(bytes, file, s, curr).value;
          && (curr <= i < curr + s.filesz ==> i in m && m[i] == file[s.offset + i - curr])
          && (i < curr - curr % 4096 || i >= (curr + s.filesz) / 4096 * 4096 + 4096 ==>
                (i in m <==> i in bytes) && (i in bytes ==> m[i] == bytes[i]))
      {
        WithoutTailAt(bytes, file, s, curr, i);
      }
    }
  }

  /** Without a tail the pages of the segment are those of the file, up to its end. */
  lemma WithoutTailAt(bytes: Bytes, file: seq<Byte>, s: Segment, curr: Word, i: int)
    requires s.memsz <= s.filesz && WellFormed(file, s, curr)
    ensures Loaded(bytes, file, s, curr).Some?
    ensures var m, k := Loaded(bytes, file, s, curr).value, s.offset + i - curr;
      if i < curr - curr % 4096 || i >= (curr + s.filesz) / 4096 * 4096 + 4096 then (i in m <==> i in bytes) && (i in m ==> m[i] == bytes[i])
      else k >= 0 && (k < |file| ==> i in m && m[i] == file[k])
  {
    hide FileLength, MapFile, BssEnd;
    FileLengthIs(curr, s.filesz);
    RoundNextBounds(curr + s.filesz);
    hide PageRoundNext;
    MapFileAt(bytes, PageAlign(curr), FileLength(curr, s.filesz), file, s.offset - s.offset % PAGE_SZ, i);
    if i >= PageAlign(curr) {
      BackedIs(s, curr, i);
    }
  }

  /** The break that a segment leaves, by its numbers. */
  lemma BreakByNumber(vbrk: Word, s: Segment, curr: Word)
    ensures s.memsz > s.filesz && (curr + s.memsz) / 4096 > (curr + s.filesz) / 4096 ==>
      BreakAfter(vbrk, s, curr) == ((curr + s.memsz) / 4096 + 2) * 4096
    ensures s.memsz > s.filesz && (curr + s.memsz) / 4096 == (curr + s.filesz) / 4096 && s.writable ==>
      BreakAfter(vbrk, s, curr) == ((curr + s.filesz) / 4096 + 1) * 4096
    ensures s.memsz > s.filesz && (curr + s.memsz) / 4096 == (curr + s.filesz) / 4096 && !s.writable ==>
      BreakAfter(vbrk, s, curr) == vbrk
    ensures s.memsz <= s.filesz ==>
      BreakAfter(vbrk, s, curr) == if s.writable then (curr / 4096 + s.filesz / 4096 + 1) * 4096 + 1 else vbrk
  {
    RoundNextBounds(curr + s.memsz);
    RoundNextBounds(curr + s.filesz);
    if s.memsz > s.filesz {
      var p, q := (curr + s.filesz) / 4096, (curr + s.memsz) / 4096;
      if q > p {
        DivModUnique(4096 * (q - p), 4096, q - p, 0);
      }
    } else {
      FileLengthIs(0, s.filesz);
    }
  }

  /** The segment's own protections reach its end exactly when the offsets of its address and of its size fit into
      one page; otherwise its last page stays writable. */
  lemma ProtectionReachesEndIff(s: Segment, curr: Word)
    ensures ProtectedEnd(s, curr) == (curr / 4096 + s.memsz / 4096 + 1) * 4096
    ensures curr + s.memsz <= ProtectedEnd(s, curr) <==> curr % PAGE_SZ + s.memsz % PAGE_SZ <= PAGE_SZ
  {
  }

  lemma BssEndIsBeyond(s: Segment, curr: Word)
    requires s.filesz < s.memsz
    ensures BssEnd(s, curr) % PAGE_SZ == 0
    ensures curr + s.memsz < BssEnd(s, curr) && PageRoundNext(curr + s.filesz) <= BssEnd(s, curr)
  {
    var p, q := (curr + s.filesz) / PAGE_SZ, (curr + s.memsz) / PAGE_SZ;
    assert PageRoundNext(curr + s.filesz) == PAGE_SZ * p + PAGE_SZ;
    assert PageRoundNext(curr + s.memsz) == PAGE_SZ * q + PAGE_SZ;
  }

  /** A writable segment leaves a page-aligned break beyond its own end exactly when it has a zero-filled
      tail; without one the break is one byte past a page boundary. */
  lemma BreakIsAlignedIffBss(vbrk: Word, s: Segment, curr: Word)
    requires s.writable
    ensures BreakAfter(vbrk, s, curr) % PAGE_SZ == 0 <==> s.memsz > s.filesz
    ensures s.memsz > s.filesz ==> BreakAfter(vbrk, s, curr) > curr + s.memsz
  {
    if s.memsz > s.filesz {
      BssEndIsBeyond(s, curr);
    } else {
      FileLengthIs(0, s.filesz);
      var p, q := curr / PAGE_SZ, s.filesz / PAGE_SZ;
      assert BreakAfter(vbrk, s, curr) == PAGE_SZ * (p + q + 1) + 1;
    }
  }

  // ----- the break it leaves, and the next growth -----

  /** Without a zero-filled tail the break may lie inside the segment itself. */
  lemma BreakIsBeyondIff(vbrk: Word, s: Segment, curr: Word)
    requires s.writable && s.memsz <= s.filesz
    ensures curr + s.filesz < BreakAfter(vbrk, s, curr) <==> curr % PAGE_SZ + s.filesz % PAGE_SZ <= PAGE_SZ
    ensures PageAlign(curr) + PageRoundNext(s.filesz) + 1 == BreakAfter(vbrk, s, curr) > curr + 1
  {
    FileLengthIs(0, s.filesz);
  }

  /** The bytes of the segment survive the growth. */
  ghost predicate Survives(s: Segment, curr: Word, m: Bytes, m': Bytes) {
    forall i :: curr <= i < curr + s.filesz && i in m ==> i in m' && m'[i] == m[i]
  }

  /** The first growth of the break maps over the pages from one byte below it on: the loaded segment survives, in
      every address space, exactly when the break was beyond it. */
  lemma SurvivesGrowthIff(vbrk: Word, s: Segment, curr: Word, rdi: Word)
    requires s.writable && s.memsz <= s.filesz && BreakAfter(vbrk, s, curr) < rdi
    requires rdi - BreakAfter(vbrk, s, curr) < Break.TWO32 - PAGE_SZ && Break.Grows(BreakAfter(vbrk, s, curr), rdi)
    ensures var b := BreakAfter(vbrk, s, curr);
      (forall m: Bytes :: Survives(s, curr, m, Break.Brk(Break.Space(b, m), rdi).bytes))
      <==> curr % PAGE_SZ + s.filesz % PAGE_SZ <= PAGE_SZ
  {
    var b: Word := BreakAfter(vbrk, s, curr);
    BreakIsBeyondIff(vbrk, s, curr);
    JustBeyondPage(s, curr, b);
    hide BreakAfter, PageAlign, PageRoundNext, Break.Grows, Break.Brk;
    if curr % PAGE_SZ + s.filesz % PAGE_SZ <= PAGE_SZ {
      forall m: Bytes
        ensures Survives(s, curr, m, Break.Brk(Break.Space(b, m), rdi).bytes)
      {
        forall i: int | i < b - 1 && i in m
          ensures i in Break.Brk(Break.Space(b, m), rdi).bytes && Break.Brk(Break.Space(b, m), rdi).bytes[i] == m[i]
        {
          GrowthAt(b, m, rdi, i);
        }
      }
    } else {
      var m: Bytes := map[b - 1 := 1];
      GrowthAt(b, m, rdi, b - 1);
      assert !Survives(s, curr, m, Break.Brk(Break.Space(b, m), rdi).bytes);
    }
  }

  /** A growing request wipes the byte where its page begins, and keeps those below. */
  lemma GrowthAt(b: Word, m: Bytes, rdi: Word, i: int)
    requires b < rdi && rdi - b < Break.TWO32 - PAGE_SZ && Break.Grows(b, rdi)
    ensures var m' := Break.Brk(Break.Space(b, m), rdi).bytes;
      && (i < PageAlign(b) && i in m ==> i in m' && m'[i] == m[i])
      && (i == PageAlign(b) ==> i in m' && m'[i] == 0)
  {
    hide MapZero, PageAlign, PageRoundNext;
    Break.GrowthIsExact(Break.Space(b, m), rdi);
    RoundNextBounds(rdi - b);
    MapZeroAt(m, PageAlign(b), Break.MapLength(Break.Increment(b, rdi)), i);
  }

  lemma JustBeyondPage(s: Segment, curr: Word, b: Word)
    requires b == PageAlign(curr) + PageRoundNext(s.filesz) + 1
    ensures PageAlign(b) == b - 1
  {
    var p, q := curr / PAGE_SZ, s.filesz / PAGE_SZ;
    DivModUnique(b, PAGE_SZ, p + q + 1, 1);
  }
}
