/** syscall_hook.c: the emulated program break. */
module Break {
  import opened Words
  import opened Mappings

  const TWO32: int := 0x1_0000_0000

  /** What the guest sees: `bytes` are the mapped, readable and writable addresses. */
  datatype Space = Space(vbrk: Word, bytes: Bytes)

  /** The increment as the code holds it, in 32 bits. */
  function Increment(vbrk: Word, want: Word): nat {
    (want - vbrk) % TWO32
  }

  /** Length of the mapping: `PAGE_ROUND(size) + 1`, in 32 bits. */
  function MapLength(size: nat): nat {
    PageRoundNext(size) % TWO32
  }

  /** The new break is taken only for a request that leaves the break's page. */
  predicate Grows(vbrk: Word, want: Word) {
    Increment(vbrk, want) + PageOffset(vbrk) > PAGE_SZ
  }

  /** The request ends the process: it shrinks the break, or the length of its mapping wraps to 0, which `mmap`
      rejects. */
  predicate Ends(vbrk: Word, want: Word) {
    0 < want <= vbrk || (want > vbrk && Grows(vbrk, want) && MapLength(Increment(vbrk, want)) == 0)
  }

  /** The length wraps exactly for the increments whose low 32 bits are within a page of 2^32. */
  lemma WrapsIff(size: nat)
    requires size < TWO32
    ensures MapLength(size) == 0 <==> size >= TWO32 - PAGE_SZ
  {
    RoundNextBounds(size);
    if size < TWO32 - PAGE_SZ {
      assert PageRoundNext(size) < TWO32;
    } else {
      assert size / PAGE_SZ == TWO32 / PAGE_SZ - 1;
    }
  }

  class Breaker {
    var vbrk: Word
    var bytes: Bytes

    constructor (vbrk: Word, bytes: Bytes)
      ensures View() == Space(vbrk, bytes)
    {
      this.vbrk, this.bytes := vbrk, bytes;
    }

    ghost function View(): Space
      reads this
    {
      Space(vbrk, bytes)
    }

    /** `hook_brk` with argument `rdi`; None where its assertion or its mapping fails. Returns the new rax. */
    method HookBrk(rdi: Word) returns (rax: Option<Word>)
      modifies this
      ensures rax.None? <==> Ends(old(vbrk), rdi)
      ensures rax.Some? ==> View() == Brk(old(View()), rdi) && rax.value == vbrk
      ensures rax.None? ==> View() == old(View())
      ensures rdi == 0 ==> rax == Some(old(vbrk)) && vbrk == old(vbrk)
      ensures 0 < rdi <= old(vbrk) ==> rax.None?
      ensures old(vbrk) < rdi ==>
        var d := (rdi - old(vbrk)) % 0x1_0000_0000;
        if d + old(vbrk) % 4096 <= 4096 then rax == Some(old(vbrk)) && vbrk == old(vbrk) && bytes == old(bytes)
        else if d >= 0xFFFF_F000 then rax.None?
        else rax == Some(rdi) && vbrk == rdi
    {
      WrapsIff(Increment(vbrk, rdi));
      var base := vbrk;
      if rdi == 0 {
        return Some(base);
      }
      if rdi <= base { return None; }
      var size := Increment(base, rdi);
      if size + PageOffset(base) > PAGE_SZ {
        if MapLength(size) == 0 { return None; }
        bytes := MapZero(bytes, PageAlign(base), MapLength(size));
        base := rdi;
      }
      vbrk := base;
      rax := Some(base);
    }
  }

  /** The request as long as it does not end the process. */
  function Brk(s: Space, rdi: Word): Space {
    if rdi == 0 || rdi <= s.vbrk || !Grows(s.vbrk, rdi) then s
    else Space(rdi, MapZero(s.bytes, PageAlign(s.vbrk), MapLength(Increment(s.vbrk, rdi))))
  }

  /** The break after a request: `rdi` itself if that leaves the break's page, the old one otherwise. */
  lemma BreakIs(s: Space, rdi: Word)
    requires s.vbrk < rdi && rdi - s.vbrk < 0xFFFF_F000
    ensures Brk(s, rdi).vbrk == if rdi - s.vbrk + s.vbrk % 4096 > 4096 then rdi else s.vbrk
    ensures rdi - s.vbrk + s.vbrk % 4096 <= 4096 ==> Brk(s, rdi) == s
  {
    assert (rdi - s.vbrk) % TWO32 == rdi - s.vbrk;
  }

  lemma QueryIs(s: Space)
    ensures Brk(s, 0) == s
  {
  }

  /** What a growth grants reads as zero, from an aligned break on. */
  lemma GrantedIsZero(s: Space, rdi: Word, i: int)
    requires s.vbrk % 4096 == 0 && s.vbrk + 4096 < rdi && rdi - s.vbrk < 0xFFFF_F000 && s.vbrk <= i < rdi
    ensures i in Brk(s, rdi).bytes && Brk(s, rdi).bytes[i] == 0
  {
    hide PageRoundNext, MapZero;
    BreakIs(s, rdi);
    GrowthIsExact(s, rdi);
    RoundNextBounds(rdi - s.vbrk);
    MapZeroAt(s.bytes, PageAlign(s.vbrk), MapLength(Increment(s.vbrk, rdi)), i);
  }

  /** A growth touches the pages from the break's own on, as many as its increment and one more fill, and no byte
      below or above them. */
  lemma GrowthIsLocal(s: Space, rdi: Word, i: int)
    requires s.vbrk < rdi && rdi - s.vbrk < 0xFFFF_F000
    requires i < s.vbrk - s.vbrk % 4096 || i >= s.vbrk - s.vbrk % 4096 + ((rdi - s.vbrk) / 4096 + 1) * 4096
    ensures i in Brk(s, rdi).bytes <==> i in s.bytes
    ensures i in s.bytes ==> Brk(s, rdi).bytes[i] == s.bytes[i]
  {
    hide MapZero;
    GrowthIsExact(s, rdi);
    RoundNextBounds(rdi - s.vbrk);
    MapZeroAt(s.bytes, PageAlign(s.vbrk), MapLength(Increment(s.vbrk, rdi)), i);
  }

  // ----- one request -----

  /** Every byte from `low` up to the break is mapped. */
  ghost predicate MappedFrom(s: Space, low: int) {
    forall i :: low <= i < s.vbrk ==> i in s.bytes
  }

  /** Bytes below the old break survive. */
  ghost predicate KeepsBelow(s: Space, s': Space) {
    forall i :: i < s.vbrk && i in s.bytes ==> i in s'.bytes && s'.bytes[i] == s.bytes[i]
  }

  predicate Request(s: Space, rdi: Word) {
    rdi == 0 || (rdi > s.vbrk && rdi - s.vbrk < TWO32 - PAGE_SZ)
  }

  lemma GrowthIsExact(s: Space, rdi: Word)
    requires Request(s, rdi) && rdi > 0
    ensures Increment(s.vbrk, rdi) == rdi - s.vbrk
    ensures MapLength(rdi - s.vbrk) == PageRoundNext(rdi - s.vbrk)
  {
    var d := rdi - s.vbrk;
    assert d % TWO32 == d;
    assert PageRoundNext(d) < TWO32;
  }

  /** From a page-aligned break a request keeps the bytes below it, and maps everything up to the break
      it grants. */
  lemma AlignedRequest(s: Space, rdi: Word, low: int)
    requires Request(s, rdi) && s.vbrk % PAGE_SZ == 0 && MappedFrom(s, low)
    ensures KeepsBelow(s, Brk(s, rdi)) && MappedFrom(Brk(s, rdi), low) && Brk(s, rdi).vbrk >= s.vbrk
    ensures rdi % PAGE_SZ == 0 ==> Brk(s, rdi).vbrk % PAGE_SZ == 0
  {
    if rdi > 0 {
      GrowthIsExact(s, rdi);
    }
  }

  /** A request for exactly one page, or less, is refused: the break stays. */
  lemma OnePageIsRefused(s: Space, rdi: Word)
    requires s.vbrk % PAGE_SZ == 0 && s.vbrk < rdi <= s.vbrk + PAGE_SZ
    ensures Brk(s, rdi) == s
  {
    assert (rdi - s.vbrk) % TWO32 == rdi - s.vbrk;
  }

  /** A growing request maps from the start of the break's page. It keeps the bytes below the break of
      every address space exactly when the break is page aligned. */
  lemma KeepsBelowIffAligned(vbrk: Word, rdi: Word)
    requires rdi > vbrk && rdi - vbrk < TWO32 - PAGE_SZ && Grows(vbrk, rdi)
    ensures (forall b: Bytes :: KeepsBelow(Space(vbrk, b), Brk(Space(vbrk, b), rdi))) <==> vbrk % PAGE_SZ == 0
  {
    GrowthIsExact(Space(vbrk, map[]), rdi);
    if vbrk % PAGE_SZ == 0 {
      forall b: Bytes
        ensures KeepsBelow(Space(vbrk, b), Brk(Space(vbrk, b), rdi))
      {
      }
    } else {
      var b: Bytes := map[vbrk - 1 := 1];
      assert !KeepsBelow(Space(vbrk, b), Brk(Space(vbrk, b), rdi)) by {
        assert Brk(Space(vbrk, b), rdi).bytes[vbrk - 1] == 0;
      }
    }
  }

  /** From an unaligned break the mapping may also end below the break it grants: everything up to there is
      mapped, in every address space that was mapped up to the old break, exactly when the offsets of the break
      and of the increment fit into one page. */
  lemma MapsToBreakIff(vbrk: Word, rdi: Word)
    requires rdi > vbrk && rdi - vbrk < TWO32 - PAGE_SZ && Grows(vbrk, rdi)
    ensures (forall b: Bytes, low: int :: MappedFrom(Space(vbrk, b), low) ==> MappedFrom(Brk(Space(vbrk, b), rdi), low))
            <==> vbrk % PAGE_SZ + (rdi - vbrk) % PAGE_SZ <= PAGE_SZ
  {
    var d := rdi - vbrk;
    GrowthIsExact(Space(vbrk, map[]), rdi);
    var end := PageAlign(vbrk) + PageRoundNext(d);
    assert end == rdi - vbrk % PAGE_SZ - d % PAGE_SZ + PAGE_SZ;
    hide PageAlign, PageRoundNext;
    if vbrk % PAGE_SZ + d % PAGE_SZ <= PAGE_SZ {
      forall b: Bytes, low: int | MappedFrom(Space(vbrk, b), low)
        ensures MappedFrom(Brk(Space(vbrk, b), rdi), low)
      {
        EverythingMapped(vbrk, rdi, b, low);
      }
    } else {
      var s := Space(vbrk, map[]);
      assert MappedFrom(s, vbrk);
      assert !MappedFrom(Brk(s, rdi), vbrk) by {
        MapZeroAt(map[], PageAlign(vbrk), PageRoundNext(d), rdi - 1);
      }
    }
  }

  lemma EverythingMapped(vbrk: Word, rdi: Word, b: Bytes, low: int)
    requires rdi > vbrk && rdi - vbrk < TWO32 - PAGE_SZ && Grows(vbrk, rdi) && MappedFrom(Space(vbrk, b), low)
    requires rdi <= PageAlign(vbrk) + PageRoundNext(rdi - vbrk)
    ensures MappedFrom(Brk(Space(vbrk, b), rdi), low)
  {
    hide PageRoundNext;
    GrowthIsExact(Space(vbrk, b), rdi);
    forall i | low <= i < rdi
      ensures i in Brk(Space(vbrk, b), rdi).bytes
    {
      MapZeroAt(b, PageAlign(vbrk), PageRoundNext(rdi - vbrk), i);
    }
  }

  // ----- whole runs -----

  function Run(s: Space, requests: seq<Word>): Space
    decreases |requests|
  {
    if requests == [] then s else Run(Brk(s, requests[0]), requests[1..])
  }

  /** Each request, at the break it meets, is a query or a page-aligned growth of less than 2^32 - 4096. */
  ghost predicate Requests(s: Space, requests: seq<Word>)
    decreases |requests|
  {
    requests == [] ||
    (Request(s, requests[0]) && requests[0] % PAGE_SZ == 0 && Requests(Brk(s, requests[0]), requests[1..]))
  }

  ghost predicate NoneEnds(s: Space, requests: seq<Word>)
    decreases |requests|
  {
    requests == [] || (!Ends(s.vbrk, requests[0]) && NoneEnds(Brk(s, requests[0]), requests[1..]))
  }

  /** From a page-aligned break, over any sequence of such requests: none ends the process, the break stays aligned and never
      decreases, every byte from the initial break up to it is mapped, and whatever the guest has below
      the initial break keeps its value. */
  lemma {:induction false} BreakRuns(s: Space, requests: seq<Word>, low: int)
    requires s.vbrk % PAGE_SZ == 0 && low <= s.vbrk && MappedFrom(s, low) && Requests(s, requests)
    ensures var s' := Run(s, requests);
      s'.vbrk % PAGE_SZ == 0 && s'.vbrk >= s.vbrk && MappedFrom(s', low) && KeepsBelow(s, s')
    ensures NoneEnds(s, requests)
    decreases |requests|
  {
    if requests != [] {
      AlignedRequest(s, requests[0], low);
      if requests[0] > 0 {
        GrowthIsExact(s, requests[0]);
        WrapsIff(requests[0] - s.vbrk);
      }
      BreakRuns(Brk(s, requests[0]), requests[1..], low);
    }
  }
}
