/** memory.c: reading and writing guest memory one page-bounded chunk at a time. */
module PagedMemory {
  import opened Words

  const FAILED := -1

  /** Length of the chunk in which the range of `size` bytes at `from` ends. */
  function LastChunk(from: Word, size: nat): nat {
    if (from + size) % PAGE_SZ == 0 then PAGE_SZ else (from + size) % PAGE_SZ
  }

  /** The pages that `is_mapped_range(base, range)` looks at: one every PAGE_SZ bytes below
      `PAGE_ROUND(range) + 1`. */
  ghost function CheckedPages(base: Word, range: nat): iset<Word> {
    iset j: nat | j <= range / PAGE_SZ :: Wrap(base + PAGE_SZ * j)
  }

  /** How the next chunk is chosen at a page boundary that lies `k` bytes into the range. */
  function NextChunk(from: Word, k: nat, size: nat): int {
    if PageAlign(Wrap(k + from)) == PageAlign(Wrap(size + from)) then size - k else PAGE_SZ
  }

  /** The next chunk stays in its page and in the range, and ends the range or the page. */
  lemma NextChunkFits(from: Word, k: nat, size: nat)
    requires 0 < k < size && from + size <= TWO64 && (from + k) % PAGE_SZ == 0
    ensures 0 < NextChunk(from, k, size) <= PAGE_SZ && k + NextChunk(from, k, size) <= size
    ensures k + NextChunk(from, k, size) == size ==> NextChunk(from, k, size) == LastChunk(from, size)
    ensures k + NextChunk(from, k, size) == size || (from + k + NextChunk(from, k, size)) % PAGE_SZ == 0
  {
    var p := (from + k) / PAGE_SZ;
    var q := (from + size) / PAGE_SZ;
    assert from + k == PAGE_SZ * p && from + size == PAGE_SZ * q + (from + size) % PAGE_SZ;
    assert Wrap(k + from) == PAGE_SZ * p;
    assert PageAlign(Wrap(k + from)) == PAGE_SZ * p;
    if from + size < TWO64 {
      assert Wrap(size + from) == size + from;
      assert PageAlign(Wrap(size + from)) == PAGE_SZ * q;
    } else {
      assert PageAlign(Wrap(size + from)) == 0;
    }
  }

  // ----- what `mprotect` refuses, and what that does to a transfer -----

  /** `mprotect` accepts every page of [lo, hi]. */
  ghost predicate Granted(may: Word -> bool, lo: int, hi: int) {
    forall a: Word :: lo <= a <= hi ==> may(PageAlign(a))
  }

  /** Where a transfer that goes through [a, end] page by page first meets a page that is refused. */
  function Refusal(may: Word -> bool, a: nat, end: int): Option<Word>
    requires end < TWO64
    decreases end - a
  {
    if a > end then None
    else if !may(PageAlign(a)) then Some(a)
    else Refusal(may, PageRoundNext(a), end)
  }

  lemma SamePage(a: nat, b: nat)
    requires a <= b < PageRoundNext(a) && b < TWO64
    ensures PageAlign(b) == PageAlign(a) && PageRoundNext(b) == PageRoundNext(a)
  {
    DivModUnique(b, PAGE_SZ, a / PAGE_SZ, b - PAGE_SZ * (a / PAGE_SZ));
  }

  lemma {:induction false} RefusalIs(may: Word -> bool, a: nat, end: int)
    requires end < TWO64
    ensures Refusal(may, a, end).None? <==> Granted(may, a, end)
    ensures Refusal(may, a, end).Some? ==>
      var x := Refusal(may, a, end).value;
      a <= x <= end && !may(PageAlign(x)) && Granted(may, a, x - 1) && (x == a || x % PAGE_SZ == 0)
    decreases end - a
  {
    hide PageAlign, PageRoundNext;
    RoundNextBounds(a);
    if a <= end && may(PageAlign(a)) {
      RefusalIs(may, PageRoundNext(a), end);
      forall b: Word | a <= b < PageRoundNext(a)
        ensures may(PageAlign(b))
      {
        SamePage(a, b);
      }
    }
  }

  /** The transfer goes on to `b`, the end of the page of `a` or an address in it. */
  lemma RefusalFrom(may: Word -> bool, a: nat, b: nat, end: int)
    requires a <= b <= PageRoundNext(a) && a <= end < TWO64 && may(PageAlign(a))
    ensures Refusal(may, a, end) == Refusal(may, b, end)
  {
    if b < PageRoundNext(a) && b < TWO64 {
      SamePage(a, b);
    }
  }

  function Smaller(a: int, b: int): int {
    if a <= b then a else b
  }

  /** A transfer ends the process (SIGSEGV), or returns a number to its caller. */
  datatype Transfer = Fault | Returned(r: int)

  /** A page that may be accessed, and whose protections may be set. */
  function Usable(may: Word -> bool, open: set<Word>): Word -> bool {
    (page: Word) => may(page) && page in open
  }

  /** What `mem_read` does, where the pages of `open` are readable. A page that is not raises a fault. A page whose
      protections cannot be set ends the read; over several pages that is reported as the number of bytes before
      it, and success as the length of the last chunk: never the error value. */
  function ReadResult(may: Word -> bool, open: set<Word>, from: Word, size: nat): Transfer
    requires from + size <= TWO64
  {
    if size == 0 then Returned(0)
    else
      match Refusal(Usable(may, open), from, from + size - 1)
      case None => Returned(if PageOffset(from) + size <= PAGE_SZ then size else LastChunk(from, size))
      case Some(x) =>
        if PageAlign(x) !in open then Fault
        else Returned(if PageOffset(from) + size <= PAGE_SZ then FAILED else x - from)
  }

  /** What `mem_write` does, where the pages of `open` are writable. The empty final round only sets protections. */
  function WriteResult(may: Word -> bool, open: set<Word>, to: Word, size: nat): Transfer
    requires to + size < TWO64
  {
    match Refusal(Usable(may, open), to, to + size - 1)
    case None => Returned(if may(PageAlign(to + size)) then size else FAILED)
    case Some(x) => if PageAlign(x) !in open then Fault else Returned(FAILED)
  }

  /** How many of the `size` bytes at `a` are moved: a chunk is moved before its page's protections are set back. */
  function Moved(may: Word -> bool, open: set<Word>, a: Word, size: nat): (n: nat)
    requires a + size <= TWO64
    ensures n <= size
  {
    if size == 0 then 0
    else
      RefusalIs(Usable(may, open), a, a + size - 1);
      match Refusal(Usable(may, open), a, a + size - 1)
      case None => size
      case Some(x) => if PageAlign(x) !in open then x - a else Smaller(size, PageRoundNext(x) - a)
  }

  /** All bytes are moved exactly when every page but the last is usable and the last is accessible. */
  lemma MovedAllIff(may: Word -> bool, open: set<Word>, a: Word, size: nat)
    requires 0 < size && a + size <= TWO64
    ensures Moved(may, open, a, size) == size
            <==> Granted(Usable(may, open), a, PageAlign(a + size - 1) - 1) && PageAlign(a + size - 1) in open
  {
    hide PageRoundNext;
    var last: Word := a + size - 1;
    RefusalIs(Usable(may, open), a, last);
    AlignBounds(last);
    hide PageAlign;
    if Refusal(Usable(may, open), a, last).Some? {
      var x := Refusal(Usable(may, open), a, last).value;
      RoundNextBounds(x);
      if x < PageAlign(last) {
        NextPageByThen(x, PageAlign(last));
      } else {
        SamePageAs(last, x);
      }
    }
  }

  /** The caller of `mem_read` learns of a refused page exactly when the range lies in that one page. */
  lemma ReadFailsIff(may: Word -> bool, open: set<Word>, from: Word, size: nat)
    requires from + size <= TWO64
    ensures ReadResult(may, open, from, size) == Returned(FAILED)
            <==> 0 < size && PageOffset(from) + size <= PAGE_SZ && PageAlign(from) in open && !may(PageAlign(from))
  {
    hide PageAlign, PageRoundNext;
    if size > 0 {
      var last := from + size - 1;
      RefusalIs(Usable(may, open), from, last);
      if PageOffset(from) + size <= PAGE_SZ {
        InOnePage(from, size);
        if Usable(may, open)(PageAlign(from)) {
          RefusalFrom(Usable(may, open), from, PageRoundNext(from), last);
        }
      }
    }
  }

  /** `mem_read` faults exactly when it meets a page that is not readable before one it is refused. */
  lemma ReadFaultsIff(may: Word -> bool, open: set<Word>, from: Word, size: nat)
    requires 0 < size && from + size <= TWO64
    ensures ReadResult(may, open, from, size) == Fault
            <==> exists x: Word :: from <= x < from + size && PageAlign(x) !in open && Granted(Usable(may, open), from, x - 1)
  {
    hide PageAlign, PageRoundNext;
    var last := from + size - 1;
    var u := Usable(may, open);
    RefusalIs(u, from, last);
    if x: Word :| from <= x < from + size && PageAlign(x) !in open && Granted(u, from, x - 1) {
      assert !u(PageAlign(x));
      assert Refusal(u, from, last).Some?;
      assert Refusal(u, from, last).value <= x;
    }
  }

  /** `mem_write` faults exactly when it meets a page that is not writable before one it is refused. */
  lemma WriteFaultsIff(may: Word -> bool, open: set<Word>, to: Word, size: nat)
    requires to + size < TWO64
    ensures WriteResult(may, open, to, size) == Fault
            <==> exists x: Word :: to <= x < to + size && PageAlign(x) !in open && Granted(Usable(may, open), to, x - 1)
  {
    hide PageAlign, PageRoundNext;
    var u := Usable(may, open);
    RefusalIs(u, to, to + size - 1);
    if x: Word :| to <= x < to + size && PageAlign(x) !in open && Granted(u, to, x - 1) {
      assert !u(PageAlign(x));
      assert Refusal(u, to, to + size - 1).Some?;
      assert Refusal(u, to, to + size - 1).value <= x;
    }
  }

  /** A read over several pages that is refused the page starting `k` bytes in (or its first page) reports `k`, though
      it has copied that page's bytes too. */
  lemma ShortReadByNumber(may: Word -> bool, open: set<Word>, from: Word, size: nat, k: nat)
    requires from % 4096 + size > 4096 && from + size <= TWO64 && k < size && (k == 0 || (from + k) % 4096 == 0)
    requires Granted(Usable(may, open), from, from + k - 1) && PageAlign(from + k) in open && !may(PageAlign(from + k))
    ensures ReadResult(may, open, from, size) == Returned(k)
    ensures Moved(may, open, from, size) == Smaller(size, (from + k) / 4096 * 4096 + 4096 - from)
  {
    hide PageAlign;
    var u := Usable(may, open);
    RefusalIs(u, from, from + size - 1);
    assert !u(PageAlign(from + k));
    RoundNextBounds(from + k);
    hide PageRoundNext;
  }

  /** `mem_write` succeeds exactly when every page of the range is usable, and the protections of the one right after
      it can be set. */
  lemma WriteSucceedsIff(may: Word -> bool, open: set<Word>, to: Word, size: nat)
    requires to + size < TWO64
    ensures WriteResult(may, open, to, size) == Returned(size)
            <==> Granted(Usable(may, open), to, to + size - 1) && may(PageAlign(to + size))
    ensures WriteResult(may, open, to, size) == Returned(size) ==> Moved(may, open, to, size) == size
  {
    RefusalIs(Usable(may, open), to, to + size - 1);
  }

  lemma InOnePage(from: Word, size: nat)
    requires 0 < size && PageOffset(from) + size <= PAGE_SZ
    ensures from + size <= PageRoundNext(from)
  {
  }

  lemma AlignBounds(x: Word)
    ensures PageAlign(x) <= x < PageAlign(x) + PAGE_SZ && PageAlign(x) % PAGE_SZ == 0
    ensures PageAlign(x) + PAGE_SZ == PageRoundNext(x)
  {
  }

  lemma NextPageByThen(x: Word, y: Word)
    requires x < y && y % PAGE_SZ == 0
    ensures PageRoundNext(x) <= y
  {
    assert x / PAGE_SZ < y / PAGE_SZ;
  }

  lemma SamePageAs(last: Word, x: Word)
    requires PageAlign(last) <= x <= last
    ensures PageRoundNext(x) == PageRoundNext(last)
  {
    AlignBounds(last);
    SamePage(PageAlign(last), x);
    SamePage(PageAlign(last), last);
  }

  /** A read of at most a page, exactly: once its first page is usable it gets everything if the page where it ends
      is readable, even one whose protections cannot be set, and faults if not. Otherwise it faults or reports
      no bytes. */
  lemma PageRead(may: Word -> bool, open: set<Word>, from: Word, size: nat)
    requires 0 < size <= PAGE_SZ && from + size <= TWO64
    ensures Usable(may, open)(PageAlign(from)) && PageAlign(from + size - 1) in open ==>
      Moved(may, open, from, size) == size && ReadResult(may, open, from, size).Returned? && 0 < ReadResult(may, open, from, size).r
    ensures Usable(may, open)(PageAlign(from)) && PageAlign(from + size - 1) !in open ==> ReadResult(may, open, from, size) == Fault
    ensures !Usable(may, open)(PageAlign(from)) ==>
      ReadResult(may, open, from, size) == Fault || ReadResult(may, open, from, size).r <= 0
    ensures PageAlign(from) !in open ==> ReadResult(may, open, from, size) == Fault
  {
    hide PageRoundNext;
    var u, last: Word := Usable(may, open), from + size - 1;
    ReadFailsIff(may, open, from, size);
    RefusalIs(u, from, last);
    InSecondPage(from, size);
    AlignBounds(last);
    AlignBounds(from);
    hide PageAlign;
    if u(PageAlign(from)) && Refusal(u, from, last).Some? {
      var x := Refusal(u, from, last).value;
      assert x != from;
      NextPageByThen(from, x);
      RoundNextBounds(x);
      SecondPage(from, x, last);
    } else if u(PageAlign(from)) {
      assert u(PageAlign(last));
    }
  }

  /** Of the at most two pages of a short range, `x` starts the second. */
  lemma SecondPage(from: Word, x: Word, last: Word)
    requires PageRoundNext(from) <= x <= last < PageRoundNext(from) + PAGE_SZ && x % PAGE_SZ == 0
    ensures PageAlign(x) == PageAlign(last) && last < PageRoundNext(x)
  {
    SamePage(x, last);
  }

  /** The engine's page-sized read of a block's code faults on a page behind the block: a block at 0x401f00 in the
      last page of its mapping. */
  lemma ReadBeyondBlockFaults()
    ensures ReadResult(page => page == 0x40_1000, {0x40_1000}, 0x40_1F00, PAGE_SZ) == Fault
  {
  }

  lemma InSecondPage(from: Word, size: nat)
    requires 0 < size <= PAGE_SZ
    ensures from + size - 1 < PageRoundNext(from) + PAGE_SZ
  {
  }

  /** A read that reports no error and yet leaves the end of its buffer unread: 64 bytes from 0x1ff0, where page
      0x1000 is refused. */
  lemma UnnoticedShortRead()
    ensures var may: Word -> bool := a => a != 0x1000;
      ReadResult(may, {0x1000, 0x2000}, 0x1FF0, 64) == Returned(0) && Moved(may, {0x1000, 0x2000}, 0x1FF0, 64) == 16
  {
  }

  /** A range that ends on a page boundary before a refused page, mapped or not, is written completely, and reported
      as failed: the empty final round asks for that page. */
  lemma EmptyRoundFails(may: Word -> bool, open: set<Word>, to: Word, size: nat)
    requires to + size < TWO64 && (to + size) % PAGE_SZ == 0
    requires Granted(Usable(may, open), to, to + size - 1) && !may(to + size)
    ensures WriteResult(may, open, to, size) == Returned(FAILED) && Moved(may, open, to, size) == size
  {
    RefusalIs(Usable(may, open), to, to + size - 1);
    assert PageAlign(to + size) == to + size;
  }

  /** A chunk that ends on a page boundary, or is the last, ends where its page does. */
  lemma RoundNextOfSum(a: Word, chunk: nat)
    requires 0 < chunk <= PAGE_SZ - PageOffset(a)
    ensures a + chunk <= PageRoundNext(a)
    ensures (a + chunk) % PAGE_SZ == 0 ==> a + chunk == PageRoundNext(a)
  {
    if (a + chunk) % PAGE_SZ == 0 {
      assert a == PAGE_SZ * (a / PAGE_SZ) + PageOffset(a);
      MultipleIsFar(PAGE_SZ, (a + chunk) / PAGE_SZ - a / PAGE_SZ);
    }
  }

  lemma ReadInOnePage(may: Word -> bool, open: set<Word>, from: Word, size: nat)
    requires 0 < size <= PAGE_SZ - PageOffset(from) && from + size <= TWO64
    ensures PageAlign(from) !in open ==> ReadResult(may, open, from, size) == Fault && Moved(may, open, from, size) == 0
    ensures PageAlign(from) in open ==> Moved(may, open, from, size) == size
    ensures PageAlign(from) in open ==>
      ReadResult(may, open, from, size) == Returned(if may(PageAlign(from)) then size else FAILED)
  {
    hide PageAlign, PageRoundNext;
    InOnePage(from, size);
    RoundNextBounds(from);
    if Usable(may, open)(PageAlign(from)) {
      RefusalFrom(Usable(may, open), from, PageRoundNext(from), from + size - 1);
    }
  }

  /** A read over several pages that cannot use the page of its chunk `k` bytes in. */
  lemma ReadStops(may: Word -> bool, open: set<Word>, from: Word, size: nat, k: nat, chunk: nat)
    requires PAGE_SZ - PageOffset(from) < size && from + size <= TWO64
    requires k < size && 0 < chunk <= PAGE_SZ - PageOffset(from + k) && k + chunk <= size
    requires k + chunk == size || (from + k + chunk) % PAGE_SZ == 0
    requires Refusal(Usable(may, open), from, from + size - 1) == Refusal(Usable(may, open), from + k, from + size - 1)
    requires !Usable(may, open)(PageAlign(from + k))
    ensures PageAlign(from + k) !in open ==> ReadResult(may, open, from, size) == Fault && Moved(may, open, from, size) == k
    ensures PageAlign(from + k) in open ==>
      ReadResult(may, open, from, size) == Returned(k) && Moved(may, open, from, size) == k + chunk
  {
    hide PageAlign, PageRoundNext;
    RoundNextOfSum(from + k, chunk);
  }

  lemma ReadThrough(may: Word -> bool, open: set<Word>, from: Word, size: nat)
    requires PAGE_SZ - PageOffset(from) < size && from + size <= TWO64
    requires Refusal(Usable(may, open), from, from + size - 1) == Refusal(Usable(may, open), from + size, from + size - 1)
    ensures ReadResult(may, open, from, size) == Returned(LastChunk(from, size)) && Moved(may, open, from, size) == size
  {
  }

  lemma ChunkEnd(a: Word)
    ensures a + (PAGE_SZ - PageOffset(a)) == PageRoundNext(a)
  {
  }

  /** A write that cannot use the page of its chunk `k` bytes in. */
  lemma WriteStops(may: Word -> bool, open: set<Word>, to: Word, size: nat, k: nat, chunk: nat)
    requires to + size < TWO64 && k < size && chunk == Smaller(PAGE_SZ - PageOffset(to + k), size - k)
    requires Refusal(Usable(may, open), to, to + size - 1) == Refusal(Usable(may, open), to + k, to + size - 1)
    requires !Usable(may, open)(PageAlign(to + k))
    ensures PageAlign(to + k) !in open ==> WriteResult(may, open, to, size) == Fault && Moved(may, open, to, size) == k
    ensures PageAlign(to + k) in open ==>
      WriteResult(may, open, to, size) == Returned(FAILED) && Moved(may, open, to, size) == k + chunk
  {
    hide PageAlign, PageRoundNext;
    ChunkEnd(to + k);
  }

  lemma WriteThrough(may: Word -> bool, open: set<Word>, to: Word, size: nat)
    requires to + size < TWO64
    requires Refusal(Usable(may, open), to, to + size - 1) == Refusal(Usable(may, open), to + size, to + size - 1)
    ensures WriteResult(may, open, to, size) == Returned(if may(PageAlign(to + size)) then size else FAILED)
    ensures Moved(may, open, to, size) == size
  {
    hide PageAlign;
  }

  // ----- what the engine needs of its pages -----

  /** Every page with one of the `n` addresses from `a` on is in `open`. */
  ghost predicate AllOpen(open: set<Word>, a: int, n: int) {
    forall x: Word :: Within(x, a, n) ==> PageAlign(x) in open
  }

  /** A patch of `n` bytes can be read, or written, at `a`. */
  ghost predicate CanPatch(may: Word -> bool, open: set<Word>, a: Word, n: nat) {
    Granted(Usable(may, open), a, a + n - 1) && may(PageAlign(Wrap(a + n)))
  }

  /** Page-sized reads of a block's code, from its start and on from there up to its branch `n` bytes on, do not
      fail. They reach up to a page beyond the branch, unless the block starts its page and ends in it. */
  ghost predicate CanScan(may: Word -> bool, open: set<Word>, a: Word, n: nat, insn: nat) {
    && Granted(Usable(may, open), a, a + n)
    && ((a % PAGE_SZ == 0 && n + insn <= PAGE_SZ) || AllOpen(open, a, n + PAGE_SZ))
  }

  /** For a branch in the page where its block starts: besides that page, the one after it must be readable,
      though the block does not reach it, unless the block starts on the page boundary. */
  lemma CanScanIff(may: Word -> bool, open: set<Word>, a: Word, n: nat, insn: nat)
    requires a + n + PAGE_SZ <= TWO64 && a + n < PageRoundNext(a)
    ensures a % PAGE_SZ != 0 ==>
      (CanScan(may, open, a, n, insn) <==> Usable(may, open)(PageAlign(a)) && PageAlign(a + PAGE_SZ - 1) in open)
    ensures a % PAGE_SZ == 0 && n + insn <= PAGE_SZ ==>
      (CanScan(may, open, a, n, insn) <==> Usable(may, open)(PageAlign(a)))
  {
    hide PageAlign, PageRoundNext;
    forall x: Word | a <= x < PageRoundNext(a)
      ensures PageAlign(x) == PageAlign(a)
    {
      SamePage(a, x);
    }
    if a % PAGE_SZ != 0 {
      NextOfUnaligned(a);
      forall x: Word | PageRoundNext(a) <= x < a + n + PAGE_SZ
        ensures PageAlign(x) == PageAlign(a + PAGE_SZ - 1)
      {
        SamePage(PageRoundNext(a), x);
        SamePage(PageRoundNext(a), a + PAGE_SZ - 1);
      }
    }
  }

  lemma NextOfUnaligned(a: Word)
    requires a % PAGE_SZ != 0
    ensures a < PageRoundNext(a) < a + PAGE_SZ && PageRoundNext(PageRoundNext(a)) == PageRoundNext(a) + PAGE_SZ
  {
    RoundNextBounds(a);
  }

  lemma UsableGrows(may: Word -> bool, open: set<Word>, open': set<Word>, lo: int, hi: int, lo': int, hi': int)
    requires open <= open' && Granted(Usable(may, open), lo, hi) && lo <= lo' && hi' <= hi
    ensures Granted(Usable(may, open'), lo', hi')
  {
    hide PageAlign;
  }

  /** The rest of a scan, after pages were opened. */
  lemma CanScanRest(may: Word -> bool, open: set<Word>, open': set<Word>, a: Word, n: nat, insn: nat, k: nat)
    requires CanScan(may, open, a, n, insn) && open <= open' && k <= n && a + n < TWO64
    requires !(a % PAGE_SZ == 0 && n + insn <= PAGE_SZ)
    ensures CanScan(may, open', a + k, n - k, insn)
  {
    hide PageAlign;
    UsableGrows(may, open, open', a, a + n, a + k, a + n);
  }

  /** Where every page is open and granted, every block can be scanned and every patch placed or undone. */
  lemma EveryPageServes(may: Word -> bool, open: set<Word>, a: Word, n: nat, insn: nat)
    requires forall x: Word :: may(PageAlign(x)) && PageAlign(x) in open
    ensures CanScan(may, open, a, n, insn) && CanPatch(may, open, a, n)
  {
    hide PageAlign;
  }

  /** A read over several pages that succeeds reports the bytes after the last page boundary, a whole page if it
      ends on one. */
  lemma LastChunkByNumber(may: Word -> bool, open: set<Word>, from: Word, size: nat)
    requires from % 4096 + size > 4096 && from + size <= TWO64 && Granted(Usable(may, open), from, from + size - 1)
    ensures var r := ReadResult(may, open, from, size);
      r.Returned? && 1 <= r.r <= 4096 && r.r <= size && (from + size - r.r) % 4096 == 0
    ensures Moved(may, open, from, size) == size
  {
    hide PageAlign, PageRoundNext, LastChunk;
    RefusalIs(Usable(may, open), from, from + size - 1);
    LastChunkIs(from, size);
  }

  lemma LastChunkIs(from: Word, size: nat)
    requires from % 4096 + size > 4096
    ensures 1 <= LastChunk(from, size) <= 4096 && LastChunk(from, size) <= size
    ensures (from + size - LastChunk(from, size)) % 4096 == 0
  {
    var q, r := (from + size) / 4096, (from + size) % 4096;
    if r != 0 {
      DivModUnique(from + size - r, 4096, q, 0);
    } else {
      DivModUnique(from + size - 4096, 4096, q - 1, 0);
    }
  }

  lemma ReadNothing(may: Word -> bool, open: set<Word>, from: Word)
    ensures ReadResult(may, open, from, 0) == Returned(0) && Moved(may, open, from, 0) == 0
  {
  }

  lemma NotGranted(may: Word -> bool, from: Word, k: nat, size: nat)
    requires k < size && from + size <= TWO64
    ensures !may(PageAlign(from + k)) ==> !Granted(may, from, from + size - 1)
  {
  }

  lemma PageBegins(a: Word)
    ensures PageAlign(a) <= a && (a % PAGE_SZ == 0 ==> PageAlign(a) == a)
  {
  }

  /** A chunk lies in one page. */
  lemma SamePages(a: Word, chunk: nat)
    requires a + chunk <= TWO64 && chunk <= PAGE_SZ - PageOffset(a)
    ensures forall x: Word :: a <= x < a + chunk ==> PageAlign(x) == PageAlign(a)
  {
    hide PageAlign, PageRoundNext;
    ChunkEnd(a);
    forall x: Word | a <= x < a + chunk
      ensures PageAlign(x) == PageAlign(a)
    {
      SamePage(a, x);
    }
  }

  class AddressSpace {
    /** Whether `mprotect` accepts a page; the engine learns it only from the call's result. */
    const mayProtect: Word -> bool
    /** The pages that can be read, and those that can be written. `get_prot` claims that all can, so the code never
        makes a page accessible before it accesses it; but each `mprotect` that is accepted leaves its page both. */
    var readable: set<Word>
    var writable: set<Word>
    var mem: Memory
    /** Pages handed to `mprotect` so far. */
    ghost var reprotected: iset<Word>

    constructor (mem: Memory, mayProtect: Word -> bool, readable: set<Word>, writable: set<Word>)
      ensures this.mem == mem && this.mayProtect == mayProtect && reprotected == iset{}
      ensures this.readable == readable && this.writable == writable
    {
      this.mem := mem;
      this.mayProtect := mayProtect;
      this.readable, this.writable := readable, writable;
      this.reprotected := iset{};
    }

    method IsMapped(addr: Word) returns (b: bool)
      ensures b
    {
      b := true;
    }

    method IsMappedRange(base: Word, range: nat) returns (b: bool, ghost seen: iset<Word>)
      ensures b && seen == CheckedPages(base, range)
    {
      var i := 0;
      ghost var j := 0;
      seen := iset{};
      while i < PageRoundNext(range)
        invariant i == PAGE_SZ * j && j <= range / PAGE_SZ + 1
        invariant seen == iset l: nat | l < j :: Wrap(base + PAGE_SZ * l)
      {
        var ok := IsMapped(Wrap(base + i));
        if !ok { return false, seen; }
        seen := seen + iset{Wrap(base + i)};
        i, j := i + PAGE_SZ, j + 1;
      }
      b := true;
    }

    /** `mprotect` to read, write and execute. */
    method Mprotect(page: Word) returns (ok: bool)
      requires page % PAGE_SZ == 0
      modifies this`reprotected, this`readable, this`writable
      ensures ok == mayProtect(page)
      ensures reprotected == old(reprotected) + iset{page}
      ensures readable == old(readable) + (if ok then {page} else {}) && writable == old(writable) + (if ok then {page} else {})
    {
      reprotected := reprotected + iset{page};
      ok := mayProtect(page);
      if ok {
        readable, writable := readable + {page}, writable + {page};
      }
    }

    /** One chunk of a read: copies, then sets the page's protections back. None is a fault. */
    method RoundRead(to: array<Byte>, from: Word, k: nat, size: nat) returns (r: Option<nat>)
      requires k + size <= to.Length && from + k + size <= TWO64
      requires 0 < size && PageOffset(from + k) + size <= PAGE_SZ
      modifies to, this`reprotected, this`readable, this`writable
      ensures var page := PageAlign(from + k);
        && r == (if page !in old(readable) then None else if mayProtect(page) then Some(size) else Some(0))
        && readable == old(readable) + (if Usable(mayProtect, old(readable))(page) then {page} else {})
        && writable == old(writable) + (if Usable(mayProtect, old(readable))(page) then {page} else {})
      ensures forall i :: 0 <= i < to.Length ==>
        to[i] == if r.Some? && Within(i, k, size) then mem[from + i] else old(to[i])
    {
      var page := PageAlign(from + k);
      if page !in readable { return None; }
      forall i | k <= i < k + size {
        to[i] := mem[from + i];
      }
      var ok := Mprotect(page);
      r := Some(if ok then size else 0);
    }

    /** Reads `size` bytes at `from`. Every page it was granted is left readable and writable. */
    method MemRead(to: array<Byte>, from: Word, size: nat) returns (r: Transfer)
      requires size <= to.Length && from + size <= TWO64
      modifies to, this`reprotected, this`readable, this`writable
      ensures r == ReadResult(mayProtect, old(readable), from, size)
      ensures forall i :: 0 <= i < to.Length ==>
        to[i] == if i < Moved(mayProtect, old(readable), from, size) then mem[from + i] else old(to[i])
      ensures old(readable) <= readable && old(writable) <= writable
      ensures Granted(Usable(mayProtect, old(readable)), from, from + size - 1) ==> AllOpen(writable, from, size)
    {
      hide PageAlign, PageRoundNext, ReadResult, Moved, Refusal, Granted;
      if size == 0 {
        ReadNothing(mayProtect, readable, from);
        return Returned(0);
      }
      var chunk := PAGE_SZ - PageOffset(from);
      if size <= chunk {
        ReadInOnePage(mayProtect, readable, from, size);
        SamePages(from, size);
        NotGranted(Usable(mayProtect, readable), from, 0, size);
        var ret := RoundRead(to, from, 0, size);
        if ret.None? { return Fault; }
        if ret.value == 0 { return Returned(FAILED); }
        return Returned(ret.value);
      }
      r := ReadPages(to, from, size, chunk);
    }

    /** The loop of `mem_read`, for a range of several pages of which the first holds `first` bytes. */
    method ReadPages(to: array<Byte>, from: Word, size: nat, first: nat) returns (r: Transfer)
      requires size <= to.Length && from + size <= TWO64 && first == PAGE_SZ - PageOffset(from) < size
      modifies to, this`reprotected, this`readable, this`writable
      ensures r == ReadResult(mayProtect, old(readable), from, size)
      ensures forall i :: 0 <= i < to.Length ==>
        to[i] == if i < Moved(mayProtect, old(readable), from, size) then mem[from + i] else old(to[i])
      ensures old(readable) <= readable && old(writable) <= writable
      ensures Granted(Usable(mayProtect, old(readable)), from, from + size - 1) ==> AllOpen(writable, from, size)
    {
      hide NextChunk, LastChunk, PageAlign, PageRoundNext, ReadResult, Moved, Refusal, Granted;
      ghost var end := from + size - 1;
      ghost var u := Usable(mayProtect, readable);
      var chunk := first;
      var k, count := 0, 0;
      var ret := Some(0);
      while k != size
        invariant 0 <= k <= size && count == k
        invariant k < size ==> 0 < chunk <= PAGE_SZ - PageOffset(from + k) && k + chunk <= size
        invariant k < size ==> k + chunk == size || (from + k + chunk) % PAGE_SZ == 0
        invariant k == 0 ==> chunk < size
        invariant 0 < k < size && k + chunk == size ==> chunk == LastChunk(from, size)
        invariant ret.Some? && ret.value <= size && (k == size ==> ret.value == LastChunk(from, size))
        invariant Refusal(u, from, end) == Refusal(u, from + k, end)
        invariant old(readable) <= readable && old(writable) <= writable
        invariant k == 0 ==> readable == old(readable)
        invariant 0 < k < size ==> (from + k) % PAGE_SZ == 0
        invariant forall x: Word :: from <= x < from + k ==> PageAlign(x) in writable
        invariant forall x: Word :: x in readable ==> x in old(readable) || x < from + k
        invariant forall i :: 0 <= i < to.Length ==> to[i] == if i < k then mem[from + i] else old(to[i])
        decreases size - k
      {
        RoundNextOfSum(from + k, chunk);
        if !u(PageAlign(from + k)) {
          ReadStops(mayProtect, old(readable), from, size, k, chunk);
          NotGranted(u, from, k, size);
        }
        SamePages(from + k, chunk);
        PageBegins(from + k);
        ret := RoundRead(to, from, k, chunk);
        if ret.None? { return Fault; }
        if ret.value == 0 { return Returned(count); }
        RefusalFrom(u, from + k, from + k + chunk, end);
        count := count + ret.value;
        k := k + chunk;
        chunk := NextChunk(from, k, size);
        if k < size {
          NextChunkFits(from, k, size);
        }
      }
      ReadThrough(mayProtect, old(readable), from, size);
      r := Returned(ret.value);
    }

    /** One chunk of a write: copies, then sets the page's protections back. None is a fault. */
    method RoundWrite(to: Word, from: seq<Byte>, k: nat, chunk: nat) returns (ok: Option<bool>)
      requires k + chunk <= |from| && to + |from| < TWO64
      modifies this
      ensures var page := PageAlign(to + k);
        && ok == (if chunk > 0 && page !in old(writable) then None else Some(mayProtect(page)))
        && mem == (if ok.None? then old(mem) else Store(old(mem), to + k, from[k..k + chunk]))
        && reprotected == old(reprotected) + (if ok.None? then iset{} else iset{page})
        && readable == old(readable) + (if ok == Some(true) then {page} else {})
        && writable == old(writable) + (if ok == Some(true) then {page} else {})
    {
      var page := PageAlign(to + k);
      if chunk > 0 && page !in writable { return None; }
      mem := Store(mem, to + k, from[k..k + chunk]);
      var done := Mprotect(page);
      ok := Some(done);
    }

    /** Writes `from` at `to`. The loop runs one more, zero-length, round once everything is
        written; that round re-protects the page of `to + |from|`. */
    method MemWrite(to: Word, from: seq<Byte>) returns (r: Transfer)
      requires to + |from| < TWO64
      modifies this
      ensures r == WriteResult(mayProtect, old(writable), to, |from|)
      ensures mem == Store(old(mem), to, from[..Moved(mayProtect, old(writable), to, |from|)])
      ensures old(readable) <= readable && old(writable) <= writable
      ensures r == Returned(|from|) ==> mem == Store(old(mem), to, from)
      ensures r == Returned(|from|) ==> writable == old(writable) + {PageAlign(to + |from|)}
      ensures r == Returned(|from|) ==> forall x: Word :: to <= x <= to + |from| ==> PageAlign(x) in readable
      ensures reprotected <= old(reprotected) + CheckedPages(PageAlign(to), |from| + PageOffset(to))
    {
      hide Store, CheckedPages, PageAlign, PageRoundNext, Refusal, Moved, WriteResult;
      var size := |from|;
      var ok, checked := IsMappedRange(PageAlign(to), size + PageOffset(to));
      if !ok { return Returned(FAILED); }
      ghost var u := Usable(mayProtect, writable);
      var k := 0;
      StoreNothing(mem, to, from[..0]);
      while true
        invariant 0 <= k <= size
        invariant mem == Store(old(mem), to, from[..k])
        invariant Refusal(u, to, to + size - 1) == Refusal(u, to + k, to + size - 1)
        invariant old(readable) <= readable && writable == old(writable)
        invariant forall x: Word :: to <= x < to + k ==> PageAlign(x) in readable
        invariant reprotected <= old(reprotected) + checked
        decreases size - k, if k == size then 0 else 1
      {
        var chunk := if PAGE_SZ - PageOffset(to + k) < size - k then PAGE_SZ - PageOffset(to + k) else size - k;
        ChunkEnd(to + k);
        StoreExtends(old(mem), to, from, k, k + chunk);
        PageIsChecked(to, k, size);
        if k == size {
          WriteThrough(mayProtect, old(writable), to, size);
        } else if !u(PageAlign(to + k)) {
          WriteStops(mayProtect, old(writable), to, size, k, chunk);
        }
        SamePages(to + k, chunk);
        var done := RoundWrite(to, from, k, chunk);
        if done.None? { return Fault; }
        if !done.value { return Returned(FAILED); }
        if k == size { break; }
        RefusalFrom(u, to + k, to + k + chunk, to + size - 1);
        k := k + chunk;
      }
      assert from[..size] == from;
      r := Returned(size);
    }

    static lemma StoreNothing(m: Memory, to: Word, none: seq<Byte>)
      requires none == []
      ensures Store(m, to, none) == m
    {
    }

    static lemma StoreExtends(m: Memory, to: Word, from: seq<Byte>, k: nat, k': nat)
      requires k <= k' <= |from| && to + |from| < TWO64
      ensures Store(Store(m, to, from[..k]), to + k, from[k..k']) == Store(m, to, from[..k'])
    {
      hide Store;
      StoreAll(m, to, from[..k]);
      StoreAll(Store(m, to, from[..k]), to + k, from[k..k']);
      StoreAll(m, to, from[..k']);
    }

    static lemma PageIsChecked(to: Word, k: nat, size: nat)
      requires k <= size && to + size < TWO64
      ensures PageAlign(to + k) in CheckedPages(PageAlign(to), size + PageOffset(to))
    {
      var j := (to + k) / PAGE_SZ - to / PAGE_SZ;
      assert to == PAGE_SZ * (to / PAGE_SZ) + to % PAGE_SZ;
      assert Wrap(PageAlign(to) + PAGE_SZ * j) == PageAlign(to + k);
      assert j <= (size + PageOffset(to)) / PAGE_SZ;
    }

    lemma LoadWhole(to: array<Byte>, from: Word, size: nat)
      requires size <= to.Length && from + size <= TWO64
      requires forall i :: 0 <= i < size ==> to[i] == mem[from + i]
      ensures to[..size] == Load(mem, from, size)
    {
      forall i | 0 <= i < size
        ensures to[..size][i] == Load(mem, from, size)[i]
      {
        LoadAt(mem, from, size, i);
      }
    }
  }
}
