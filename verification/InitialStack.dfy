/** core_mapper.c and elf_parsing.c: the guest's initial stack, word by word. */
module InitialStack {
  import opened Words

  // ----- the auxiliary vector on values -----

  datatype Pair = Pair(id: Word, val: Word)

  function Flat(ps: seq<Pair>): (ws: seq<Word>)
    ensures |ws| == 2 * |ps|
  {
    if ps == [] then [] else [ps[0].id, ps[0].val] + Flat(ps[1..])
  }

  function Zeros(k: nat): (ws: seq<Word>)
    ensures |ws| == k && forall i :: 0 <= i < k ==> ws[i] == 0
  {
    seq(k, _ => 0)
  }

  /** Somewhere two zero words follow each other. */
  predicate HasGap(ws: seq<Word>) {
    |ws| >= 2 && ((ws[0] == 0 && ws[1] == 0) || HasGap(ws[1..]))
  }

  /** Where the scan of `add_auxvt` ends: it advances one word, not one pair, at a time. */
  function FirstGap(ws: seq<Word>): (g: nat)
    requires HasGap(ws)
    ensures g + 1 < |ws| && ws[g] == 0 && ws[g + 1] == 0
    ensures forall i :: 0 <= i < g ==> ws[i] != 0 || ws[i + 1] != 0
  {
    if ws[0] == 0 && ws[1] == 0 then 0 else 1 + FirstGap(ws[1..])
  }

  lemma {:induction false} GapIs(ws: seq<Word>, g: nat)
    requires g + 1 < |ws| && ws[g] == 0 && ws[g + 1] == 0
    requires forall i :: 0 <= i < g ==> ws[i] != 0 || ws[i + 1] != 0
    ensures HasGap(ws) && FirstGap(ws) == g
    decreases |ws|
  {
    if g > 0 {
      assert ws[0] != 0 || ws[1] != 0;
      assert ws[1..][g - 1] == ws[g] && ws[1..][g] == ws[g + 1];
      forall i | 0 <= i < g - 1
        ensures ws[1..][i] != 0 || ws[1..][i + 1] != 0
      {
        assert ws[i + 1] != 0 || ws[i + 1 + 1] != 0;
      }
      GapIs(ws[1..], g - 1);
    }
  }

  function Add(ws: seq<Word>, id: Word, val: Word): seq<Word>
    requires HasGap(ws)
  {
    ws[FirstGap(ws) := id][FirstGap(ws) + 1 := val]
  }

  predicate NonzeroIds(ps: seq<Pair>) {
    forall i :: 0 <= i < |ps| ==> ps[i].id != 0
  }

  predicate EndsNonzero(ps: seq<Pair>) {
    ps == [] || ps[|ps| - 1].val != 0
  }

  lemma {:induction false} FlatAt(ps: seq<Pair>, i: nat)
    requires i < |ps|
    ensures Flat(ps)[2 * i] == ps[i].id && Flat(ps)[2 * i + 1] == ps[i].val
  {
    if i > 0 {
      FlatAt(ps[1..], i - 1);
    }
  }

  lemma {:induction false} FlatAppend(ps: seq<Pair>, p: Pair)
    ensures Flat(ps + [p]) == Flat(ps) + [p.id, p.val]
  {
    if ps == [] {
      assert ps + [p] == [p];
    } else {
      FlatAppend(ps[1..], p);
      assert (ps + [p])[1..] == ps[1..] + [p];
    }
  }

  function GapIndex(ps: seq<Pair>): int {
    if EndsNonzero(ps) then 2 * |ps| else 2 * |ps| - 1
  }

  lemma NoGapInside(ps: seq<Pair>, ws: seq<Word>, j: nat)
    requires NonzeroIds(ps) && j < |ps| && Flat(ps) <= ws
    ensures ws[2 * j] != 0
    ensures 2 * j + 1 < GapIndex(ps) ==> 2 * j + 2 < |ws| ==> ws[2 * j + 1] != 0 || ws[2 * j + 2] != 0
  {
    hide Flat;
    FlatAt(ps, j);
    if j + 1 < |ps| {
      FlatAt(ps, j + 1);
    }
  }

  /** The scan ends after the last pair, or inside it if its value is zero. */
  lemma GapAfterPairs(ps: seq<Pair>, k: nat)
    requires NonzeroIds(ps) && k >= 2
    ensures HasGap(Flat(ps) + Zeros(k)) && FirstGap(Flat(ps) + Zeros(k)) == GapIndex(ps)
  {
    hide Flat, HasGap, FirstGap;
    var ws := Flat(ps) + Zeros(k);
    if ps != [] {
      FlatAt(ps, |ps| - 1);
    }
    forall i | 0 <= i < GapIndex(ps)
      ensures ws[i] != 0 || ws[i + 1] != 0
    {
      NoGapInside(ps, ws, i / 2);
      assert i == 2 * (i / 2) || i == 2 * (i / 2) + 1;
    }
    GapIs(ws, GapIndex(ps));
  }

  /** Over a well-formed vector followed by zeros, `add_auxvt` appends its pair exactly when the last
      value is not zero, or the pair is the all-zero terminator. */
  lemma AddAppendsIff(ps: seq<Pair>, k: nat, p: Pair)
    requires NonzeroIds(ps) && k >= 2
    ensures HasGap(Flat(ps) + Zeros(k))
    ensures Add(Flat(ps) + Zeros(k), p.id, p.val) == Flat(ps + [p]) + Zeros(k - 2)
            <==> EndsNonzero(ps) || (p.id == 0 && p.val == 0)
  {
    GapAfterPairs(ps, k);
    FlatAppend(ps, p);
    var ws, n := Flat(ps) + Zeros(k), 2 * |ps|;
    var want := Flat(ps + [p]) + Zeros(k - 2);
    if EndsNonzero(ps) {
      assert Add(ws, p.id, p.val) == want;
    } else {
      FlatAt(ps, |ps| - 1);
      assert want[n - 1] == 0 && want[n] == p.id && want[n + 1] == p.val;
      assert Add(ws, p.id, p.val)[n - 1] == p.id && Add(ws, p.id, p.val)[n] == p.val && Add(ws, p.id, p.val)[n + 1] == 0;
      if p.id == 0 && p.val == 0 {
        assert Add(ws, p.id, p.val) == want;
      }
    }
  }

  /** After a pair with value zero the next pair of value zero lands one word early: its id becomes that value. */
  lemma AddAfterZero(ps: seq<Pair>, k: nat, id: Word, next: Word)
    requires NonzeroIds(ps) && id != 0 && k >= 2
    ensures HasGap(Flat(ps + [Pair(id, 0)]) + Zeros(k))
    ensures Add(Flat(ps + [Pair(id, 0)]) + Zeros(k), next, 0) == Flat(ps + [Pair(id, next)]) + Zeros(k)
  {
    GapAfterPairs(ps + [Pair(id, 0)], k);
    FlatAppend(ps, Pair(id, 0));
    FlatAppend(ps, Pair(id, next));
    assert GapIndex(ps + [Pair(id, 0)]) == 2 * |ps| + 1;
    hide FirstGap, HasGap, Flat;
  }

  // ----- the stack in place -----

  /** `map_val`: copies words up to, and without, the terminating zero. */
  method MapVal(arg: seq<Word>, from: nat, stack: array<Word>, to: nat, ghost n: nat)
    requires from + n < |arg| && arg[from + n] == 0 && to + n <= stack.Length
    requires forall i :: from <= i < from + n ==> arg[i] != 0
    modifies stack
    ensures forall i :: 0 <= i < stack.Length ==>
      stack[i] == if to <= i < to + n then arg[from + i - to] else old(stack[i])
  {
    var i := 0;
    while arg[from + i] != 0
      invariant 0 <= i <= n
      invariant forall j :: 0 <= j < stack.Length ==>
        stack[j] == if to <= j < to + i then arg[from + j - to] else old(stack[j])
      decreases n - i
    {
      stack[to + i] := arg[from + i];
      i := i + 1;
    }
  }

  /** The `for ( ; iter[idx]; idx++)` that follows each copy. */
  method SkipToZero(arg: seq<Word>, from: nat, ghost n: nat) returns (idx: nat)
    requires from + n < |arg| && arg[from + n] == 0 && forall i :: from <= i < from + n ==> arg[i] != 0
    ensures idx == from + n
  {
    idx := from;
    while arg[idx] != 0
      invariant from <= idx <= from + n
      decreases from + n - idx
    {
      idx := idx + 1;
    }
  }

  /** `add_auxvt` on the words from `base` on. */
  method AddAuxvt(id: Word, stack: array<Word>, base: nat, val: Word)
    requires base <= stack.Length && HasGap(stack[base..])
    modifies stack
    ensures stack[..base] == old(stack[..base])
    ensures stack[base..] == Add(old(stack[base..]), id, val)
  {
    ghost var ws := stack[base..];
    ghost var g := FirstGap(ws);
    var i := 0;
    while stack[base + i] != 0 || stack[base + i + 1] != 0
      invariant 0 <= i <= g
      decreases g - i
    {
      assert ws[g] == stack[base + g] && ws[g + 1] == stack[base + g + 1];
      i := i + 1;
    }
    stack[base + i] := id;
    stack[base + i + 1] := val;
  }

  /** From `base` on the stack holds the pairs `ps` and then zeros. */
  ghost predicate Holds(stack: array<Word>, base: nat, ps: seq<Pair>)
    reads stack
  {
    base + 2 * |ps| <= stack.Length && stack[base..] == Flat(ps) + Zeros(stack.Length - base - 2 * |ps|)
  }

  method Append(id: Word, stack: array<Word>, base: nat, val: Word, ghost ps: seq<Pair>)
    requires Holds(stack, base, ps) && NonzeroIds(ps) && base + 2 * |ps| + 2 <= stack.Length
    requires EndsNonzero(ps) || (id == 0 && val == 0)
    modifies stack
    ensures stack[..base] == old(stack[..base]) && Holds(stack, base, ps + [Pair(id, val)])
  {
    hide Flat, Add, HasGap;
    AddAppendsIff(ps, stack.Length - base - 2 * |ps|, Pair(id, val));
    AddAuxvt(id, stack, base, val);
  }

  /** What the loader knows about the binary it maps. */
  datatype AuxInfo = AuxInfo(entry: Word, fd: Word, phent: Word, phnum: Word, base: Word,
                             random: Word, phdr: Word, platform: Word)

  const AT_ENTRY: Word := 9
  const AT_EXECFD: Word := 2
  const AT_PHENT: Word := 4
  const AT_PHNUM: Word := 5
  const AT_BASE: Word := 7
  const AT_RANDOM: Word := 25
  const AT_PHDR: Word := 3
  const AT_PLATFORM: Word := 15
  const AT_EGID: Word := 14
  const AT_EUID: Word := 12
  const AT_GID: Word := 13
  const AT_UID: Word := 11
  const AT_PAGESZ: Word := 6
  const AT_EXECFN: Word := 31
  const AT_SECURE: Word := 23
  const AT_NULL: Word := 0

  function AuxFirst(a: AuxInfo): seq<Pair> {
    [Pair(AT_ENTRY, a.entry), Pair(AT_EXECFD, a.fd), Pair(AT_PHENT, a.phent), Pair(AT_PHNUM, a.phnum),
     Pair(AT_BASE, a.base), Pair(AT_RANDOM, a.random), Pair(AT_PHDR, a.phdr)]
  }

  function AuxSecond(a: AuxInfo): seq<Pair> {
    [Pair(AT_PLATFORM, a.platform), Pair(AT_EGID, 1000), Pair(AT_EUID, 1000), Pair(AT_GID, 1000),
     Pair(AT_UID, 1000), Pair(AT_PAGESZ, 0x1000)]
  }

  /** The vector in the order the pairs are added; it ends in AT_SECURE and the terminator. Without a file name the
      value of AT_EXECFN is zero, so AT_SECURE lands on it and is missing from the vector. */
  function AuxPairs(a: AuxInfo, execfn: Word): seq<Pair> {
    AuxFirst(a) + AuxSecond(a)
    + if execfn != 0 then [Pair(AT_EXECFN, execfn), Pair(AT_SECURE, 0), Pair(AT_NULL, 0)]
      else [Pair(AT_EXECFN, AT_SECURE), Pair(AT_NULL, 0)]
  }

  predicate NoZero(a: AuxInfo) {
    && a.entry != 0 && a.fd != 0 && a.phent != 0 && a.phnum != 0 && a.base != 0
    && a.random != 0 && a.phdr != 0 && a.platform != 0
  }

  method FillFirst(a: AuxInfo, stack: array<Word>, base: nat)
    requires NoZero(a) && Holds(stack, base, []) && base + 14 <= stack.Length
    modifies stack
    ensures stack[..base] == old(stack[..base]) && Holds(stack, base, AuxFirst(a))
  {
    hide Holds;
    ghost var ps := AuxFirst(a);
    Append(AT_ENTRY, stack, base, a.entry, ps[..0]);
    assert ps[..0] + [ps[0]] == ps[..1];
    Append(AT_EXECFD, stack, base, a.fd, ps[..1]);
    assert ps[..1] + [ps[1]] == ps[..2];
    Append(AT_PHENT, stack, base, a.phent, ps[..2]);
    assert ps[..2] + [ps[2]] == ps[..3];
    Append(AT_PHNUM, stack, base, a.phnum, ps[..3]);
    assert ps[..3] + [ps[3]] == ps[..4];
    Append(AT_BASE, stack, base, a.base, ps[..4]);
    assert ps[..4] + [ps[4]] == ps[..5];
    Append(AT_RANDOM, stack, base, a.random, ps[..5]);
    assert ps[..5] + [ps[5]] == ps[..6];
    Append(AT_PHDR, stack, base, a.phdr, ps[..6]);
    assert ps[..6] + [ps[6]] == ps[..7];
    assert ps[..7] == ps;
  }

  method FillSecond(a: AuxInfo, stack: array<Word>, base: nat)
    requires NoZero(a) && Holds(stack, base, AuxFirst(a)) && base + 26 <= stack.Length
    modifies stack
    ensures stack[..base] == old(stack[..base]) && Holds(stack, base, AuxFirst(a) + AuxSecond(a))
  {
    hide Holds;
    ghost var ps := AuxFirst(a) + AuxSecond(a);
    assert ps[..7] == AuxFirst(a);
    Append(AT_PLATFORM, stack, base, a.platform, ps[..7]);
    assert ps[..7] + [ps[7]] == ps[..8];
    Append(AT_EGID, stack, base, 1000, ps[..8]);
    assert ps[..8] + [ps[8]] == ps[..9];
    Append(AT_EUID, stack, base, 1000, ps[..9]);
    assert ps[..9] + [ps[9]] == ps[..10];
    Append(AT_GID, stack, base, 1000, ps[..10]);
    assert ps[..10] + [ps[10]] == ps[..11];
    Append(AT_UID, stack, base, 1000, ps[..11]);
    assert ps[..11] + [ps[11]] == ps[..12];
    Append(AT_PAGESZ, stack, base, 0x1000, ps[..12]);
    assert ps[..12] + [ps[12]] == ps[..13];
    assert ps[..13] == ps;
  }

  method FillAuxv(a: AuxInfo, execfn: Word, stack: array<Word>, base: nat)
    requires NoZero(a) && Holds(stack, base, []) && base + 32 <= stack.Length
    modifies stack
    ensures stack[..base] == old(stack[..base]) && Holds(stack, base, AuxPairs(a, execfn))
  {
    hide Holds;
    FillFirst(a, stack, base);
    FillSecond(a, stack, base);
    ghost var ps := AuxFirst(a) + AuxSecond(a);
    Append(AT_EXECFN, stack, base, execfn, ps);
    ghost var named := ps + [Pair(AT_EXECFN, execfn)];
    if execfn != 0 {
      Append(AT_SECURE, stack, base, 0, named);
      Append(AT_NULL, stack, base, 0, named + [Pair(AT_SECURE, 0)]);
      assert named + [Pair(AT_SECURE, 0)] + [Pair(AT_NULL, 0)] == AuxPairs(a, execfn);
    } else {
      Misplace(stack, base, ps);
      Append(AT_NULL, stack, base, 0, ps + [Pair(AT_EXECFN, AT_SECURE)]);
      assert ps + [Pair(AT_EXECFN, AT_SECURE)] + [Pair(AT_NULL, 0)] == AuxPairs(a, execfn);
    }
  }

  /** Adding AT_SECURE behind an AT_EXECFN of value zero. */
  method Misplace(stack: array<Word>, base: nat, ghost ps: seq<Pair>)
    requires Holds(stack, base, ps + [Pair(AT_EXECFN, 0)]) && NonzeroIds(ps) && base + 2 * |ps| + 4 <= stack.Length
    modifies stack
    ensures stack[..base] == old(stack[..base]) && Holds(stack, base, ps + [Pair(AT_EXECFN, AT_SECURE)])
  {
    hide Flat, Add, HasGap;
    AddAfterZero(ps, stack.Length - base - 2 * |ps| - 2, AT_EXECFN, AT_SECURE);
    AddAuxvt(AT_SECURE, stack, base, 0);
  }

  /** The words that a new process finds on its stack (section 3.4.1 of the System V AMD64 psABI). */
  function ProcessStack(argv: seq<Word>, envp: seq<Word>, aux: seq<Pair>): seq<Word>
    requires |argv| < TWO64
  {
    [|argv|] + argv + [0] + envp + [0] + Flat(aux)
  }

  predicate NoNull(ws: seq<Word>) {
    forall i :: 0 <= i < |ws| ==> ws[i] != 0
  }

  /** The part of `setup_stack` before the auxiliary vector. */
  method CopyArguments(iter: seq<Word>, argc: nat, stack: array<Word>, ghost argv: seq<Word>, ghost envp: seq<Word>)
    returns (idx: nat)
    requires argc == |argv| && 0 < argc < TWO64 && NoNull(argv) && NoNull(envp)
    requires argv + [0] + envp + [0] <= iter
    requires argc + |envp| + 2 <= stack.Length && stack[..] == Zeros(stack.Length)
    modifies stack
    ensures idx == argc + |envp| + 2 && stack[..idx] == [argc - 1] + argv[1..] + [0] + envp + [0]
    ensures stack[idx..] == Zeros(stack.Length - idx)
  {
    ghost var n, e := |argv|, |envp|;
    ghost var head := [argc - 1] + argv[1..] + [0] + envp + [0];
    ArgumentBlock(iter, argv, envp);
    stack[0] := argc - 1;
    MapVal(iter, 1, stack, 1, n - 1);
    idx := SkipToZero(iter, 1, n - 1);
    idx := idx + 1;
    MapVal(iter, idx, stack, idx, e);
    idx := SkipToZero(iter, idx, e);
    idx := idx + 1;
    forall i | 0 <= i < idx
      ensures stack[i] == head[i]
    {
      if 1 <= i < n {
        assert head[i] == argv[i];
      } else if n < i <= n + e {
        assert head[i] == envp[i - n - 1];
      }
    }
  }

  lemma ArgumentBlock(iter: seq<Word>, argv: seq<Word>, envp: seq<Word>)
    requires argv + [0] + envp + [0] <= iter
    ensures forall i :: 0 <= i < |argv| ==> iter[i] == argv[i]
    ensures forall i :: |argv| < i <= |argv| + |envp| ==> iter[i] == envp[i - |argv| - 1]
    ensures iter[|argv|] == 0 && iter[|argv| + 1 + |envp|] == 0
  {
    var b := argv + [0] + envp + [0];
    forall i | 0 <= i < |b|
      ensures iter[i] == b[i]
    {
    }
  }

  /** `setup_stack`: `iter` is the engine's own argument block, argv[0] of which is the engine itself; a
      zeroed stack becomes the initial stack of the guest, whose arguments, and whose file name, start at
      argv[1]. */
  method SetupStack(iter: seq<Word>, argc: nat, a: AuxInfo, stack: array<Word>,
                    ghost argv: seq<Word>, ghost envp: seq<Word>)
    requires argc == |argv| && 0 < argc < TWO64 && NoNull(argv) && NoNull(envp)
    requires argv + [0] + envp + [0] <= iter
    requires NoZero(a) && argc + |envp| + 34 <= stack.Length && stack[..] == Zeros(stack.Length)
    modifies stack
    ensures ProcessStack(argv[1..], envp, AuxPairs(a, iter[1])) <= stack[..]
    ensures iter[1] == if argc == 1 then 0 else argv[1]
  {
    hide Flat;
    var idx := CopyArguments(iter, argc, stack, argv, envp);
    ghost var head := stack[..idx];
    assert Flat([]) + Zeros(stack.Length - idx) == Zeros(stack.Length - idx);
    FillAuxv(a, iter[1], stack, idx);
    assert stack[..] == head + stack[idx..];
  }

  // ----- what the guest finds there -----

  /** The words of the argument block, by their places. */
  lemma ArgumentsByPlace(ws: seq<Word>, argv: seq<Word>, envp: seq<Word>, aux: seq<Pair>)
    requires |argv| < TWO64 && ProcessStack(argv, envp, aux) <= ws
    ensures |ws| >= |argv| + |envp| + 3 + 2 * |aux| && ws[0] == |argv|
    ensures forall k :: 0 <= k < |argv| ==> ws[1 + k] == argv[k]
    ensures ws[1 + |argv|] == 0
    ensures forall k :: 0 <= k < |envp| ==> ws[2 + |argv| + k] == envp[k]
    ensures ws[2 + |argv| + |envp|] == 0
    ensures forall k :: 0 <= k < |aux| ==>
      ws[3 + |argv| + |envp| + 2 * k] == aux[k].id && ws[4 + |argv| + |envp| + 2 * k] == aux[k].val
  {
    hide Flat;
    var stack, head := ProcessStack(argv, envp, aux), [|argv|] + argv + [0] + envp + [0];
    assert stack == head + Flat(aux) && |head| == 3 + |argv| + |envp|;
    assert ws[..|stack|] == stack;
    assert forall k :: 0 <= k < |head| ==> ws[k] == head[k];
    forall k | 0 <= k < |aux|
      ensures ws[3 + |argv| + |envp| + 2 * k] == aux[k].id && ws[4 + |argv| + |envp| + 2 * k] == aux[k].val
    {
      FlatAt(aux, k);
      assert stack[|head| + 2 * k] == Flat(aux)[2 * k] && stack[|head| + (2 * k + 1)] == Flat(aux)[2 * k + 1];
    }
  }

  /** The value that goes with an id: that of its first pair. */
  function Lookup(ps: seq<Pair>, id: Word): Option<Word> {
    if ps == [] then None else if ps[0].id == id then Some(ps[0].val) else Lookup(ps[1..], id)
  }

  lemma {:induction false} LookupIs(ps: seq<Pair>, k: nat)
    requires k < |ps| && forall j :: 0 <= j < k ==> ps[j].id != ps[k].id
    ensures Lookup(ps, ps[k].id) == Some(ps[k].val)
  {
    if k > 0 {
      LookupIs(ps[1..], k - 1);
    }
  }

  /** Which id has which value, by the numbers of the ids. */
  lemma AuxByNumber(a: AuxInfo, execfn: Word)
    ensures Lookup(AuxPairs(a, execfn), 9) == Some(a.entry) && Lookup(AuxPairs(a, execfn), 2) == Some(a.fd)
    ensures Lookup(AuxPairs(a, execfn), 4) == Some(a.phent) && Lookup(AuxPairs(a, execfn), 5) == Some(a.phnum)
    ensures Lookup(AuxPairs(a, execfn), 7) == Some(a.base) && Lookup(AuxPairs(a, execfn), 25) == Some(a.random)
    ensures Lookup(AuxPairs(a, execfn), 3) == Some(a.phdr) && Lookup(AuxPairs(a, execfn), 15) == Some(a.platform)
    ensures Lookup(AuxPairs(a, execfn), 14) == Some(1000) && Lookup(AuxPairs(a, execfn), 12) == Some(1000)
    ensures Lookup(AuxPairs(a, execfn), 13) == Some(1000) && Lookup(AuxPairs(a, execfn), 11) == Some(1000)
    ensures Lookup(AuxPairs(a, execfn), 6) == Some(4096)
    ensures execfn != 0 ==> Lookup(AuxPairs(a, execfn), 31) == Some(execfn) && Lookup(AuxPairs(a, execfn), 23) == Some(0)
    ensures execfn == 0 ==> Lookup(AuxPairs(a, execfn), 31) == Some(23) && Lookup(AuxPairs(a, execfn), 23) == None
    ensures |AuxPairs(a, execfn)| == (if execfn != 0 then 16 else 15)
    ensures AuxPairs(a, execfn)[|AuxPairs(a, execfn)| - 1] == Pair(0, 0)
  {
    var ps := AuxPairs(a, execfn);
    AuxPlaces(a, execfn);
    hide Lookup, AuxPairs;
    LookupIs(ps, 0);
    LookupIs(ps, 1);
    LookupIs(ps, 2);
    LookupIs(ps, 3);
    LookupIs(ps, 4);
    LookupIs(ps, 5);
    LookupIs(ps, 6);
    LookupIs(ps, 7);
    LookupIs(ps, 8);
    LookupIs(ps, 9);
    LookupIs(ps, 10);
    LookupIs(ps, 11);
    LookupIs(ps, 12);
    LookupIs(ps, 13);
    if execfn != 0 {
      LookupIs(ps, 14);
    } else {
      LookupNone(ps, 23);
    }
  }

  lemma AuxPlaces(a: AuxInfo, execfn: Word)
    ensures var ps := AuxPairs(a, execfn);
      && |ps| == (if execfn != 0 then 16 else 15) && ps[|ps| - 1] == Pair(0, 0)
      && ps[0] == Pair(9, a.entry) && ps[1] == Pair(2, a.fd) && ps[2] == Pair(4, a.phent) && ps[3] == Pair(5, a.phnum)
      && ps[4] == Pair(7, a.base) && ps[5] == Pair(25, a.random) && ps[6] == Pair(3, a.phdr) && ps[7] == Pair(15, a.platform)
      && ps[8] == Pair(14, 1000) && ps[9] == Pair(12, 1000) && ps[10] == Pair(13, 1000) && ps[11] == Pair(11, 1000)
      && ps[12] == Pair(6, 4096) && ps[13] == Pair(31, if execfn != 0 then execfn else 23)
      && (execfn != 0 ==> ps[14] == Pair(23, 0))
  {
  }

  lemma {:induction false} LookupNone(ps: seq<Pair>, id: Word)
    requires forall j :: 0 <= j < |ps| ==> ps[j].id != id
    ensures Lookup(ps, id) == None
  {
    if ps != [] {
      LookupNone(ps[1..], id);
    }
  }
}
