/** The plain linear sweep that the chunked scan of analysis.c must agree with: decode one
    instruction after the other, directly from memory, up to the first that is not straight-line. */
module Sweep {
  import opened Words
  import opened Guest

  /** The sweep from `a` meets its first instruction that is not straight-line, or that cannot be
      decoded, exactly `n` bytes on. */
  ghost predicate Stops(p: Platform, m: Memory, a: Word, n: nat)
    requires PrefixDecoder(p.decode)
    decreases n
  {
    match Fetch(p, m, a)
    case None => n == 0
    case Some(i) =>
      if i.kind.Straight? then i.size <= n && Stops(p, m, Wrap(a + i.size), n - i.size) else n == 0
  }

  /** As `Stops`; with `skip` the first instruction is stepped over whatever it is. */
  ghost predicate StopsFrom(p: Platform, m: Memory, a: Word, n: nat, skip: bool)
    requires PrefixDecoder(p.decode)
  {
    match Fetch(p, m, a)
    case Some(i) =>
      if skip then i.size <= n && Stops(p, m, Wrap(a + i.size), n - i.size) else Stops(p, m, a, n)
    case None => n == 0
  }

  lemma {:induction false} StopsOnce(p: Platform, m: Memory, a: Word, n: nat, k: nat)
    requires PrefixDecoder(p.decode) && Stops(p, m, a, n) && Stops(p, m, a, k)
    ensures n == k
    decreases n
  {
    var f := Fetch(p, m, a);
    if f.Some? && f.value.kind.Straight? {
      StopsOnce(p, m, Wrap(a + f.value.size), n - f.value.size, k - f.value.size);
    }
  }

  lemma StopsFromOnce(p: Platform, m: Memory, a: Word, n: nat, k: nat, skip: bool)
    requires PrefixDecoder(p.decode) && StopsFrom(p, m, a, n, skip) && StopsFrom(p, m, a, k, skip)
    ensures n == k
  {
    var f := Fetch(p, m, a);
    if f.Some? {
      if skip {
        StopsOnce(p, m, Wrap(a + f.value.size), n - f.value.size, k - f.value.size);
      } else {
        StopsOnce(p, m, a, n, k);
      }
    }
  }

  lemma StopsIsFrom(p: Platform, m: Memory, a: Word, n: nat)
    requires PrefixDecoder(p.decode)
    ensures StopsFrom(p, m, a, n, false) == Stops(p, m, a, n)
  {
  }

  /** `os` are the offsets at which straight-line instructions follow each other, from 0 to the last of them, where
      something else is. */
  ghost predicate Path(p: Platform, m: Memory, a: Word, os: seq<nat>) {
    && Hops(p, m, a, os)
    && (Fetch(p, m, Wrap(a + os[|os| - 1])).Some? ==> !Fetch(p, m, Wrap(a + os[|os| - 1])).value.kind.Straight?)
  }

  ghost predicate Hops(p: Platform, m: Memory, a: Word, os: seq<nat>) {
    |os| > 0 && os[0] == 0 && forall j :: 0 <= j < |os| - 1 ==> Hop(p, m, a, os, j)
  }

  /** From the `j`-th offset one straight-line instruction leads to the next. */
  predicate Hop(p: Platform, m: Memory, a: Word, os: seq<nat>, j: nat)
    requires j + 1 < |os|
  {
    StraightAt(p, m, Wrap(a + os[j]), os[j + 1] as int - os[j])
  }

  /** A straight-line instruction of `n` bytes is at `a`. */
  predicate StraightAt(p: Platform, m: Memory, a: Word, n: int) {
    Fetch(p, m, a).Some? && Fetch(p, m, a).value.kind.Straight? && Fetch(p, m, a).value.size == n
  }

  /** The sweep stops `n` bytes on exactly when straight-line instructions, one after the other, lead there and to
      something that is none. */
  lemma StopsIffPath(p: Platform, m: Memory, a: Word, n: nat)
    requires PrefixDecoder(p.decode)
    ensures Stops(p, m, a, n) <==> exists os :: Path(p, m, a, os) && os[|os| - 1] == n
  {
    hide Stops, Fetch, StraightAt;
    if Stops(p, m, a, n) {
      assert Wrap(a + 0) == a;
      var os := PathOf(p, m, a, n, [0]);
    }
    if os :| Path(p, m, a, os) && os[|os| - 1] == n {
      PathStops(p, m, a, os, 0);
      assert Wrap(a + 0) == a;
    }
  }

  /** Straight-line instructions that lead part of the way lead on to where the sweep stops. */
  lemma {:induction false} PathOf(p: Platform, m: Memory, a: Word, n: nat, so: seq<nat>) returns (os: seq<nat>)
    requires PrefixDecoder(p.decode) && |so| > 0 && Hops(p, m, a, so) && so[|so| - 1] <= n
    requires Stops(p, m, Wrap(a + so[|so| - 1]), n - so[|so| - 1])
    ensures Path(p, m, a, os) && os[|os| - 1] == n
    decreases n - so[|so| - 1]
  {
    hide Load, Hops, Fetch;
    var o := so[|so| - 1];
    var f := Fetch(p, m, Wrap(a + o));
    if f.Some? && f.value.kind.Straight? {
      assert f.value.size >= 1 by { FetchedSize(p, m, Wrap(a + o)); }
      HopOn(p, m, a, so, f.value.size);
      WrapAdd(a + o, f.value.size);
      os := PathOf(p, m, a, n, so + [o + f.value.size]);
    } else {
      os := so;
    }
  }

  lemma FetchedSize(p: Platform, m: Memory, a: Word)
    requires PrefixDecoder(p.decode) && Fetch(p, m, a).Some?
    ensures 1 <= Fetch(p, m, a).value.size <= MAX_INSN
  {
  }

  lemma HopOn(p: Platform, m: Memory, a: Word, so: seq<nat>, k: nat)
    requires Hops(p, m, a, so) && StraightAt(p, m, Wrap(a + so[|so| - 1]), k)
    ensures Hops(p, m, a, so + [so[|so| - 1] + k])
  {
    hide StraightAt, Wrap;
    var os := so + [so[|so| - 1] + k];
    forall j | 0 <= j < |os| - 1
      ensures Hop(p, m, a, os, j)
    {
      if j < |so| - 1 {
        assert Hop(p, m, a, so, j);
      }
    }
  }

  lemma {:induction false} PathStops(p: Platform, m: Memory, a: Word, os: seq<nat>, j: nat)
    requires PrefixDecoder(p.decode) && Path(p, m, a, os) && j < |os|
    ensures os[j] <= os[|os| - 1] && Stops(p, m, Wrap(a + os[j]), os[|os| - 1] - os[j])
    decreases |os| - j
  {
    hide Load;
    if j + 1 < |os| {
      assert Hop(p, m, a, os, j);
      PathStops(p, m, a, os, j + 1);
      WrapAdd(a + os[j], os[j + 1] as int - os[j]);
    }
  }

  /** Distance to the branch that ends the block at `a`; None if the sweep finds none. */
  ghost function BranchOffset(p: Platform, m: Memory, a: Word, skip: bool): Option<nat>
    requires PrefixDecoder(p.decode)
  {
    if exists n: nat :: StopsFrom(p, m, a, n, skip) && Fetch(p, m, Wrap(a + n)).Some? then
      var n: nat :| StopsFrom(p, m, a, n, skip) && Fetch(p, m, Wrap(a + n)).Some?;
      Some(n)
    else None
  }

  lemma BranchOffsetStops(p: Platform, m: Memory, a: Word, skip: bool)
    requires PrefixDecoder(p.decode) && BranchOffset(p, m, a, skip).Some?
    ensures StopsFrom(p, m, a, BranchOffset(p, m, a, skip).value, skip)
    ensures Fetch(p, m, Wrap(a + BranchOffset(p, m, a, skip).value)).Some?
  {
  }

  lemma BranchOffsetIs(p: Platform, m: Memory, a: Word, skip: bool, n: nat)
    requires PrefixDecoder(p.decode) && StopsFrom(p, m, a, n, skip)
    ensures BranchOffset(p, m, a, skip) == if Fetch(p, m, Wrap(a + n)).Some? then Some(n) else None
  {
    forall k: nat | StopsFrom(p, m, a, k, skip)
      ensures k == n
    {
      StopsFromOnce(p, m, a, n, k, skip);
    }
  }

  /** Decoding inside a buffer that holds the bytes at `a` finds what decoding from memory finds,
      unless the buffer's end cuts the instruction off. */
  lemma DecodeInBuffer(p: Platform, m: Memory, a: Word, buffer: seq<Byte>, n: nat)
    requires PrefixDecoder(p.decode) && n <= |buffer| && buffer == Load(m, a, |buffer|) && a + |buffer| <= TWO64
    ensures p.decode(buffer[n..]).Some? ==> p.decode(buffer[n..]) == Fetch(p, m, Wrap(a + n))
    ensures n + MAX_INSN <= |buffer| ==> p.decode(buffer[n..]) == Fetch(p, m, Wrap(a + n))
  {
    var inside, direct := buffer[n..], Load(m, Wrap(a + n), INSN_BUFFER);
    forall j: nat | j < |inside| && j < INSN_BUFFER
      ensures inside[j] == direct[j]
    {
      LoadAt(m, a, |buffer|, n + j);
      assert Wrap(a + n) == a + n;
      assert direct[j] == m[Wrap(a + n + j)];
    }
    var k := if |inside| <= INSN_BUFFER then |inside| else INSN_BUFFER;
    assert SamePrefix(inside, direct, k);
    assert SamePrefix(direct, inside, k);
  }

  /** `k` bytes into a sweep that stops after `n`. */
  ghost predicate Sweeping(p: Platform, m: Memory, a: Word, k: nat, n: nat, skip: bool)
    requires PrefixDecoder(p.decode)
  {
    k <= n && if k == 0 then StopsFrom(p, m, a, n, skip) else Stops(p, m, Wrap(a + k), n - k)
  }

  /** One instruction of the sweep: a branch that is not skipped is where it stops, anything else is
      stepped over. */
  lemma SweepInsn(p: Platform, m: Memory, a: Word, k: nat, n: nat, skip: bool)
    requires PrefixDecoder(p.decode) && CoherentDecoder(p.decode) && Sweeping(p, m, a, k, n, skip)
    requires a + n < TWO64
    ensures match Fetch(p, m, Wrap(a + k))
            case None => n == k
            case Some(i) =>
              if HasCflow(i.groups) && !(k == 0 && skip) then n == k
              else i.size >= 1 && Sweeping(p, m, a, k + i.size, n, skip)
  {
    var f := Fetch(p, m, Wrap(a + k));
    if f.Some? {
      assert Coherent(f.value);
      assert Wrap(Wrap(a + k) + f.value.size) == Wrap(a + (k + f.value.size)) by {
        WrapAdd(a + k, f.value.size);
      }
    }
  }
}
