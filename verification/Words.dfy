/** 64-bit words, the flat byte-addressed memory and the page macros.
    The C masks are written with the division and remainder they stand for:
    `x & 0xfff` is `x % 4096` and `x & ~0xfff` is `x - x % 4096`. */
module Words {

  const TWO64: int := 0x1_0000_0000_0000_0000
  const PAGE_SZ: int := 0x1000

  type Word = x: int | 0 <= x < TWO64
  type Byte = x: int | 0 <= x < 256

  /** Every address holds a byte: `is_mapped` answers true for all of them. */
  type Memory = m: seq<Byte> | |m| == TWO64 ghost witness seq(TWO64, _ => 0)

  datatype Option<+T> = None | Some(value: T)

  /** The value of `x` in unsigned 64-bit arithmetic. */
  function Wrap(x: int): Word {
    x % TWO64
  }

  lemma DivModUnique(x: int, d: int, q: int, r: int)
    requires 0 <= r < d && x == d * q + r
    ensures x / d == q && x % d == r
  {
    var k := x / d - q;
    assert d * k == r - x % d;
    MultipleIsFar(d, k);
  }

  lemma MultipleIsFar(d: int, k: int)
    requires d > 0
    ensures k >= 1 ==> d * k >= d
    ensures k <= -1 ==> d * k <= -d
  {
    if k >= 1 {
      assert d * (k - 1) >= 0;
    } else if k <= -1 {
      assert d * (-k - 1) >= 0;
    }
  }

  /** The field of `k` values that stands at weight `w` of a number. */
  lemma FieldAt(x: int, w: int, k: int, low: int, f: int, high: int)
    requires 0 <= low < w && 0 <= f < k && x == low + w * (f + k * high)
    ensures x / w % k == f
  {
    DivModUnique(x, w, f + k * high, low);
    DivModUnique(f + k * high, k, high, f);
  }

  function PageOffset(x: Word): int {
    x % PAGE_SZ
  }

  function PageAlign(x: Word): Word {
    x - x % PAGE_SZ
  }

  /** `PAGE_ROUND(x) + 1`: always at least one byte beyond `x`, even for an aligned `x`. */
  function PageRoundNext(x: nat): nat {
    x - x % PAGE_SZ + PAGE_SZ
  }

  lemma RoundNextBounds(x: nat)
    ensures x < PageRoundNext(x) <= x + PAGE_SZ && PageRoundNext(x) % PAGE_SZ == 0
    ensures PageRoundNext(x) == PAGE_SZ * (x / PAGE_SZ + 1)
  {
  }

  /** `i` is one of the `n` addresses from `a` on. */
  predicate Within(i: int, a: int, n: int) {
    a <= i < a + n
  }

  /** Address `i` is one of the `n` addresses from `a` on, modulo 2^64. */
  predicate Covers(a: Word, n: nat, i: Word) {
    Wrap(i - a) < n
  }

  function Load(m: Memory, a: Word, n: nat): (bs: seq<Byte>)
    ensures |bs| == n
  {
    seq(n, i requires 0 <= i < n => m[Wrap(a + i)])
  }

  function Store(m: Memory, a: Word, bs: seq<Byte>): Memory {
    seq(TWO64, i requires 0 <= i < TWO64 => if Covers(a, |bs|, i) then bs[Wrap(i - a)] else m[i])
  }

  /** Without wrap-around a store is the splice one expects. */
  lemma StoreAt(m: Memory, a: Word, bs: seq<Byte>, i: Word)
    requires a + |bs| <= TWO64
    ensures Store(m, a, bs)[i] == if Within(i, a, |bs|) then bs[i - a] else m[i]
  {
  }

  lemma StoreAll(m: Memory, a: Word, bs: seq<Byte>)
    requires a + |bs| <= TWO64
    ensures forall i :: 0 <= i < TWO64 ==> Store(m, a, bs)[i] == if Within(i, a, |bs|) then bs[i - a] else m[i]
  {
    forall i | 0 <= i < TWO64
      ensures Store(m, a, bs)[i] == if Within(i, a, |bs|) then bs[i - a] else m[i]
    {
      StoreAt(m, a, bs, i);
    }
  }

  lemma LoadAt(m: Memory, a: Word, n: nat, i: nat)
    requires i < n && a + n <= TWO64
    ensures Load(m, a, n)[i] == m[a + i]
  {
    assert Wrap(a + i) == a + i;
  }

  lemma LoadStoreSame(m: Memory, a: Word, bs: seq<Byte>)
    requires |bs| <= TWO64
    ensures Load(Store(m, a, bs), a, |bs|) == bs
  {
    forall i | 0 <= i < |bs|
      ensures Load(Store(m, a, bs), a, |bs|)[i] == bs[i]
    {
      assert Wrap(Wrap(a + i) - a) == i;
    }
  }

  /** The two ranges share no address, modulo 2^64. */
  ghost predicate Apart(a: Word, n: nat, b: Word, k: nat) {
    forall i: Word :: Covers(a, n, i) ==> !Covers(b, k, i)
  }

  lemma LoadStoreApart(m: Memory, a: Word, n: nat, b: Word, bs: seq<Byte>)
    requires n <= TWO64 && Apart(a, n, b, |bs|)
    ensures Load(Store(m, b, bs), a, n) == Load(m, a, n)
  {
    forall i | 0 <= i < n
      ensures Load(Store(m, b, bs), a, n)[i] == Load(m, a, n)[i]
    {
      assert Covers(a, n, Wrap(a + i)) by {
        assert Wrap(Wrap(a + i) - a) == i;
      }
    }
  }

  // ----- little-endian words -----

  function Pow256(n: nat): nat {
    if n == 0 then 1 else 256 * Pow256(n - 1)
  }

  function ToBytes(v: nat, n: nat): (bs: seq<Byte>)
    ensures |bs| == n
  {
    if n == 0 then [] else [v % 256] + ToBytes(v / 256, n - 1)
  }

  function FromBytes(bs: seq<Byte>): nat {
    if bs == [] then 0 else bs[0] + 256 * FromBytes(bs[1..])
  }

  lemma {:induction false} FromToBytes(v: nat, n: nat)
    requires v < Pow256(n)
    ensures FromBytes(ToBytes(v, n)) == v
  {
    if n > 0 {
      FromToBytes(v / 256, n - 1);
      assert ToBytes(v, n)[1..] == ToBytes(v / 256, n - 1);
    }
  }

  lemma {:induction false} FromBytesBound(bs: seq<Byte>)
    ensures FromBytes(bs) < Pow256(|bs|)
  {
    if bs != [] {
      FromBytesBound(bs[1..]);
    }
  }

  lemma Pow256Of8()
    ensures Pow256(8) == TWO64
  {
    assert Pow256(4) == 0x1_0000_0000;
    assert Pow256(8) == 256 * (256 * (256 * (256 * Pow256(4))));
  }

  function ReadWord(m: Memory, a: Word): Word {
    FromBytesBound(Load(m, a, 8));
    Pow256Of8();
    FromBytes(Load(m, a, 8))
  }

  function WriteWord(m: Memory, a: Word, v: Word): Memory {
    Store(m, a, ToBytes(v, 8))
  }

  lemma ReadWrittenWord(m: Memory, a: Word, v: Word)
    ensures ReadWord(WriteWord(m, a, v), a) == v
  {
    LoadStoreSame(m, a, ToBytes(v, 8));
    Pow256Of8();
    FromToBytes(v, 8);
  }

  /** The word at `a`, by its bytes. */
  lemma WordByNumber(m: Memory, a: Word)
    requires a + 8 <= TWO64
    ensures ReadWord(m, a)
            == m[a] as int + 0x100 * (m[a + 1] as int) + 0x1_0000 * (m[a + 2] as int) + 0x100_0000 * (m[a + 3] as int) + 0x1_0000_0000 * (m[a + 4] as int)
               + 0x100_0000_0000 * (m[a + 5] as int) + 0x1_0000_0000_0000 * (m[a + 6] as int) + 0x100_0000_0000_0000 * (m[a + 7] as int)
  {
    var bs := Load(m, a, 8);
    forall i | 0 <= i < 8
      ensures bs[i] == m[a + i]
    {
      LoadAt(m, a, 8, i);
    }
    hide Load;
    EightBytes(bs);
  }

  lemma EightBytes(bs: seq<Byte>)
    requires |bs| == 8
    ensures FromBytes(bs)
            == bs[0] as int + 0x100 * (bs[1] as int) + 0x1_0000 * (bs[2] as int) + 0x100_0000 * (bs[3] as int) + 0x1_0000_0000 * (bs[4] as int)
               + 0x100_0000_0000 * (bs[5] as int) + 0x1_0000_0000_0000 * (bs[6] as int) + 0x100_0000_0000_0000 * (bs[7] as int)
  {
    FourBytes(bs[4..]);
    assert bs[1..][1..] == bs[2..] && bs[2..][1..] == bs[3..] && bs[3..][1..] == bs[4..];
    assert FromBytes(bs[3..]) == bs[3] as int + 256 * FromBytes(bs[4..]);
    assert FromBytes(bs[2..]) == bs[2] as int + 256 * FromBytes(bs[3..]);
    assert FromBytes(bs[1..]) == bs[1] as int + 256 * FromBytes(bs[2..]);
  }

  lemma FourBytes(bs: seq<Byte>)
    requires |bs| == 4
    ensures FromBytes(bs) == bs[0] as int + 0x100 * (bs[1] as int) + 0x1_0000 * (bs[2] as int) + 0x100_0000 * (bs[3] as int)
  {
    assert bs[1..][1..] == bs[2..] && bs[2..][1..] == bs[3..] && bs[3..][1..] == [];
    assert FromBytes(bs[3..]) == bs[3];
    assert FromBytes(bs[2..]) == bs[2] as int + 256 * FromBytes(bs[3..]);
    assert FromBytes(bs[1..]) == bs[1] as int + 256 * FromBytes(bs[2..]);
  }

  lemma ReadOtherWord(m: Memory, a: Word, b: Word, v: Word)
    requires Apart(a, 8, b, 8)
    ensures ReadWord(WriteWord(m, b, v), a) == ReadWord(m, a)
  {
    LoadStoreApart(m, a, 8, b, ToBytes(v, 8));
  }

  // ----- agreement of memories -----

  ghost predicate AgreeOutside(m: Memory, m': Memory, X: iset<int>) {
    forall i :: 0 <= i < TWO64 && i !in X ==> m[i] == m'[i]
  }

  ghost predicate AgreeOn(m: Memory, m': Memory, X: iset<int>) {
    forall i :: 0 <= i < TWO64 && i in X ==> m[i] == m'[i]
  }

  lemma WrapMultiple(k: int, q: int)
    ensures Wrap(k + TWO64 * q) == Wrap(k)
  {
    var d := (k + TWO64 * q) / TWO64 - (q + k / TWO64);
    assert TWO64 * d == Wrap(k) - Wrap(k + TWO64 * q);
    assert -1 < d < 1;
  }

  lemma WrapAdd(x: int, y: int)
    ensures Wrap(Wrap(x) + y) == Wrap(x + y)
  {
    assert x == TWO64 * (x / TWO64) + Wrap(x);
    WrapMultiple(Wrap(x) + y, x / TWO64);
  }
}
