/** Sequence numbers and timestamps.

    The protocol counts with unsigned 32-bit words that wrap around.  Every sequence-number
    computation below takes an `Arith`, so one definition of the protocol can be read in two
    ways: `Wrap32` is what the C code computes, `Unbounded` counts with natural numbers and never
    wraps.  `KcpRefinement` shows that the first refines the second. */
module SeqNum {
  const WORD: int := 0x1_0000_0000
  const HALF: int := 0x8000_0000

  type u32 = x: int | 0 <= x < 0x1_0000_0000
  type i32 = x: int | -0x8000_0000 <= x < 0x8000_0000
  type byte = x: int | 0 <= x < 256

  datatype Arith = Unbounded | Wrap32

  /** The two's complement reading of the low 32 bits. */
  function ToI32(n: int): i32 {
    var d := n % WORD;
    if d < HALF then d else d - WORD
  }

  /** A 32-bit counter after `++`. */
  function Inc(n: u32): u32 {
    if n == 0xffff_ffff then 0 else n + 1
  }

  /** `_itimediff` on 32-bit timestamps. */
  function TimeDiff(later: u32, earlier: u32): i32 {
    ToI32(later - earlier)
  }

  /** `a + k`, for a sequence number `a`. */
  function Add(ar: Arith, a: nat, k: nat): nat {
    if ar.Wrap32? then (a + k) % WORD else a + k
  }

  /** `_itimediff` on sequence numbers. */
  function Diff(ar: Arith, later: nat, earlier: nat): int {
    if ar.Wrap32? then ToI32(later - earlier) else later - earlier
  }

  /** How far `a` lies ahead of `base`: the unsigned difference. */
  function Offset(ar: Arith, a: nat, base: nat): int {
    if ar.Wrap32? then (a - base) % WORD else a - base
  }

  /** A number that the arithmetic can hold. */
  predicate Fits(ar: Arith, a: nat) {
    ar.Wrap32? ==> a < WORD
  }

  /** The word that represents an unbounded sequence number. */
  function Img(a: nat): nat { a % WORD }

  /** Ahead of a common base by less than half the number space, the signed difference is the
      true distance. */
  lemma DiffIsOffsetDistance(ar: Arith, a: nat, b: nat, base: nat)
    requires 0 <= Offset(ar, a, base) < HALF && 0 <= Offset(ar, b, base) < HALF
    ensures Diff(ar, a, b) == Offset(ar, a, base) - Offset(ar, b, base)
  {
    if ar.Wrap32? {
      var x, y := Offset(ar, a, base), Offset(ar, b, base);
      ModShift(a - base, b - base);
      assert (a - base) - (b - base) == a - b;
      if x >= y { ModUnique(x - y); } else { ModUnique(x - y); }
    }
  }

  lemma ModShift(x: int, y: int)
    ensures (x - y) % WORD == (x % WORD - y % WORD) % WORD
  {}

  lemma ModUnique(d: int)
    requires -WORD < d < WORD
    ensures d % WORD == if d >= 0 then d else d + WORD
  {}

  /** Moving the base forward by `k` moves every offset back by `k`. */
  lemma OffsetRebase(ar: Arith, a: nat, base: nat, k: nat)
    requires Fits(ar, a) && Fits(ar, base)
    requires k <= Offset(ar, a, base)
    ensures Offset(ar, a, Add(ar, base, k)) == Offset(ar, a, base) - k
  {
    if ar.Wrap32? {
      var x := Offset(ar, a, base);
      assert (a - Add(ar, base, k)) % WORD == (a - base - k) % WORD;
      assert (a - base - k) % WORD == (x - k) % WORD;
    }
  }

  /** The same with the new base named by a number that already lies ahead of the old one. */
  lemma OffsetRebaseTo(ar: Arith, a: nat, base: nat, base': nat)
    requires Fits(ar, a) && Fits(ar, base) && Fits(ar, base')
    requires 0 <= Offset(ar, base', base) <= Offset(ar, a, base)
    ensures Offset(ar, a, base') == Offset(ar, a, base) - Offset(ar, base', base)
  {
    var k := Offset(ar, base', base);
    OffsetOfAdd(ar, base, k);
    OffsetRebase(ar, a, base, k);
    assert base' == Add(ar, base, k);
  }

  lemma OffsetOfAdd(ar: Arith, base: nat, k: nat)
    requires Fits(ar, base) && (ar.Wrap32? ==> k < WORD)
    ensures Offset(ar, Add(ar, base, k), base) == k
  {}

  lemma OffsetInjective(ar: Arith, a: nat, b: nat, base: nat)
    requires Fits(ar, a) && Fits(ar, b) && Fits(ar, base)
    requires Offset(ar, a, base) == Offset(ar, b, base)
    ensures a == b
  {}

  /** `_itimediff` on the words agrees with the true order of the numbers they stand for exactly
      when these are less than half the number space apart. */
  lemma DiffRefines(a: nat, b: nat)
    ensures -HALF <= a - b < HALF <==> Diff(Wrap32, Img(a), Img(b)) == Diff(Unbounded, a, b)
  {
    ModShift(a, b);
  }

  lemma AddRefines(a: nat, k: nat)
    ensures Add(Wrap32, Img(a), k) == Img(Add(Unbounded, a, k))
  {}
}
