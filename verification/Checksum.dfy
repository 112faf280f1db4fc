/** CRC-32 (section 8 of RFC 1952): a fold over bytes, and the incremental hasher the engine drives. */
module Checksum {

  type byte = x: int | 0 <= x < 0x100

  type Bytes = seq<byte>

  type u32 = x: int | 0 <= x < 0x1_0000_0000

  /** `n as u32`. */
  function Truncate(n: nat): u32 {
    if n < 0x1_0000_0000 then n else n % 0x1_0000_0000
  }

  /** A word as the set of its one bits: bit `i` is the coefficient of weight `2^i`. */
  type Word = set<nat>

  const POLYNOMIAL: Word := {5, 8, 9, 15, 19, 20, 21, 23, 24, 26, 27, 29, 30, 31}  // 0xEDB88320

  const ONES: Word := set i: nat | i < 32

  function Xor(a: Word, b: Word): Word {
    (a - b) + (b - a)
  }

  predicate Bit(n: nat, i: nat) {
    if i == 0 then n % 2 == 1 else Bit(n / 2, i - 1)
  }

  function Bits(b: byte): Word {
    set i: nat | i < 8 && Bit(b, i)
  }

  function ShiftRight(a: Word): Word {
    set i | i in a && i > 0 :: (i - 1) as nat
  }

  /** `bits` steps of the reflected polynomial division. */
  function Divide(crc: Word, bits: nat): Word
    decreases bits, crc
  {
    if bits == 0 then crc else
    Divide(if 0 in crc then Xor(ShiftRight(crc), POLYNOMIAL) else ShiftRight(crc), bits - 1)
  }

  /** The checksum state after the first `n` bytes of `data`, starting from `crc`. */
  function Fold(crc: Word, data: Bytes, n: nat): Word
    requires n <= |data|
  {
    if n == 0 then crc else Divide(Xor(Fold(crc, data, n - 1), Bits(data[n - 1])), 8)
  }

  /** The number whose bits from `from` upward are those of `a`. */
  function Number(a: Word, from: nat): nat
    decreases 32 - from
  {
    if from >= 32 then 0 else (if from in a then 1 else 0) + 2 * Number(a, from + 1)
  }

  function Finish(crc: Word): u32 {
    Truncate(Number(Xor(crc, ONES), 0))
  }

  /** The checksum of `data` in one go. */
  function Crc(data: Bytes): u32 {
    Finish(Fold(ONES, data, |data|))
  }

  /** The state depends only on the bytes fed. */
  lemma {:induction false} FoldPrefix(crc: Word, a: Bytes, b: Bytes, n: nat)
    requires n <= |a|
    ensures Fold(crc, a + b, n) == Fold(crc, a, n)
  {
    hide Divide, Xor, Bits;
    if n > 0 {
      FoldPrefix(crc, a, b, n - 1);
    }
  }

  /** Feeding `a` and then `b` is feeding `a + b`. */
  lemma {:induction false} FoldConcat(crc: Word, a: Bytes, b: Bytes, n: nat)
    requires n <= |b|
    ensures Fold(crc, a + b, |a| + n) == Fold(Fold(crc, a, |a|), b, n)
  {
    hide Divide, Xor, Bits;
    if n == 0 {
      FoldPrefix(crc, a, b, |a|);
    } else {
      FoldConcat(crc, a, b, n - 1);
      assert (a + b)[|a| + n - 1] == b[n - 1];
    }
  }

  /** `crc32fast::Hasher`. */
  class Hasher {
    var crc: Word

    constructor ()
      ensures crc == ONES
    {
      crc := ONES;
    }

    method Update(data: Bytes)
      modifies this
      ensures crc == Fold(old(crc), data, |data|)
    {
      for i := 0 to |data|
        invariant crc == Fold(old(crc), data, i)
      {
        crc := Divide(Xor(crc, Bits(data[i])), 8);
      }
    }

    method Finalize() returns (r: u32)
      ensures r == Finish(crc)
    {
      r := Finish(crc);
    }
  }

  // ---------------------------------------------------------------- which checksum it is

  lemma ShiftXor(a: Word, b: Word)
    ensures ShiftRight(Xor(a, b)) == Xor(ShiftRight(a), ShiftRight(b))
  {
    forall i: nat
      ensures i in ShiftRight(Xor(a, b)) <==> i in Xor(ShiftRight(a), ShiftRight(b))
    {
      ShiftMember(Xor(a, b), i);
      ShiftMember(a, i);
      ShiftMember(b, i);
    }
  }

  lemma ShiftMember(a: Word, i: nat)
    ensures i in ShiftRight(a) <==> i + 1 in a
  {
    if i + 1 in a {
      var j: nat := i + 1;
      assert j in a && j - 1 == i;
    }
  }

  lemma OnceXor(a: Word, b: Word)
    ensures Divide(Xor(a, b), 1) == Xor(Divide(a, 1), Divide(b, 1))
  {
    OneStep(a);
    OneStep(b);
    OneStep(Xor(a, b));
    ShiftXor(a, b);
    hide ShiftRight, Divide;
  }

  lemma OneStep(crc: Word)
    ensures Divide(crc, 1) == if 0 in crc then Xor(ShiftRight(crc), POLYNOMIAL) else ShiftRight(crc)
  {
    hide Xor, ShiftRight;
    var next := if 0 in crc then Xor(ShiftRight(crc), POLYNOMIAL) else ShiftRight(crc);
    assert Divide(crc, 1) == Divide(next, 0);
  }

  lemma StepFirst(crc: Word, bits: nat)
    requires bits > 0
    ensures Divide(crc, bits) == Divide(Divide(crc, 1), bits - 1)
  {
    OneStep(crc);
    hide Xor, ShiftRight;
  }

  /** The division is linear over exclusive or: a checksum is the remainder of a polynomial. */
  lemma {:induction false} DivideXor(a: Word, b: Word, bits: nat)
    ensures Divide(Xor(a, b), bits) == Xor(Divide(a, bits), Divide(b, bits))
    decreases bits
  {
    if bits > 0 {
      StepFirst(a, bits);
      StepFirst(b, bits);
      StepFirst(Xor(a, b), bits);
      OnceXor(a, b);
      DivideXor(Divide(a, 1), Divide(b, 1), bits - 1);
      hide Xor, Divide;
    } else {
      hide Xor;
    }
  }

  /** A bit that the division does not reach only moves. */
  lemma {:induction false} DivideMoves(n: nat, bits: nat)
    ensures Divide({n + bits}, bits) == {n}
  {
    if bits > 0 {
      StepFirst({n + bits}, bits);
      OneStep({n + bits});
      ShiftOne(n + bits);
      DivideMoves(n, bits - 1);
      hide Xor, Divide, ShiftRight;
    }
  }

  /** A bit that falls out leaves the polynomial behind. With linearity this is the whole division. */
  lemma {:induction false} DivideDrops(n: nat)
    ensures Divide({n}, n + 1) == POLYNOMIAL
  {
    OneStep({n});
    ShiftOne(n);
    if n > 0 {
      StepFirst({n}, n + 1);
      DivideDrops(n - 1);
      hide Xor, Divide, ShiftRight;
    } else {
      assert Xor({}, POLYNOMIAL) == POLYNOMIAL;
    }
  }

  lemma ShiftOne(n: nat)
    ensures ShiftRight({n}) == if n == 0 then {} else {n - 1}
  {
    forall i: nat
      ensures i in ShiftRight({n}) <==> n > 0 && i == n - 1
    {
      ShiftMember({n}, i);
    }
  }

  lemma {:induction false} NumberAbove(a: Word, from: nat)
    requires forall i :: i in a ==> i < from
    ensures Number(a, from) == 0
    decreases 32 - from
  {
    if from < 32 {
      NumberAbove(a, from + 1);
    }
  }

  /** `2^n`. */
  function Power(n: nat): nat {
    if n == 0 then 1 else 2 * Power(n - 1)
  }

  /** `n` without its lowest `k` bits. */
  function Drop(n: nat, k: nat): nat {
    if k == 0 then n else Drop(n / 2, k - 1)
  }

  lemma {:induction false} BitDrop(n: nat, k: nat)
    ensures Bit(n, k) <==> Drop(n, k) % 2 == 1
    ensures Drop(n, k + 1) == Drop(n, k) / 2
    decreases k
  {
    if k > 0 {
      BitDrop(n / 2, k - 1);
    }
  }

  lemma {:induction false} DropAll(n: nat, k: nat)
    requires n < Power(k)
    ensures Drop(n, k) == 0
    decreases k
  {
    if k > 0 {
      DropAll(n / 2, k - 1);
    }
  }

  /** The bits of a byte are its binary digits, the least significant first. */
  lemma {:induction false} ByteNumber(b: byte, k: nat)
    requires k <= 8
    ensures Number(Bits(b), 8 - k) == Drop(b, 8 - k)
    decreases k
  {
    if k == 0 {
      NumberAbove(Bits(b), 8);
      assert Power(8) == 0x100;
      DropAll(b, 8);
    } else {
      ByteNumber(b, k - 1);
      BitDrop(b, 8 - k);
    }
  }

  /** The checksum of nothing. */
  lemma CrcEmpty()
    ensures Crc([]) == 0
  {
    assert Xor(ONES, ONES) == {};
    NumberAbove({}, 0);
  }
}
