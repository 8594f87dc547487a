/** Unsigned integers and their bits. */
module Unsigned {
  import opened Arithmetic

  type U8 = x: nat | x < 0x100
  type U32 = x: nat | x < 0x1_0000_0000

  function Xor(a: nat, b: nat): nat
    decreases a
  {
    if a == 0 then b else (a + b) % 2 + 2 * Xor(a / 2, b / 2)
  }

  function And(a: nat, b: nat): nat
    decreases b
  {
    if b == 0 then 0 else a % 2 * (b % 2) + 2 * And(a / 2, b / 2)
  }

  /** Subtraction that wraps around. */
  function Minus(a: U32, b: U32): U32 {
    (a - b) % 0x1_0000_0000
  }

  /** Bit i of v, the lowest being bit 0. */
  predicate Bit(v: nat, i: nat)
    decreases i
  {
    if i == 0 then v % 2 == 1 else Bit(v / 2, i - 1)
  }

  function Pow2(n: nat): nat {
    if n == 0 then 1 else 2 * Pow2(n - 1)
  }

  lemma {:induction false} XorHalf(a: nat, b: nat)
    ensures Xor(a, b) % 2 == (a + b) % 2 && Xor(a, b) / 2 == Xor(a / 2, b / 2)
  {
    if a > 0 {
      var bit, half := (a + b) % 2, Xor(a / 2, b / 2);
      assert Xor(a, b) == bit + 2 * half;
      DivModUnique(bit + 2 * half, 2, half, bit);
    }
  }

  lemma {:induction false} XorSelf(a: nat)
    ensures Xor(a, a) == 0
  {
    if a > 0 {
      XorSelf(a / 2);
    }
  }

  lemma {:induction false} BitXor(a: nat, b: nat, i: nat)
    ensures Bit(Xor(a, b), i) <==> (Bit(a, i) != Bit(b, i))
    decreases i
  {
    XorHalf(a, b);
    if i > 0 {
      BitXor(a / 2, b / 2, i - 1);
    }
    BitOfSum(a, b, Xor(a, b), Xor(a / 2, b / 2), i);
  }

  lemma BitOfSum(a: nat, b: nat, x: nat, half: nat, i: nat)
    requires x % 2 == (a + b) % 2 && x / 2 == half
    requires i > 0 ==> (Bit(half, i - 1) <==> (Bit(a / 2, i - 1) != Bit(b / 2, i - 1)))
    ensures Bit(x, i) <==> (Bit(a, i) != Bit(b, i))
  {
  }

  lemma {:induction false} XorBelow(a: nat, b: nat, n: nat)
    requires a < Pow2(n) && b < Pow2(n)
    ensures Xor(a, b) < Pow2(n)
    decreases n
  {
    XorHalf(a, b);
    if n > 0 {
      XorBelow(a / 2, b / 2, n - 1);
    }
  }

  lemma {:induction false} NoHighBits(v: nat, n: nat, i: nat)
    requires v < Pow2(n) && n <= i
    ensures !Bit(v, i)
    decreases i
  {
    if n > 0 {
      NoHighBits(v / 2, n - 1, i - 1);
    } else if i > 0 {
      NoHighBits(v / 2, 0, i - 1);
    }
  }

  /** A number is its bits. */
  lemma {:induction false} SameBits(v: nat, w: nat, n: nat)
    requires v < Pow2(n) && w < Pow2(n) && forall i: nat :: i < n ==> Bit(v, i) == Bit(w, i)
    ensures v == w
    decreases n
  {
    if n > 0 {
      assert Bit(v, 0) == Bit(w, 0);
      forall i: nat | i < n - 1
        ensures Bit(v / 2, i) == Bit(w / 2, i)
      {
        assert Bit(v, i + 1) == Bit(w, i + 1);
      }
      SameBits(v / 2, w / 2, n - 1);
    }
  }

  lemma {:induction false} AndAll(a: nat, n: nat)
    requires a < Pow2(n)
    ensures And(a, Pow2(n) - 1) == a
    decreases n
  {
    if n > 0 {
      AndAll(a / 2, n - 1);
    }
  }

  lemma Powers()
    ensures Pow2(8) == 0x100 && Pow2(32) == 0x1_0000_0000
  {
    assert Pow2(8) == 0x100;
    assert Pow2(16) == 0x1_0000;
    assert Pow2(24) == 0x100_0000;
  }

  lemma BitDown8(v: nat, i: nat)
    ensures Bit(v / 0x100, i) == Bit(v, i + 8)
  {
    assert Bit(v, i + 8) == Bit(v / 2, i + 7) == Bit(v / 2 / 2, i + 6);
    assert v / 2 / 2 == v / 4;
    assert Bit(v / 4, i + 6) == Bit(v / 8, i + 5) == Bit(v / 16, i + 4);
    assert Bit(v / 16, i + 4) == Bit(v / 32, i + 3) == Bit(v / 64, i + 2);
    assert Bit(v / 64, i + 2) == Bit(v / 128, i + 1) == Bit(v / 256, i);
  }

  lemma BitLow8(v: nat, i: nat)
    ensures Bit(v % 0x100, i) <==> i < 8 && Bit(v, i)
  {
    if i < 8 {
      LowBit(v, 7, i);
    } else {
      Powers();
      NoHighBits(v % 0x100, 8, i);
    }
  }

  lemma {:induction false} LowBit(v: nat, n: nat, i: nat)
    requires i <= n
    ensures 0 < Pow2(n + 1) && Bit(v % Pow2(n + 1), i) == Bit(v, i)
    decreases i
  {
    Pow2Positive(n);
    ModHalf(v, Pow2(n));
    if i > 0 {
      LowBit(v / 2, n - 1, i - 1);
    }
  }

  lemma {:induction false} Pow2Positive(n: nat)
    ensures 0 < Pow2(n)
  {
    if n > 0 {
      Pow2Positive(n - 1);
    }
  }

  lemma ModHalf(v: nat, m: nat)
    requires 0 < m
    ensures (v % (2 * m)) % 2 == v % 2 && (v % (2 * m)) / 2 == (v / 2) % m
  {
    var q, r := v / (2 * m), v % (2 * m);
    assert v == 2 * (m * q) + r;
    assert v / 2 == m * q + r / 2;
    DivModUnique(v / 2, m, q, r / 2);
  }
}

/** The checksum of the datagrams: CRC-32 with the reflected polynomial, kept in a
    32-bit register that is stepped bit by bit. */
module Crc32 {
  import opened Folds
  import opened Unsigned

  const POLYNOMIAL: U32 := 0xEDB8_8320
  const ONES: U32 := 0xFFFF_FFFF
  const BYTE: nat := 8

  lemma XorU32(a: U32, b: U32)
    ensures Xor(a, b) < 0x1_0000_0000
  {
    Powers();
    XorBelow(a, b, 32);
  }

  function Xor32(a: U32, b: U32): U32 {
    XorU32(a, b);
    Xor(a, b)
  }

  /** One step of the register: shift a zero in, and divide if a one falls out. */
  function StepBit(c: U32): U32 {
    if c % 2 == 1 then Xor32(c / 2, POLYNOMIAL) else c / 2
  }

  function StepBits(c: U32, n: nat): U32
    decreases n
  {
    if n == 0 then c else StepBit(StepBits(c, n - 1))
  }

  function ConsumeByte(c: U32, b: U8): U32 {
    StepBits(Xor32(c, b), BYTE)
  }

  /** The register after the first n bytes, when it started as c. */
  function Register(bytes: seq<U8>, n: nat, c: U32): U32
    requires n <= |bytes|
  {
    Fold(ConsumeByte, bytes, n, c)
  }

  function Crc(bytes: seq<U8>): U32 {
    Xor32(Register(bytes, |bytes|, ONES), ONES)
  }

  /** Masking with 0 - (c & 1) is the branch on the bit that falls out. */
  lemma MaskSelects(p: U32, c: U32)
    ensures And(c, 1) == c % 2
    ensures And(p, Minus(0, c % 2)) == if c % 2 == 1 then p else 0
  {
    Powers();
    AndAll(p, 32);
  }

  lemma XorNone(a: nat)
    ensures Xor(a, 0) == a
  {
    if a > 0 {
      XorNone(a / 2);
    }
  }

  /** The bitwise loop. */
  method Compute(bytes: seq<U8>) returns (r: U32)
    ensures r == Crc(bytes)
  {
    var crc: U32 := ONES;
    for i := 0 to |bytes|
      invariant crc == Register(bytes, i, ONES)
    {
      assert Register(bytes, i + 1, ONES) == ConsumeByte(crc, bytes[i]);
      crc := Xor32(crc, bytes[i]);
      ghost var loaded := crc;
      for bit := 0 to BYTE
        invariant crc == StepBits(loaded, bit)
      {
        MaskSelects(POLYNOMIAL, crc);
        XorNone(crc / 2);
        var mask := Minus(0, And(crc, 1));
        crc := Xor32(crc / 2, And(POLYNOMIAL, mask));
      }
    }
    return Xor32(crc, ONES);
  }
}
