/** What the checksum is and what it detects. */
module Crc32Laws {
  import opened Arithmetic
  import opened Folds
  import opened Unsigned
  import opened Crc32
  import opened Crc32Words

  /** The bits of v, lowest first. */
  ghost function BitsOf(v: nat): Word {
    seq(32, i requires 0 <= i < 32 => Bit(v, i))
  }

  ghost function Poly(): Word {
    BitsOf(POLYNOMIAL)
  }

  lemma PolyIsGenerator()
    ensures Generator(Poly())
  {
    BitDown8(POLYNOMIAL, 23);
    BitDown8(0xED_B883, 15);
    BitDown8(0xEDB8, 7);
    assert Bit(0xED, 7);
  }

  lemma BitsXor(a: nat, b: nat)
    ensures BitsOf(Xor(a, b)) == Plus(BitsOf(a), BitsOf(b))
  {
    forall i | 0 <= i < 32
      ensures Bit(Xor(a, b), i) == Plus(BitsOf(a), BitsOf(b))[i]
    {
      BitXor(a, b, i);
    }
  }

  lemma BitsStep(p: U32, c: U32, d: nat)
    requires d == if c % 2 == 1 then Xor(c / 2, p) else c / 2
    ensures BitsOf(d) == Step(BitsOf(p), BitsOf(c))
  {
    Powers();
    NoHighBits(c, 32, 32);
    forall i | 0 <= i < 32
      ensures Bit(d, i) == Step(BitsOf(p), BitsOf(c))[i]
    {
      BitXor(c / 2, p, i);
      assert Bit(c, i + 1) == Bit(c / 2, i);
    }
  }

  lemma {:induction false} BitsSteps(c: U32, n: nat)
    ensures BitsOf(StepBits(c, n)) == Steps(Poly(), BitsOf(c), n)
    decreases n
  {
    if n > 0 {
      BitsSteps(c, n - 1);
      BitsStep(POLYNOMIAL, StepBits(c, n - 1), StepBits(c, n));
    }
  }

  lemma BitsEqual(a: U32, b: U32)
    requires BitsOf(a) == BitsOf(b)
    ensures a == b
  {
    Powers();
    forall i: nat | i < 32
      ensures Bit(a, i) == Bit(b, i)
    {
      assert BitsOf(a)[i] == BitsOf(b)[i];
    }
    SameBits(a, b, 32);
  }

  /** The message as the register consumes it, the lowest bit of each byte first. */
  ghost function MessageBits(bytes: seq<U8>): seq<bool> {
    seq(8 * |bytes|, i requires 0 <= i < 8 * |bytes| => Bit(bytes[i / 8], i % 8))
  }

  lemma ByteBits(bytes: seq<U8>, k: nat, at: nat)
    requires k < |bytes| && at == 8 * k
    ensures Holds(BitsOf(bytes[k]), MessageBits(bytes), at, 8)
  {
    Powers();
    forall i: nat | 8 <= i
      ensures !Bit(bytes[k], i)
    {
      NoHighBits(bytes[k], 8, i);
    }
    forall j | 0 <= j < 8
      ensures BitsOf(bytes[k])[j] == MessageBits(bytes)[at + j]
    {
      DivModUnique(at + j, 8, k, j);
    }
  }

  /** Loading a byte and stepping past it is feeding its bits. */
  lemma ByteIsRun(bytes: seq<U8>, k: nat, at: nat, end: nat, c: Word, r: U32, r': U32)
    requires k < |bytes| && at == 8 * k && end == at + 8 <= |MessageBits(bytes)|
    requires BitsOf(r) == Run(Poly(), MessageBits(bytes), at, c) && r' == ConsumeByte(r, bytes[k])
    ensures BitsOf(r') == Run(Poly(), MessageBits(bytes), end, c)
  {
    ByteBits(bytes, k, at);
    RunWord(Poly(), MessageBits(bytes), at, 8, c, BitsOf(bytes[k]));
    BitsXor(r, bytes[k]);
    BitsSteps(Xor32(r, bytes[k]), BYTE);
  }

  /** The register after n bytes is the linear register after their 8 * n bits. */
  lemma {:induction false} RegisterIsRun(bytes: seq<U8>, n: nat, at: nat, c: U32)
    requires n <= |bytes| && at == 8 * n && at <= |MessageBits(bytes)|
    ensures BitsOf(Register(bytes, n, c)) == Run(Poly(), MessageBits(bytes), at, BitsOf(c))
    decreases n
  {
    if n > 0 {
      var k: nat, before: nat := n - 1, at - 8;
      RegisterIsRun(bytes, k, before, c);
      RegisterSnoc(bytes, k, n, c);
      ByteIsRun(bytes, k, before, at, BitsOf(c), Register(bytes, k, c), Register(bytes, n, c));
    }
  }

  lemma RegisterSnoc(bytes: seq<U8>, k: nat, n: nat, c: U32)
    requires n == k + 1 && n <= |bytes|
    ensures Register(bytes, n, c) == ConsumeByte(Register(bytes, k, c), bytes[k])
  {
  }

  // The table-driven form.

  /** The table of section 8 of RFC 1952: entry n is n stepped eight times. */
  function TableEntry(n: U8): U32 {
    StepBits(n, BYTE)
  }

  /** Its update loop. */
  function ConsumeByTable(c: U32, b: U8): U32 {
    Xor32(TableEntry(Xor32(c, b) % 0x100), c / 0x100)
  }

  /** Steps past the low n bits do not touch the others. */
  lemma LowPart(p: Word, w: Word, low: Word, n: nat)
    requires n <= 32 && Down(low, n) == Zero() && forall i :: 0 <= i < n ==> low[i] == w[i]
    ensures Steps(p, w, n) == Plus(Steps(p, low, n), Down(w, n))
  {
    LoadedFromZero(p, w, n);
    LoadedFromZero(p, low, n);
    RunPrefix(p, w, low, n, Zero());
    PlusNothing(Run(p, w, n, Zero()));
  }

  lemma LoadedFromZero(p: Word, w: Word, n: nat)
    requires n <= 32
    ensures Steps(p, w, n) == Plus(Run(p, w, n, Zero()), Down(w, n))
  {
    assert Plus(Zero(), w) == w;
    RunLoaded(p, w, 0, n, Zero(), w);
  }

  lemma PlusNothing(w: Word)
    ensures Plus(w, Zero()) == w
  {
  }

  lemma BitsDown8(x: U32)
    ensures Down(BitsOf(x), 8) == BitsOf(x / 0x100)
  {
    NoBitsBeyond(x);
    forall i | 0 <= i < 32
      ensures Down(BitsOf(x), 8)[i] == BitsOf(x / 0x100)[i]
    {
      BitDown8(x, i);
    }
  }

  lemma BitsLow8(x: U32)
    ensures Down(BitsOf(x % 0x100), 8) == Zero()
    ensures forall i :: 0 <= i < 8 ==> BitsOf(x % 0x100)[i] == BitsOf(x)[i]
  {
    forall i: nat
      ensures Bit(x % 0x100, i) <==> i < 8 && Bit(x, i)
    {
      BitLow8(x, i);
    }
  }

  lemma TableStep(x: U32)
    ensures StepBits(x, BYTE) == Xor32(TableEntry(x % 0x100), x / 0x100)
  {
    var low := x % 0x100;
    BitsDown8(x);
    BitsLow8(x);
    LowPart(Poly(), BitsOf(x), BitsOf(low), BYTE);
    BitsSteps(x, BYTE);
    BitsSteps(low, BYTE);
    BitsXor(TableEntry(low), x / 0x100);
    BitsEqual(StepBits(x, BYTE), Xor32(TableEntry(low), x / 0x100));
  }

  lemma NoBitsBeyond(x: U32)
    ensures forall i: nat :: 32 <= i ==> !Bit(x, i)
  {
    Powers();
    forall i: nat | 32 <= i
      ensures !Bit(x, i)
    {
      NoHighBits(x, 32, i);
    }
  }

  /** xor with a byte leaves the upper bytes alone. */
  lemma XorByte(r: U32, b: U8)
    ensures Xor(r, b) / 0x100 == r / 0x100
  {
    XorU32(r, b);
    Powers();
    forall i: nat
      ensures Bit(Xor(r, b) / 0x100, i) == Bit(r / 0x100, i)
    {
      BitDown8(Xor(r, b), i);
      BitDown8(r, i);
      BitXor(r, b, i + 8);
      NoHighBits(b, 8, i + 8);
    }
    SameBits(Xor(r, b) / 0x100, r / 0x100, 32);
  }

  lemma SameConsumption(c: U32, b: U8)
    ensures ConsumeByte(c, b) == ConsumeByTable(c, b)
  {
    XorByte(c, b);
    TableStep(Xor32(c, b));
  }

  /** The bitwise loop computes what the table-driven loop of RFC 1952 does. */
  lemma RegisterByTable(bytes: seq<U8>, n: nat, c: U32)
    requires n <= |bytes|
    ensures Register(bytes, n, c) == Fold(ConsumeByTable, bytes, n, c)
  {
    forall c: U32, b: U8
      ensures ConsumeByte(c, b) == ConsumeByTable(c, b)
    {
      SameConsumption(c, b);
    }
    FoldSame(ConsumeByte, ConsumeByTable, bytes, n, c);
  }
}

/** What the checksum detects. */
module Crc32Detects {
  import opened Unsigned
  import opened Crc32
  import opened Crc32Words
  import opened Crc32Laws

  ghost function Ones(): Word {
    BitsOf(ONES)
  }

  /** The checksum in terms of the message's bits. */
  lemma CrcBits(bytes: seq<U8>)
    ensures BitsOf(Crc(bytes)) == Plus(Run(Poly(), MessageBits(bytes), 8 * |bytes|, Ones()), Ones())
  {
    RegisterIsRun(bytes, |bytes|, 8 * |bytes|, ONES);
    BitsXor(Register(bytes, |bytes|, ONES), ONES);
  }

  lemma PlusCancels(a: Word, b: Word, c: Word)
    ensures Plus(a, c) == Plus(b, c) <==> a == b
    ensures Plus(Plus(a, c), Plus(b, c)) == Plus(a, b)
  {
    if Plus(a, c) == Plus(b, c) {
      forall i | 0 <= i < 32
        ensures a[i] == b[i]
      {
        assert Plus(a, c)[i] == Plus(b, c)[i];
      }
    }
  }

  // Equal checksums.

  /** Two messages of one length have the same checksum just if the bits in which
      they differ leave the zero register at zero. */
  lemma SameCrcIff(a: seq<U8>, b: seq<U8>)
    requires |a| == |b|
    ensures Crc(a) == Crc(b) <==>
              Run(Poly(), PlusBits(MessageBits(a), MessageBits(b)), 8 * |a|, Zero()) == Zero()
  {
    var x, y := Run(Poly(), MessageBits(a), 8 * |a|, Ones()), Run(Poly(), MessageBits(b), 8 * |a|, Ones());
    CrcBits(a);
    CrcBits(b);
    PlusCancels(x, y, Ones());
    if BitsOf(Crc(a)) == BitsOf(Crc(b)) {
      BitsEqual(Crc(a), Crc(b));
    }
    RunLinear(Poly(), MessageBits(a), MessageBits(b), 8 * |a|, Ones(), Ones());
    PlusIsZero(Ones(), Ones());
    PlusIsZero(x, y);
  }

  /** The messages differ in bit i, in the order in which the register consumes them. */
  ghost predicate Differ(a: seq<U8>, b: seq<U8>, i: nat)
    requires |a| == |b|
  {
    i < 8 * |a| && Bit(a[i / 8], i % 8) != Bit(b[i / 8], i % 8)
  }

  /** From bit `at` on, the differences are the generator polynomial: its leading
      term and then its other 32 coefficients. */
  ghost predicate GeneratorAt(a: seq<U8>, b: seq<U8>, at: nat)
    requires |a| == |b|
  {
    Differ(a, b, at) && forall j: nat :: j < 32 ==> Differ(a, b, at + 1 + j) == Bit(POLYNOMIAL, j)
  }

  /** The differences, with 33 zeros behind them. */
  ghost function Differences(a: seq<U8>, b: seq<U8>): seq<bool>
    requires |a| == |b|
  {
    seq(8 * |a| + 33, i requires 0 <= i => Differ(a, b, i))
  }

  lemma DifferencesRun(a: seq<U8>, b: seq<U8>)
    requires |a| == |b|
    ensures var n, d := 8 * |a|, Differences(a, b);
            Run(Poly(), d, |d|, Zero()) == Steps(Poly(),
                                                 Run(Poly(), PlusBits(MessageBits(a), MessageBits(b)), n, Zero()), 33)
  {
    var d, n := Differences(a, b), 8 * |a|;
    RunPrefix(Poly(), PlusBits(MessageBits(a), MessageBits(b)), d, n, Zero());
    RunZeros(Poly(), d, n, 33, Zero());
  }

  lemma SameCrcIffVanishes(a: seq<U8>, b: seq<U8>)
    requires |a| == |b|
    ensures var d := Differences(a, b);
            Crc(a) == Crc(b) <==> Run(Poly(), d, |d|, Zero()) == Zero()
  {
    SameCrcIff(a, b);
    DifferencesRun(a, b);
    PolyIsGenerator();
    StepsVanishIff(Poly(), Run(Poly(), PlusBits(MessageBits(a), MessageBits(b)), 8 * |a|, Zero()), 33);
  }

  lemma SameBytes(a: seq<U8>, b: seq<U8>)
    requires |a| == |b| && forall i: nat :: !Differ(a, b, i)
    ensures a == b
  {
    Powers();
    forall k | 0 <= k < |a|
      ensures a[k] == b[k]
    {
      forall i: nat | i < 8
        ensures Bit(a[k], i) == Bit(b[k], i)
      {
        assert !Differ(a, b, 8 * k + i);
      }
      SameBits(a[k], b[k], 8);
    }
  }

  /** Differences confined to 33 consecutive bits go unnoticed just if there are
      none, or they are exactly the generator polynomial. */
  lemma BurstMissedIff(a: seq<U8>, b: seq<U8>, at: nat)
    requires |a| == |b| && forall i: nat :: Differ(a, b, i) ==> at <= i < at + 33
    ensures Crc(a) == Crc(b) <==> a == b || GeneratorAt(a, b, at)
  {
    if at < 8 * |a| {
      var d := Differences(a, b);
      SameCrcIffVanishes(a, b);
      PolyIsGenerator();
      BurstVanishesIff(Poly(), d, at);
      WindowIsGenerator(a, b, at);
      if forall i :: 0 <= i < |d| ==> !d[i] {
        NothingDiffers(a, b);
      }
    } else {
      SameBytes(a, b);
    }
  }

  lemma NothingDiffers(a: seq<U8>, b: seq<U8>)
    requires |a| == |b| && forall i :: 0 <= i < |Differences(a, b)| ==> !Differences(a, b)[i]
    ensures a == b
  {
    forall i: nat
      ensures !Differ(a, b, i)
    {
      if i < |Differences(a, b)| {
        assert Differences(a, b)[i] == Differ(a, b, i);
      }
    }
    SameBytes(a, b);
  }

  lemma WindowIsGenerator(a: seq<U8>, b: seq<U8>, at: nat)
    requires |a| == |b| && at < 8 * |a|
    ensures (Differences(a, b)[at] && Window(Differences(a, b), at + 1) == Poly()) <==> GeneratorAt(a, b, at)
  {
    var w := Window(Differences(a, b), at + 1);
    assert forall j: nat :: j < 32 ==> w[j] == Differ(a, b, at + 1 + j) && Poly()[j] == Bit(POLYNOMIAL, j);
    if forall j: nat :: j < 32 ==> Differ(a, b, at + 1 + j) == Bit(POLYNOMIAL, j) {
      forall j: nat | j < 32
        ensures w[j] == Poly()[j]
      {
        assert Differ(a, b, at + 1 + j) == Bit(POLYNOMIAL, j);
      }
      assert w == Poly();
    }
  }

  /** Burst detection: different messages whose differences are confined to 32
      consecutive bits have different checksums. */
  lemma BurstDetected(a: seq<U8>, b: seq<U8>, at: nat)
    requires |a| == |b| && a != b && forall i: nat :: Differ(a, b, i) ==> at <= i < at + 32
    ensures Crc(a) != Crc(b)
  {
    BurstMissedIff(a, b, at);
    PolyIsGenerator();
    assert Bit(POLYNOMIAL, 31) by { assert Poly()[31]; }
    assert !Differ(a, b, at + 1 + 31);
  }

  // Affinity.

  function Xor8(a: U8, b: U8): U8 {
    Powers();
    XorBelow(a, b, 8);
    Xor(a, b)
  }

  function XorBytes(a: seq<U8>, b: seq<U8>): seq<U8>
    requires |a| == |b|
  {
    seq(|a|, i requires 0 <= i < |a| => Xor8(a[i], b[i]))
  }

  lemma XorBytesBits(a: seq<U8>, b: seq<U8>)
    requires |a| == |b|
    ensures MessageBits(XorBytes(a, b)) == PlusBits(MessageBits(a), MessageBits(b))
  {
    forall i | 0 <= i < 8 * |a|
      ensures MessageBits(XorBytes(a, b))[i] == PlusBits(MessageBits(a), MessageBits(b))[i]
    {
      BitXor(a[i / 8], b[i / 8], i % 8);
    }
  }

  /** The checksum is affine. */
  lemma CrcAffine(a: seq<U8>, b: seq<U8>, c: seq<U8>)
    requires |a| == |b| == |c|
    ensures Xor32(Xor32(Crc(a), Crc(b)), Crc(c)) == Crc(XorBytes(XorBytes(a, b), c))
  {
    var n, ab := 8 * |a|, XorBytes(a, b);
    CrcBits(a);
    CrcBits(b);
    CrcBits(c);
    CrcBits(XorBytes(ab, c));
    XorBytesBits(a, b);
    XorBytesBits(ab, c);
    RunLinear(Poly(), MessageBits(a), MessageBits(b), n, Ones(), Ones());
    RunLinear(Poly(), MessageBits(ab), MessageBits(c), n, Plus(Ones(), Ones()), Ones());
    assert Plus(Plus(Ones(), Ones()), Ones()) == Ones();
    BitsXor(Crc(a), Crc(b));
    BitsXor(Xor32(Crc(a), Crc(b)), Crc(c));
    BitsEqual(Xor32(Xor32(Crc(a), Crc(b)), Crc(c)), Crc(XorBytes(ab, c)));
  }

  // The residue.

  /** A checksum as the protocol writes it, lowest byte first. */
  function LittleEndian(v: U32): seq<U8> {
    [v % 0x100, v / 0x100 % 0x100, v / 0x100 / 0x100 % 0x100, v / 0x100 / 0x100 / 0x100]
  }

  lemma LittleEndianBits(m: seq<U8>, v: U32)
    ensures Holds(BitsOf(v), MessageBits(m + LittleEndian(v)), 8 * |m|, 32)
  {
    NoBitsBeyond(v);
    forall j: nat | j < 32
      ensures Bit(v, j) == Bit(LittleEndian(v)[j / 8], j % 8)
    {
      WordByte(v, j);
    }
  }

  lemma WordByte(v: U32, j: nat)
    requires j < 32
    ensures Bit(v, j) == Bit(LittleEndian(v)[j / 8], j % 8)
  {
    var v1 := v / 0x100;
    var v2 := v1 / 0x100;
    var i := j % 8;
    BitLow8(v, i);
    BitLow8(v1, i);
    BitLow8(v2, i);
    BitDown8(v, i);
    BitDown8(v, i + 8);
    BitDown8(v, i + 16);
    BitDown8(v1, i);
    BitDown8(v1, i + 8);
    BitDown8(v2, i);
  }

  /** The checksum of a message, when it is only the beginning. */
  lemma CrcOfPrefix(m: seq<U8>, more: seq<U8>)
    ensures BitsOf(Crc(m)) == Plus(Run(Poly(), MessageBits(m + more), 8 * |m|, Ones()), Ones())
  {
    RunPrefix(Poly(), MessageBits(m + more), MessageBits(m), 8 * |m|, Ones());
    CrcBits(m);
  }

  /** The checksum of a message followed by the n bits of w. */
  lemma AppendedCrc(m: seq<U8>, more: seq<U8>, w: Word, n: nat)
    requires 8 * |more| == n && Holds(w, MessageBits(m + more), 8 * |m|, n)
    ensures BitsOf(Crc(m + more)) == Plus(Steps(Poly(), Plus(Plus(BitsOf(Crc(m)), Ones()), w), n), Ones())
  {
    CrcOfPrefix(m, more);
    CrcBits(m + more);
    RunWord(Poly(), MessageBits(m + more), 8 * |m|, n, Ones(), w);
    PlusTwice(Run(Poly(), MessageBits(m + more), 8 * |m|, Ones()), Ones());
  }

  lemma PlusTwice(a: Word, b: Word)
    ensures Plus(Plus(a, b), b) == a
  {
  }

  /** A message followed by 32 bits has one checksum, whatever the message, just
      if they are its own checksum. */
  lemma ResidueIff(m: seq<U8>, v: U32)
    ensures Crc(m + LittleEndian(v)) == Crc([0, 0, 0, 0]) <==> v == Crc(m)
  {
    var x := Plus(Plus(BitsOf(Crc(m)), Ones()), BitsOf(v));
    var end, ends := Steps(Poly(), x, 32), Steps(Poly(), Ones(), 32);
    LittleEndianBits(m, v);
    AppendedCrc(m, LittleEndian(v), BitsOf(v), 32);
    EmptyAppended();
    PlusCancels(end, ends, Ones());
    BitsEqualIff(Crc(m + LittleEndian(v)), Crc([0, 0, 0, 0]));
    PolyIsGenerator();
    if end == ends {
      StepsInjective(Poly(), x, Ones(), 32);
    }
    CancelsIff(BitsOf(Crc(m)), BitsOf(v), Ones());
    BitsEqualIff(Crc(m), v);
  }

  lemma EmptyAppended()
    ensures BitsOf(Crc([0, 0, 0, 0])) == Plus(Steps(Poly(), Ones(), 32), Ones())
  {
    var none: seq<U8> := [];
    XorSelf(ONES);
    LittleEndianBits(none, 0);
    assert none + LittleEndian(0) == [0, 0, 0, 0];
    AppendedCrc(none, LittleEndian(0), BitsOf(0), 32);
    CancelsIff(BitsOf(0), BitsOf(0), Ones());
  }

  lemma BitsEqualIff(a: U32, b: U32)
    ensures BitsOf(a) == BitsOf(b) <==> a == b
  {
    if BitsOf(a) == BitsOf(b) {
      BitsEqual(a, b);
    }
  }

  lemma CancelsIff(a: Word, b: Word, c: Word)
    ensures Plus(Plus(a, c), b) == c <==> a == b
  {
    if Plus(Plus(a, c), b) == c {
      forall i | 0 <= i < 32
        ensures a[i] == b[i]
      {
        assert Plus(Plus(a, c), b)[i] == c[i];
      }
    }
  }
}
