/** The checksum of four zero bytes, which is the checksum of every message
    followed by its own. */
module Crc32Residue {
  import opened Arithmetic
  import opened Unsigned
  import opened Crc32
  import opened Crc32Laws
  import opened Crc32Detects

  const RESIDUE: U32 := 0x2144_DF1C

  function BitOf(b: bool): nat {
    if b then 1 else 0
  }

  /** The four bits of a digit in base 16, the highest first. */
  datatype Digit = Digit(b8: bool, b4: bool, b2: bool, b1: bool)

  function ValueOf(d: Digit): nat {
    8 * BitOf(d.b8) + 4 * BitOf(d.b4) + 2 * BitOf(d.b2) + BitOf(d.b1)
  }

  function DigitSum(d: Digit, e: Digit): Digit {
    Digit(d.b8 != e.b8, d.b4 != e.b4, d.b2 != e.b2, d.b1 != e.b1)
  }

  lemma XorBit(a: nat, b: nat, a': nat, b': nat)
    requires a' == a / 2 && b' == b / 2
    ensures Xor(a, b) == (a + b) % 2 + 2 * Xor(a', b')
  {
    XorHalf(a, b);
  }

  lemma XorFourBits(a: nat, b: nat, a1: nat, b1: nat, a2: nat, b2: nat, a3: nat, b3: nat, a4: nat, b4: nat, s: Digit)
    requires a1 == a / 2 && a2 == a1 / 2 && a3 == a2 / 2 && a4 == a3 / 2
    requires b1 == b / 2 && b2 == b1 / 2 && b3 == b2 / 2 && b4 == b3 / 2
    requires (a + b) % 2 == BitOf(s.b1) && (a1 + b1) % 2 == BitOf(s.b2) && (a2 + b2) % 2 == BitOf(s.b4)
             && (a3 + b3) % 2 == BitOf(s.b8)
    ensures Xor(a, b) == 16 * Xor(a4, b4) + ValueOf(s)
  {
    XorBit(a, b, a1, b1);
    XorBit(a1, b1, a2, b2);
    XorBit(a2, b2, a3, b3);
    XorBit(a3, b3, a4, b4);
  }

  lemma Halved(a: nat, p: bool, a': nat)
    requires a' == 2 * a + BitOf(p)
    ensures a' / 2 == a && a' % 2 == BitOf(p)
  {
    DivModUnique(a', 2, a, BitOf(p));
  }

  lemma Parity(a: nat, p: bool, b: nat, q: bool, a': nat, b': nat)
    requires a' == 2 * a + BitOf(p) && b' == 2 * b + BitOf(q)
    ensures (a' + b') % 2 == BitOf(p != q)
  {
    DivModUnique(a' + b', 2, a + b + (if p && q then 1 else 0), BitOf(p != q));
  }

  lemma Halves(a: nat, d: Digit, a': nat) returns (a1: nat, a2: nat, a3: nat)
    requires a' == 16 * a + ValueOf(d)
    ensures a1 == a' / 2 && a2 == a1 / 2 && a3 == a2 / 2 && a == a3 / 2
    ensures a3 == 2 * a + BitOf(d.b8) && a2 == 2 * a3 + BitOf(d.b4) && a1 == 2 * a2 + BitOf(d.b2)
            && a' == 2 * a1 + BitOf(d.b1)
  {
    a3 := 2 * a + BitOf(d.b8);
    a2 := 2 * a3 + BitOf(d.b4);
    a1 := 2 * a2 + BitOf(d.b2);
    Halved(a, d.b8, a3);
    Halved(a3, d.b4, a2);
    Halved(a2, d.b2, a1);
    Halved(a1, d.b1, a');
  }

  lemma Parities(a: nat, b: nat, d: Digit, e: Digit, a1: nat, b1: nat, a2: nat, b2: nat, a3: nat, b3: nat, a': nat,
                 b': nat, s: Digit)
    requires a3 == 2 * a + BitOf(d.b8) && a2 == 2 * a3 + BitOf(d.b4) && a1 == 2 * a2 + BitOf(d.b2)
             && a' == 2 * a1 + BitOf(d.b1)
    requires b3 == 2 * b + BitOf(e.b8) && b2 == 2 * b3 + BitOf(e.b4) && b1 == 2 * b2 + BitOf(e.b2)
             && b' == 2 * b1 + BitOf(e.b1)
    requires s == DigitSum(d, e)
    ensures (a' + b') % 2 == BitOf(s.b1) && (a1 + b1) % 2 == BitOf(s.b2) && (a2 + b2) % 2 == BitOf(s.b4)
            && (a3 + b3) % 2 == BitOf(s.b8)
  {
    Parity(a, d.b8, b, e.b8, a3, b3);
    Parity(a3, d.b4, b3, e.b4, a2, b2);
    Parity(a2, d.b2, b2, e.b2, a1, b1);
    Parity(a1, d.b1, b1, e.b1, a', b');
  }

  lemma XorDigit(a: nat, b: nat, d: Digit, e: Digit, a': nat, b': nat)
    requires a' == 16 * a + ValueOf(d) && b' == 16 * b + ValueOf(e)
    ensures Xor(a', b') == 16 * Xor(a, b) + ValueOf(DigitSum(d, e))
  {
    var s := DigitSum(d, e);
    var a1, a2, a3 := Halves(a, d, a');
    var b1, b2, b3 := Halves(b, e, b');
    Parities(a, b, d, e, a1, b1, a2, b2, a3, b3, a', b', s);
    XorFourBits(a', b', a1, b1, a2, b2, a3, b3, a, b, s);
  }

  /** A number of 32 bits by its digits in base 16. */
  datatype Hex = Hex(d7: Digit, d6: Digit, d5: Digit, d4: Digit, d3: Digit, d2: Digit, d1: Digit, d0: Digit)

  function Upper(h: Hex): nat {
    0x1000 * ValueOf(h.d7) + 0x100 * ValueOf(h.d6) + 0x10 * ValueOf(h.d5) + ValueOf(h.d4)
  }

  function Number(h: Hex): (n: nat)
    ensures n < 0x1_0000_0000
  {
    0x1_0000 * Upper(h) + 0x1000 * ValueOf(h.d3) + 0x100 * ValueOf(h.d2) + 0x10 * ValueOf(h.d1) + ValueOf(h.d0)
  }

  function Sums(g: Hex, h: Hex): Hex {
    Hex(DigitSum(g.d7, h.d7), DigitSum(g.d6, h.d6), DigitSum(g.d5, h.d5), DigitSum(g.d4, h.d4),
        DigitSum(g.d3, h.d3), DigitSum(g.d2, h.d2), DigitSum(g.d1, h.d1), DigitSum(g.d0, h.d0))
  }

  lemma XorUpper(g: Hex, h: Hex)
    ensures Xor(Upper(g), Upper(h)) == Upper(Sums(g, h))
  {
    var a7, b7 := ValueOf(g.d7), ValueOf(h.d7);
    var a6, b6 := 16 * a7 + ValueOf(g.d6), 16 * b7 + ValueOf(h.d6);
    var a5, b5 := 16 * a6 + ValueOf(g.d5), 16 * b6 + ValueOf(h.d5);
    XorDigit(0, 0, g.d7, h.d7, a7, b7);
    XorDigit(a7, b7, g.d6, h.d6, a6, b6);
    XorDigit(a6, b6, g.d5, h.d5, a5, b5);
    XorDigit(a5, b5, g.d4, h.d4, Upper(g), Upper(h));
  }

  /** Exclusive or, digit by digit. */
  lemma XorByDigits(g: Hex, h: Hex)
    ensures Xor(Number(g), Number(h)) == Number(Sums(g, h))
  {
    var a3, b3 := 16 * Upper(g) + ValueOf(g.d3), 16 * Upper(h) + ValueOf(h.d3);
    var a2, b2 := 16 * a3 + ValueOf(g.d2), 16 * b3 + ValueOf(h.d2);
    var a1, b1 := 16 * a2 + ValueOf(g.d1), 16 * b2 + ValueOf(h.d1);
    XorUpper(g, h);
    XorDigit(Upper(g), Upper(h), g.d3, h.d3, a3, b3);
    XorDigit(a3, b3, g.d2, h.d2, a2, b2);
    XorDigit(a2, b2, g.d1, h.d1, a1, b1);
    XorDigit(a1, b1, g.d0, h.d0, Number(g), Number(h));
  }

  function Shifted(d: Digit, above: Digit): Digit {
    Digit(above.b1, d.b8, d.b4, d.b2)
  }

  function Half(h: Hex): Hex {
    Hex(Shifted(h.d7, D(0)), Shifted(h.d6, h.d7), Shifted(h.d5, h.d6), Shifted(h.d4, h.d5),
        Shifted(h.d3, h.d4), Shifted(h.d2, h.d3), Shifted(h.d1, h.d2), Shifted(h.d0, h.d1))
  }

  /** The sum without carries of g and the polynomial's digits E, D, B, 8, 8, 3, 2, 0. */
  function Divided(g: Hex): Hex {
    Hex(Digit(!g.d7.b8, !g.d7.b4, !g.d7.b2, g.d7.b1), Digit(!g.d6.b8, !g.d6.b4, g.d6.b2, !g.d6.b1),
        Digit(!g.d5.b8, g.d5.b4, !g.d5.b2, !g.d5.b1), Digit(!g.d4.b8, g.d4.b4, g.d4.b2, g.d4.b1),
        Digit(!g.d3.b8, g.d3.b4, g.d3.b2, g.d3.b1), Digit(g.d2.b8, g.d2.b4, !g.d2.b2, !g.d2.b1),
        Digit(g.d1.b8, g.d1.b4, !g.d1.b2, g.d1.b1), g.d0)
  }

  /** One step of the register, on digits. */
  function Next(h: Hex): Hex {
    if h.d0.b1 then Divided(Half(h)) else Half(h)
  }

  function D(x: nat): Digit {
    var x1 := if x >= 8 then x - 8 else x;
    var x2 := if x1 >= 4 then x1 - 4 else x1;
    var x3 := if x2 >= 2 then x2 - 2 else x2;
    Digit(x >= 8, x1 >= 4, x2 >= 2, x3 >= 1)
  }

  function H(d7: nat, d6: nat, d5: nat, d4: nat, d3: nat, d2: nat, d1: nat, d0: nat): Hex {
    Hex(D(d7), D(d6), D(d5), D(d4), D(d3), D(d2), D(d1), D(d0))
  }

  lemma DigitHalf(d: Digit, above: Digit)
    ensures ValueOf(d) + 16 * BitOf(above.b1) == 2 * ValueOf(Shifted(d, above)) + BitOf(d.b1)
  {
  }

  lemma HalfIs(h: Hex)
    ensures Number(h) == 2 * Number(Half(h)) + BitOf(h.d0.b1)
  {
    DigitHalf(h.d7, D(0));
    DigitHalf(h.d6, h.d7);
    DigitHalf(h.d5, h.d6);
    DigitHalf(h.d4, h.d5);
    DigitHalf(h.d3, h.d4);
    DigitHalf(h.d2, h.d3);
    DigitHalf(h.d1, h.d2);
    DigitHalf(h.d0, h.d1);
    HalfAdds(h, Half(h), BitOf(h.d7.b1), BitOf(h.d6.b1), BitOf(h.d5.b1), BitOf(h.d4.b1), BitOf(h.d3.b1), BitOf(h.d2.b1),
             BitOf(h.d1.b1), BitOf(h.d0.b1));
  }

  lemma HalfAdds(h: Hex, g: Hex, b7: nat, b6: nat, b5: nat, b4: nat, b3: nat, b2: nat, b1: nat, b0: nat)
    requires ValueOf(h.d7) == 2 * ValueOf(g.d7) + b7 && ValueOf(h.d6) + 16 * b7 == 2 * ValueOf(g.d6) + b6
    requires ValueOf(h.d5) + 16 * b6 == 2 * ValueOf(g.d5) + b5 && ValueOf(h.d4) + 16 * b5 == 2 * ValueOf(g.d4) + b4
    requires ValueOf(h.d3) + 16 * b4 == 2 * ValueOf(g.d3) + b3 && ValueOf(h.d2) + 16 * b3 == 2 * ValueOf(g.d2) + b2
    requires ValueOf(h.d1) + 16 * b2 == 2 * ValueOf(g.d1) + b1 && ValueOf(h.d0) + 16 * b1 == 2 * ValueOf(g.d0) + b0
    ensures Number(h) == 2 * Number(g) + b0
  {
  }

  lemma GeneratorIs(p: Hex)
    requires p == H(14, 13, 11, 8, 8, 3, 2, 0)
    ensures Number(p) == POLYNOMIAL
    ensures forall g :: Sums(g, p) == Divided(g)
  {
  }

  lemma NextIs(h: Hex)
    ensures StepBit(Number(h)) == Number(Next(h))
  {
    HalfIs(h);
    DivModUnique(Number(h), 2, Number(Half(h)), BitOf(h.d0.b1));
    var p := H(14, 13, 11, 8, 8, 3, 2, 0);
    GeneratorIs(p);
    XorByDigits(Half(h), p);
  }

  function FourNext(h: Hex): Hex {
    Next(Next(Next(Next(h))))
  }

  lemma OneStep(c0: U32, n: nat, h: Hex)
    requires StepBits(c0, n) == Number(h)
    ensures StepBits(c0, n + 1) == Number(Next(h))
  {
    NextIs(h);
  }

  lemma FourSteps(c0: U32, n: nat, h: Hex, h': Hex)
    requires StepBits(c0, n) == Number(h) && h' == FourNext(h)
    ensures StepBits(c0, n + 4) == Number(h')
  {
    OneStep(c0, n, h);
    OneStep(c0, n + 1, Next(h));
    OneStep(c0, n + 2, Next(Next(h)));
    OneStep(c0, n + 3, Next(Next(Next(h))));
  }

  /** From all ones, four steps at a time. */
  lemma FourNext1()
    ensures FourNext(H(15, 15, 15, 15, 15, 15, 15, 15)) == H(11, 2, 4, 2, 0, 13, 14, 3)
  {
  }

  lemma FourNext2()
    ensures FourNext(H(11, 2, 4, 2, 0, 13, 14, 3)) == H(2, 13, 15, 13, 1, 0, 7, 2)
  {
  }

  lemma FourNext3()
    ensures FourNext(H(2, 13, 15, 13, 1, 0, 7, 2)) == H(3, 9, 11, 1, 15, 1, 12, 15)
  {
  }

  lemma FourNext4()
    ensures FourNext(H(3, 9, 11, 1, 15, 1, 12, 15)) == H(11, 14, 2, 6, 14, 13, 0, 0)
  {
  }

  lemma FourNext5()
    ensures FourNext(H(11, 14, 2, 6, 14, 13, 0, 0)) == H(0, 11, 14, 2, 6, 14, 13, 0)
  {
  }

  lemma FourNext6()
    ensures FourNext(H(0, 11, 14, 2, 6, 14, 13, 0)) == H(0, 0, 11, 14, 2, 6, 14, 13)
  {
  }

  lemma FourNext7()
    ensures FourNext(H(0, 0, 11, 14, 2, 6, 14, 13)) == H(8, 6, 13, 8, 3, 0, 11, 10)
  {
  }

  lemma FourNext8()
    ensures FourNext(H(8, 6, 13, 8, 3, 0, 11, 10)) == H(13, 14, 11, 11, 2, 0, 14, 3)
  {
  }

  lemma StepsOfOnes(c0: U32, n: nat)
    requires StepBits(c0, n) == Number(H(15, 15, 15, 15, 15, 15, 15, 15))
    ensures StepBits(c0, n + 32) == Number(H(13, 14, 11, 11, 2, 0, 14, 3))
  {
    FourNext1();
    FourSteps(c0, n, H(15, 15, 15, 15, 15, 15, 15, 15), H(11, 2, 4, 2, 0, 13, 14, 3));
    FourNext2();
    FourSteps(c0, n + 4, H(11, 2, 4, 2, 0, 13, 14, 3), H(2, 13, 15, 13, 1, 0, 7, 2));
    FourNext3();
    FourSteps(c0, n + 8, H(2, 13, 15, 13, 1, 0, 7, 2), H(3, 9, 11, 1, 15, 1, 12, 15));
    FourNext4();
    FourSteps(c0, n + 12, H(3, 9, 11, 1, 15, 1, 12, 15), H(11, 14, 2, 6, 14, 13, 0, 0));
    FourNext5();
    FourSteps(c0, n + 16, H(11, 14, 2, 6, 14, 13, 0, 0), H(0, 11, 14, 2, 6, 14, 13, 0));
    FourNext6();
    FourSteps(c0, n + 20, H(0, 11, 14, 2, 6, 14, 13, 0), H(0, 0, 11, 14, 2, 6, 14, 13));
    FourNext7();
    FourSteps(c0, n + 24, H(0, 0, 11, 14, 2, 6, 14, 13), H(8, 6, 13, 8, 3, 0, 11, 10));
    FourNext8();
    FourSteps(c0, n + 28, H(8, 6, 13, 8, 3, 0, 11, 10), H(13, 14, 11, 11, 2, 0, 14, 3));
  }

  lemma EndIs(ones: Hex, end: Hex)
    requires ones == H(15, 15, 15, 15, 15, 15, 15, 15) && end == H(13, 14, 11, 11, 2, 0, 14, 3)
    ensures Number(ones) == ONES && Xor(Number(end), Number(ones)) == RESIDUE
  {
    LastSum(ones, end);
    XorByDigits(end, ones);
  }

  lemma LastSum(ones: Hex, end: Hex)
    requires ones == H(15, 15, 15, 15, 15, 15, 15, 15) && end == H(13, 14, 11, 11, 2, 0, 14, 3)
    ensures Number(ones) == ONES && Number(Sums(end, ones)) == RESIDUE
  {
  }

  lemma StepsInAll(c0: U32, start: nat, n: nat, ones: Hex, end: Hex)
    requires c0 == Number(ones) && start == 0 && n == start + 32
    requires ones == H(15, 15, 15, 15, 15, 15, 15, 15) && end == H(13, 14, 11, 11, 2, 0, 14, 3)
    ensures StepBits(c0, n) == Number(end)
  {
    StepsOfOnes(c0, start);
  }

  lemma EndCrc(zeros: seq<U8>, end: U32, ones: U32, n: nat, crc: U32)
    requires zeros == [0, 0, 0, 0] && ones == ONES && n == 32 && StepBits(ones, n) == end && Xor(end, ones) == crc
    ensures Crc(zeros) == crc
  {
    EmptyAppended();
    BitsSteps(ones, n);
    BitsXor(end, ones);
    BitsEqual(Crc(zeros), crc);
  }

  lemma ZerosCrc(zeros: seq<U8>, n: nat)
    requires zeros == [0, 0, 0, 0] && n == 32
    ensures Crc(zeros) == RESIDUE
  {
    var ones, end := H(15, 15, 15, 15, 15, 15, 15, 15), H(13, 14, 11, 11, 2, 0, 14, 3);
    EndIs(ones, end);
    StepsInAll(Number(ones), 0, n, ones, end);
    EndCrc(zeros, Number(end), Number(ones), n, RESIDUE);
  }

  /** A message followed by 32 bits has the residue for its checksum just if they
      are the message's own checksum. */
  lemma OwnChecksumIff(m: seq<U8>, v: U32)
    ensures Crc(m + LittleEndian(v)) == RESIDUE <==> v == Crc(m)
  {
    ResidueIff(m, v);
    ZerosCrc([0, 0, 0, 0], 32);
  }
}
