/** The register of the checksum as 32 bits over the field of two elements, the
    bit that falls out first. */
module Crc32Words {
  type Word = w: seq<bool> | |w| == 32 witness seq(32, _ => false)

  function Zero(): Word {
    seq(32, _ => false)
  }

  function Plus(a: Word, b: Word): Word {
    seq(32, i requires 0 <= i < 32 => a[i] != b[i])
  }

  /** w shifted down by n bits. */
  function Down(w: Word, n: nat): Word {
    seq(32, i requires 0 <= i < 32 => i + n < 32 && w[i + n])
  }

  /** A generator polynomial without its leading term; its constant term is 1. */
  ghost predicate Generator(p: Word) {
    p[31]
  }

  /** One step of the register with a bit of input. */
  function Consume(p: Word, c: Word, b: bool): Word {
    seq(32, i requires 0 <= i < 32 => (i < 31 && c[i + 1]) != ((c[0] != b) && p[i]))
  }

  function Step(p: Word, c: Word): Word {
    Consume(p, c, false)
  }

  function Steps(p: Word, c: Word, n: nat): Word
    decreases n
  {
    if n == 0 then c else Step(p, Steps(p, c, n - 1))
  }

  /** The register after the first n bits of input, when it started as c. */
  function Run(p: Word, bits: seq<bool>, n: nat, c: Word): Word
    requires n <= |bits|
    decreases n
  {
    if n == 0 then c else Consume(p, Run(p, bits, n - 1, c), bits[n - 1])
  }

  function PlusBits(a: seq<bool>, b: seq<bool>): seq<bool>
    requires |a| == |b|
  {
    seq(|a|, i requires 0 <= i < |a| => a[i] != b[i])
  }

  /** The 32 bits of input from place k on; past its end there are none. */
  function Window(bits: seq<bool>, k: nat): Word {
    seq(32, i requires 0 <= i < 32 => k + i < |bits| && bits[k + i])
  }

  lemma ConsumeLinear(p: Word, a: Word, b: Word, x: bool, y: bool)
    ensures Consume(p, Plus(a, b), x != y) == Plus(Consume(p, a, x), Consume(p, b, y))
  {
  }

  /** A step loses nothing: its result and the bit of input determine the register. */
  lemma ConsumeInjective(p: Word, a: Word, b: Word, x: bool)
    requires Generator(p) && Consume(p, a, x) == Consume(p, b, x)
    ensures a == b
  {
    assert Consume(p, a, x)[31] == (a[0] != x) && Consume(p, b, x)[31] == (b[0] != x);
    forall i | 0 < i < 32
      ensures a[i] == b[i]
    {
      assert Consume(p, a, x)[i - 1] == Consume(p, b, x)[i - 1];
    }
  }

  lemma {:induction false} StepsInjective(p: Word, a: Word, b: Word, n: nat)
    requires Generator(p) && Steps(p, a, n) == Steps(p, b, n)
    ensures a == b
    decreases n
  {
    if n > 0 {
      ConsumeInjective(p, Steps(p, a, n - 1), Steps(p, b, n - 1), false);
      StepsInjective(p, a, b, n - 1);
    }
  }

  lemma {:induction false} StepsOfZero(p: Word, n: nat)
    ensures Steps(p, Zero(), n) == Zero()
  {
    if n > 0 {
      StepsOfZero(p, n - 1);
    }
  }

  /** The register is a linear function of the input and its start. */
  lemma {:induction false} RunLinear(p: Word, a: seq<bool>, b: seq<bool>, n: nat, c: Word, d: Word)
    requires n <= |a| == |b|
    ensures Run(p, PlusBits(a, b), n, Plus(c, d)) == Plus(Run(p, a, n, c), Run(p, b, n, d))
    decreases n
  {
    if n > 0 {
      RunLinear(p, a, b, n - 1, c, d);
      ConsumeLinear(p, Run(p, a, n - 1, c), Run(p, b, n - 1, d), a[n - 1], b[n - 1]);
    }
  }

  /** Only the first n bits of input matter. */
  lemma {:induction false} RunPrefix(p: Word, a: seq<bool>, b: seq<bool>, n: nat, c: Word)
    requires n <= |a| && n <= |b| && forall i :: 0 <= i < n ==> a[i] == b[i]
    ensures Run(p, a, n, c) == Run(p, b, n, c)
    decreases n
  {
    if n > 0 {
      RunPrefix(p, a, b, n - 1, c);
    }
  }

  /** Zeros of input are plain steps. */
  lemma {:induction false} RunZeros(p: Word, bits: seq<bool>, k: nat, n: nat, c: Word)
    requires k + n <= |bits| && forall i :: k <= i < k + n ==> !bits[i]
    ensures Run(p, bits, k + n, c) == Steps(p, Run(p, bits, k, c), n)
    decreases n
  {
    if n > 0 {
      RunZeros(p, bits, k, n - 1, c);
    }
  }

  lemma LoadedStep(p: Word, r: Word, w: Word, n: nat)
    requires n < 32
    ensures Step(p, Plus(r, Down(w, n))) == Plus(Consume(p, r, w[n]), Down(w, n + 1))
  {
  }

  /** Feeding the n low bits of w one by one is loading w at once and stepping:
      what of the load has not come out yet is still there. */
  lemma {:induction false} RunLoaded(p: Word, bits: seq<bool>, k: nat, n: nat, c: Word, w: Word)
    requires k + n <= |bits| && n <= 32 && forall j :: 0 <= j < n ==> w[j] == bits[k + j]
    ensures Steps(p, Plus(Run(p, bits, k, c), w), n) == Plus(Run(p, bits, k + n, c), Down(w, n))
    decreases n
  {
    if n > 0 {
      RunLoaded(p, bits, k, n - 1, c, w);
      LoadedStep(p, Run(p, bits, k + n - 1, c), w, n - 1);
    } else {
      assert Down(w, 0) == w;
    }
  }

  /** w holds the n bits of input from place k on, and no other bits. */
  ghost predicate Holds(w: Word, bits: seq<bool>, k: nat, n: nat) {
    k + n <= |bits| && n <= 32 && Down(w, n) == Zero() && forall j :: 0 <= j < n ==> w[j] == bits[k + j]
  }

  lemma RunWord(p: Word, bits: seq<bool>, k: nat, n: nat, c: Word, w: Word)
    requires Holds(w, bits, k, n)
    ensures Run(p, bits, k + n, c) == Steps(p, Plus(Run(p, bits, k, c), w), n)
  {
    RunLoaded(p, bits, k, n, c, w);
    var r := Run(p, bits, k + n, c);
    assert Plus(r, Zero()) == r;
  }

  lemma WindowHolds(bits: seq<bool>, k: nat)
    requires k + 32 <= |bits|
    ensures Holds(Window(bits, k), bits, k, 32)
  {
    assert Down(Window(bits, k), 32) == Zero();
  }

  lemma PlusIsZero(a: Word, b: Word)
    ensures Plus(a, b) == Zero() <==> a == b
  {
    if Plus(a, b) == Zero() {
      forall i | 0 <= i < 32
        ensures a[i] == b[i]
      {
        assert !Plus(a, b)[i];
      }
    }
  }

  lemma StepsVanishIff(p: Word, c: Word, n: nat)
    requires Generator(p)
    ensures Steps(p, c, n) == Zero() <==> c == Zero()
  {
    StepsOfZero(p, n);
    if Steps(p, c, n) == Zero() {
      StepsInjective(p, c, Zero(), n);
    }
  }

  lemma FirstBit(p: Word, d: seq<bool>, at: nat)
    requires at < |d| && forall i :: 0 <= i < at ==> !d[i]
    ensures Run(p, d, at + 1, Zero()) == if d[at] then p else Zero()
  {
    RunZeros(p, d, 0, at, Zero());
    StepsOfZero(p, at);
  }

  /** The register vanishes after n more bits just if they cancel it. */
  lemma LoadVanishes(p: Word, d: seq<bool>, k: nat, n: nat, c: Word, r: Word, w: Word)
    requires Generator(p) && Holds(w, d, k, n) && r == Run(p, d, k, c)
    ensures Run(p, d, k + n, c) == Zero() <==> r == w
  {
    RunWord(p, d, k, n, c, w);
    StepsVanishIff(p, Plus(r, w), n);
    PlusIsZero(r, w);
  }

  lemma WindowVanishes(p: Word, d: seq<bool>, at: nat)
    requires Generator(p) && at + 33 <= |d| && forall i :: 0 <= i < at ==> !d[i]
    ensures Run(p, d, at + 33, Zero()) == Zero() <==> Window(d, at + 1) == (if d[at] then p else Zero())
  {
    FirstBit(p, d, at);
    WindowHolds(d, at + 1);
    LoadVanishes(p, d, at + 1, 32, Zero(), if d[at] then p else Zero(), Window(d, at + 1));
  }

  /** Input that is zero outside 33 bits leaves the zero register at zero just if
      it is zero, or those bits are the generator with its leading term. */
  lemma BurstVanishesIff(p: Word, d: seq<bool>, at: nat)
    requires Generator(p) && at + 33 <= |d|
    requires forall i :: 0 <= i < |d| && d[i] ==> at <= i < at + 33
    ensures Run(p, d, |d|, Zero()) == Zero() <==>
              ((d[at] && Window(d, at + 1) == p) || forall i :: 0 <= i < |d| ==> !d[i])
  {
    WindowVanishes(p, d, at);
    TailVanishes(p, d, at + 33, |d| - (at + 33), |d|, Zero());
    NoBits(d, at);
  }

  lemma TailVanishes(p: Word, d: seq<bool>, k: nat, n: nat, end: nat, c: Word)
    requires Generator(p) && k + n == end <= |d| && forall i :: k <= i < end ==> !d[i]
    ensures Run(p, d, end, c) == Zero() <==> Run(p, d, k, c) == Zero()
  {
    RunZeros(p, d, k, n, c);
    StepsVanishIff(p, Run(p, d, k, c), n);
  }

  lemma NoBits(d: seq<bool>, at: nat)
    requires at + 33 <= |d|
    requires forall i :: 0 <= i < |d| && d[i] ==> at <= i < at + 33
    ensures (!d[at] && Window(d, at + 1) == Zero()) <==> forall i :: 0 <= i < |d| ==> !d[i]
  {
    if !d[at] && Window(d, at + 1) == Zero() {
      forall i | 0 <= i < |d|
        ensures !d[i]
      {
        if at < i < at + 33 {
          assert Window(d, at + 1)[i - at - 1] == d[i];
        }
      }
    }
  }
}
