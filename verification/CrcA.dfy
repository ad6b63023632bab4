/**
 CRC_A (Annex B of ISO/IEC 14443-3) as `crc16a` of main/main.cpp computes it, a byte at a time,
 and the 18-byte ECP frame that carries it.
 */
module CrcA {

  const PRESET: bv16 := 0x6363
  const POLYNOMIAL: bv16 := 0x8408

  function Low(w: bv16): bv8 {
    (w & 0xFF) as bv8
  }

  function High(w: bv16): bv8 {
    (w >> 8) as bv8
  }

  // Named operations of the register, so that proofs can treat exclusive or as an abelian group.

  function Xor(a: bv16, b: bv16): bv16 {
    a ^ b
  }

  function Half(w: bv16): bv16 {
    w >> 1
  }

  predicate Odd(w: bv16) {
    w & 1 == 1
  }

  function Word(b: bv8): bv16 {
    b as bv16
  }

  function Upper(b: bv8): bv16 {
    (b as bv16) << 8
  }

  lemma XorGroup(a: bv16, b: bv16, c: bv16)
    ensures Xor(a, b) == Xor(b, a) && Xor(Xor(a, b), c) == Xor(a, Xor(b, c))
    ensures Xor(a, Xor(a, b)) == b
  {
  }

  lemma HalfLinear(a: bv16, b: bv16)
    ensures Half(Xor(a, b)) == Xor(Half(a), Half(b))
  {
  }

  lemma OddLinear(a: bv16, b: bv16)
    ensures Odd(Xor(a, b)) <==> (Odd(a) <==> !Odd(b))
  {
  }

  /** The loop body of `crc16a`. */
  function ByteStep(w: bv16, b: bv8): bv16 {
    var x := b ^ Low(w);
    Xor(w >> 8, Spread(x ^ (x << 4)))
  }

  function Spread(y: bv8): bv16 {
    ((y as bv16) << 8) ^ ((y as bv16) << 3) ^ ((y as bv16) >> 4)
  }

  /** One clock of the reflected shift register of the standard. */
  function BitStep(w: bv16): bv16 {
    if Odd(w) then Xor(Half(w), POLYNOMIAL) else Half(w)
  }

  function BitSteps(w: bv16, n: nat): bv16
    decreases n
  {
    if n == 0 then w else BitSteps(BitStep(w), n - 1)
  }

  function RegisterStep(w: bv16, b: bv8): bv16 {
    BitSteps(Xor(w, Word(b)), 8)
  }

  function Crc(w: bv16, s: seq<bv8>): bv16
    decreases |s|
  {
    if s == [] then w else Crc(ByteStep(w, s[0]), s[1..])
  }

  function RegisterCrc(w: bv16, s: seq<bv8>): bv16
    decreases |s|
  {
    if s == [] then w else RegisterCrc(RegisterStep(w, s[0]), s[1..])
  }

  /** The register is linear over exclusive or. */
  lemma BitStepLinear(v: bv16, w: bv16)
    ensures BitStep(Xor(v, w)) == Xor(BitStep(v), BitStep(w))
  {
    hide Xor, Half, Odd;
    HalfLinear(v, w);
    OddLinear(v, w);
    var a, b, p := Half(v), Half(w), POLYNOMIAL;
    XorGroup(a, b, p);
    XorGroup(a, p, b);
    XorGroup(b, p, b);
    XorGroup(p, b, p);
    XorGroup(a, p, Xor(b, p));
    XorGroup(p, b, b);
  }

  lemma {:induction false} BitStepsLinear(v: bv16, w: bv16, n: nat)
    ensures BitSteps(Xor(v, w), n) == Xor(BitSteps(v, n), BitSteps(w, n))
    decreases n
  {
    hide BitStep, Xor;
    if n > 0 {
      BitStepLinear(v, w);
      BitStepsLinear(BitStep(v), BitStep(w), n - 1);
    }
  }

  lemma BitStepInjective(v: bv16, w: bv16)
    requires v != w
    ensures BitStep(v) != BitStep(w)
  {
    hide BitStep;
    BitStepUndone(v);
    BitStepUndone(w);
  }

  /** One clock back: the polynomial sets the top bit exactly when a one was shifted out. */
  function BitBack(r: bv16): bv16 {
    if r & 0x8000 != 0 then ((r ^ POLYNOMIAL) << 1) | 1 else r << 1
  }

  lemma BitStepUndone(w: bv16)
    ensures BitBack(BitStep(w)) == w
  {
  }

  lemma {:induction false} BitStepsInjective(v: bv16, w: bv16, n: nat)
    requires v != w
    ensures BitSteps(v, n) != BitSteps(w, n)
    decreases n
  {
    hide BitStep;
    if n > 0 {
      BitStepInjective(v, w);
      BitStepsInjective(BitStep(v), BitStep(w), n - 1);
    }
  }

  lemma EightSteps(w: bv16)
    ensures BitSteps(w, 8)
            == BitStep(BitStep(BitStep(BitStep(BitStep(BitStep(BitStep(BitStep(w))))))))
  {
    hide BitStep;
    var a := BitStep(BitStep(w));
    assert BitSteps(w, 8) == BitSteps(BitStep(w), 7) == BitSteps(a, 6);
    var b := BitStep(BitStep(a));
    assert BitSteps(a, 6) == BitSteps(BitStep(a), 5) == BitSteps(b, 4);
    var c := BitStep(BitStep(b));
    assert BitSteps(b, 4) == BitSteps(BitStep(b), 3) == BitSteps(c, 2);
    assert BitSteps(c, 2) == BitSteps(BitStep(c), 1) == BitSteps(BitStep(BitStep(c)), 0);
  }

  /** A byte in the upper half is only shifted down. */
  lemma UpperHalfShifts(b: bv8)
    ensures BitSteps(Upper(b), 8) == Word(b)
  {
    EightSteps(Upper(b));
  }

  /** On a single byte the nibble trick is eight clocks. */
  lemma NibbleTrick(x: bv8)
    ensures BitSteps(Word(x), 8) == Spread(x ^ (x << 4))
  {
    EightSteps(Word(x));
  }

  lemma SplitWord(w: bv16, b: bv8)
    ensures Xor(w, Word(b)) == Xor(Upper(High(w)), Word(b ^ Low(w)))
    ensures Word(High(w)) == w >> 8
  {
  }

  /** The loop body of `crc16a` is eight clocks of the register. */
  lemma ByteStepIsRegisterStep(w: bv16, b: bv8)
    ensures ByteStep(w, b) == RegisterStep(w, b)
  {
    hide Xor, Upper, Word, Spread, High, Low, BitSteps;
    SplitWord(w, b);
    BitStepsLinear(Upper(High(w)), Word(b ^ Low(w)), 8);
    UpperHalfShifts(High(w));
    NibbleTrick(b ^ Low(w));
  }

  lemma {:induction false} CrcIsRegisterCrc(w: bv16, s: seq<bv8>)
    ensures Crc(w, s) == RegisterCrc(w, s)
    decreases |s|
  {
    if s != [] {
      ByteStepIsRegisterStep(w, s[0]);
      CrcIsRegisterCrc(ByteStep(w, s[0]), s[1..]);
    }
  }

  lemma {:induction false} CrcConcat(w: bv16, s: seq<bv8>, t: seq<bv8>)
    ensures Crc(w, s + t) == Crc(Crc(w, s), t)
    decreases |s|
  {
    hide ByteStep;
    if s == [] {
      assert s + t == t;
    } else {
      assert (s + t)[1..] == s[1..] + t;
      CrcConcat(ByteStep(w, s[0]), s[1..], t);
    }
  }

  lemma CrcTwo(w: bv16, a: bv8, b: bv8)
    ensures Crc(w, [a, b]) == ByteStep(ByteStep(w, a), b)
  {
    hide ByteStep;
    assert [a, b][1..] == [b] && [b][1..] == [];
    assert Crc(ByteStep(w, a), [b]) == Crc(ByteStep(ByteStep(w, a), b), []);
  }

  lemma TwoStepsToZero(c: bv16, a: bv8, b: bv8)
    ensures ByteStep(ByteStep(c, a), b) == 0 <==> a == Low(c) && b == High(c)
  {
  }

  /** A received frame leaves residue zero exactly when its last two bytes are the CRC of the
      rest, low byte first. */
  lemma Residue(w: bv16, s: seq<bv8>, a: bv8, b: bv8)
    ensures Crc(w, s + [a, b]) == 0 <==> a == Low(Crc(w, s)) && b == High(Crc(w, s))
  {
    hide ByteStep, Low, High;
    CrcConcat(w, s, [a, b]);
    CrcTwo(Crc(w, s), a, b);
    TwoStepsToZero(Crc(w, s), a, b);
  }

  lemma XorInjective(a: bv16, b: bv16, c: bv16)
    requires a != b
    ensures Xor(a, c) != Xor(b, c)
  {
  }

  lemma StepInjective(v: bv16, w: bv16, b: bv8)
    requires v != w
    ensures ByteStep(v, b) != ByteStep(w, b)
  {
    hide ByteStep, BitSteps, Xor, Word;
    ByteStepIsRegisterStep(v, b);
    ByteStepIsRegisterStep(w, b);
    XorInjective(v, w, Word(b));
    BitStepsInjective(Xor(v, Word(b)), Xor(w, Word(b)), 8);
  }

  /** Two bytes in a row enter the register as one sixteen-bit word. */
  lemma TwoBytesAsWord(w: bv16, a: bv8, b: bv8)
    ensures ByteStep(ByteStep(w, a), b) == BitSteps(BitSteps(Xor(Xor(Word(a), Upper(b)), w), 8), 8)
  {
    hide ByteStep, BitSteps, Xor, Word, Upper;
    ByteStepIsRegisterStep(w, a);
    ByteStepIsRegisterStep(ByteStep(w, a), b);
    BitStepsLinear(Xor(w, Word(a)), Upper(b), 8);
    UpperHalfShifts(b);
    XorGroup(w, Word(a), Upper(b));
    XorGroup(w, Xor(Word(a), Upper(b)), w);
  }

  lemma WordsDiffer(a: bv8, b: bv8, c: bv8, d: bv8)
    requires a != c || b != d
    ensures Xor(Word(a), Upper(b)) != Xor(Word(c), Upper(d))
  {
  }

  lemma TwoStepsInjective(w: bv16, a: bv8, b: bv8, c: bv8, d: bv8)
    requires a != c || b != d
    ensures ByteStep(ByteStep(w, a), b) != ByteStep(ByteStep(w, c), d)
  {
    hide ByteStep, BitSteps, Xor, Word, Upper;
    TwoBytesAsWord(w, a, b);
    TwoBytesAsWord(w, c, d);
    WordsDiffer(a, b, c, d);
    XorInjective(Xor(Word(a), Upper(b)), Xor(Word(c), Upper(d)), w);
    var u, v := Xor(Xor(Word(a), Upper(b)), w), Xor(Xor(Word(c), Upper(d)), w);
    BitStepsInjective(u, v, 8);
    BitStepsInjective(BitSteps(u, 8), BitSteps(v, 8), 8);
  }

  lemma {:induction false} TailKeepsDifference(v: bv16, w: bv16, s: seq<bv8>)
    requires v != w
    ensures Crc(v, s) != Crc(w, s)
    decreases |s|
  {
    hide ByteStep;
    if s != [] {
      StepInjective(v, w, s[0]);
      TailKeepsDifference(ByteStep(v, s[0]), ByteStep(w, s[0]), s[1..]);
    }
  }

  /** Every error confined to two neighbouring bytes changes the CRC. */
  lemma PairDetected(w: bv16, p: seq<bv8>, a: bv8, b: bv8, c: bv8, d: bv8, q: seq<bv8>)
    requires a != c || b != d
    ensures Crc(w, p + [a, b] + q) != Crc(w, p + [c, d] + q)
  {
    hide ByteStep;
    var m := Crc(w, p);
    CrcConcat(w, p + [a, b], q);
    CrcConcat(w, p + [c, d], q);
    CrcConcat(w, p, [a, b]);
    CrcConcat(w, p, [c, d]);
    CrcTwo(m, a, b);
    CrcTwo(m, c, d);
    TwoStepsInjective(m, a, b, c, d);
    TailKeepsDifference(ByteStep(ByteStep(m, a), b), ByteStep(ByteStep(m, c), d), q);
  }

  // ---------- bursts across three bytes ----------

  function Grown(m: bv16): bv16 {
    (m << 1) | 1
  }

  /** The k lowest bits. */
  function Ones(k: nat): bv16 {
    if k == 0 then 0 else Grown(Ones(k - 1))
  }

  predicate Clear(v: bv16, m: bv16) {
    v & m == 0
  }

  predicate Within(v: bv16, m: bv16) {
    v & m == v
  }

  lemma OnesTable(k: nat)
    requires k <= 16
    ensures k <= 8 ==> Clear(Ones(k), 0xFF00)
    ensures k <= 15 ==> Clear(Ones(k), 0x8000)
    ensures Ones(16) == 0xFFFF
  {
    assert Ones(1) == 0x1 && Ones(2) == 0x3 && Ones(3) == 0x7 && Ones(4) == 0xF;
    assert Ones(5) == 0x1F && Ones(6) == 0x3F && Ones(7) == 0x7F && Ones(8) == 0xFF;
    assert Ones(9) == 0x1FF && Ones(10) == 0x3FF && Ones(11) == 0x7FF && Ones(12) == 0xFFF;
    assert Ones(13) == 0x1FFF && Ones(14) == 0x3FFF && Ones(15) == 0x7FFF && Ones(16) == 0xFFFF;
  }

  /** Bits go out lowest first. The differences d, anything and f of three neighbouring bytes lie
      within sixteen bits in a row, the first of them bit k of the first byte. */
  predicate BurstFrom(k: nat, d: bv8, f: bv8) {
    k <= 8 && Clear(Word(d), Ones(k)) && Within(Word(f), Ones(k))
  }

  /** So the first byte may differ from bit k on, and the third below it. */
  lemma BurstIs(k: nat, d: bv8, f: bv8)
    requires k <= 8
    ensures BurstFrom(k, d, f) <==> (d >> k) << k == d && f >> k == 0
  {
    OnesUpTo(k);
    assert k in {0, 1, 2, 3, 4, 5, 6, 7, 8};
  }

  lemma OnesUpTo(k: nat)
    requires k <= 8
    ensures Ones(0) == 0 && Ones(1) == 0x1 && Ones(2) == 0x3 && Ones(3) == 0x7 && Ones(4) == 0xF
    ensures Ones(5) == 0x1F && Ones(6) == 0x3F && Ones(7) == 0x7F && Ones(8) == 0xFF
  {
  }

  predicate LowClear(v: bv16, n: nat) {
    n == 0 || (!Odd(v) && LowClear(Half(v), n - 1))
  }

  function Halved(v: bv16, n: nat): bv16
    decreases n
  {
    if n == 0 then v else Halved(Half(v), n - 1)
  }

  function Twice(v: bv16): bv16 {
    v << 1
  }

  function Doubled(v: bv16, n: nat): bv16
    decreases n
  {
    if n == 0 then v else Twice(Doubled(v, n - 1))
  }

  /** Clear bits are only shifted out. */
  lemma {:induction false} ClearBitsShift(v: bv16, n: nat)
    requires LowClear(v, n)
    ensures BitSteps(v, n) == Halved(v, n)
    decreases n
  {
    hide Half, Odd;
    if n > 0 {
      ClearBitsShift(Half(v), n - 1);
    }
  }

  lemma {:induction false} ClearByMask(v: bv16, n: nat)
    requires n <= 16
    ensures LowClear(v, n) <==> Clear(v, Ones(n))
    decreases n
  {
    hide Half, Odd, Clear, Grown;
    ClearMasks(v);
    if n > 0 {
      OnesTable(n - 1);
      ClearByMask(Half(v), n - 1);
      MaskOne(v, Ones(n - 1));
    }
  }

  lemma ClearMasks(v: bv16)
    ensures Clear(v, 0)
  {
  }

  lemma MaskOne(v: bv16, m: bv16)
    ensures Clear(v, Grown(m)) <==> !Odd(v) && Clear(Half(v), m)
  {
    hide Clear, Grown, Odd, Half;
    if Clear(v, Grown(m)) {
      MaskDown(v, m);
    }
    if !Odd(v) && Clear(Half(v), m) {
      MaskUp(v, m);
    }
  }

  lemma MaskDown(v: bv16, m: bv16)
    requires Clear(v, Grown(m))
    ensures !Odd(v) && Clear(Half(v), m)
  {
  }

  lemma MaskUp(v: bv16, m: bv16)
    requires !Odd(v) && Clear(Half(v), m)
    ensures Clear(v, Grown(m))
  {
  }

  lemma {:induction false} ClearBoth(v: bv16, m: nat, n: nat)
    requires LowClear(v, m) && LowClear(Halved(v, m), n)
    ensures LowClear(v, m + n)
    decreases m
  {
    hide Half, Odd;
    if m > 0 {
      ClearBoth(Half(v), m - 1, n);
    }
  }

  lemma {:induction false} DoubledFits(v: bv16, n: nat, m: nat)
    requires m + n <= 16 && Within(v, Ones(m))
    ensures Within(Doubled(v, n), Ones(m + n))
    decreases n
  {
    hide Within, Grown, Twice, Half, Odd, Clear;
    if n > 0 {
      DoubledFits(v, n - 1, m);
      OnesTable(m + n - 1);
      DoubleOne(Doubled(v, n - 1), Ones(m + n - 1));
    }
  }

  lemma DoubleOne(v: bv16, m: bv16)
    requires Clear(m, 0x8000) && Within(v, m)
    ensures Within(Twice(v), Grown(m)) && Half(Twice(v)) == v && !Odd(Twice(v))
  {
  }

  /** Doubling within the word is undone by halving. */
  lemma {:induction false} DoubledHalved(v: bv16, n: nat, m: nat)
    requires m + n <= 16 && Within(v, Ones(m))
    ensures LowClear(Doubled(v, n), n) && Halved(Doubled(v, n), n) == v
    decreases n
  {
    hide Within, Grown, Twice, Half, Odd, Clear, Ones;
    if n > 0 {
      DoubledFits(v, n - 1, m);
      OnesTable(m + n - 1);
      DoubleOne(Doubled(v, n - 1), Ones(m + n - 1));
      DoubledHalved(v, n - 1, m);
    }
  }

  lemma {:induction false} StepsAdd(v: bv16, m: nat, n: nat)
    ensures BitSteps(v, m + n) == BitSteps(BitSteps(v, m), n)
    decreases m
  {
    hide BitStep;
    if m > 0 {
      StepsAdd(BitStep(v), m - 1, n);
    }
  }

  lemma {:induction false} HalvedZero(n: nat)
    ensures Halved(0, n) == 0
  {
    if n > 0 {
      assert Half(0) == 0;
      HalvedZero(n - 1);
    }
  }

  /** A burst that sixteen clocks turned into the third byte's difference would be no burst. */
  lemma BurstCancelled(d: bv8, e: bv8, f: bv8, k: nat)
    requires BurstFrom(k, d, f) && BitSteps(Xor(Word(d), Upper(e)), 16) == Word(f)
    ensures d == 0 && e == 0 && f == 0
  {
    hide BitSteps, Half, Odd, Halved, Doubled, LowClear, Xor, Word, Upper, Ones, Clear, Within, Grown;
    var v, x, n := Xor(Word(d), Upper(e)), Doubled(Word(f), 16 - k), 16 - k;
    OnesTable(k);
    LowOfPair(d, e, Ones(k));
    ClearByMask(v, k);
    ClearBitsShift(v, k);
    DoubledHalved(Word(f), n, k);
    ClearBitsShift(x, n);
    StepsAdd(v, k, n);
    SameBefore(Halved(v, k), x, n);
    ClearBoth(v, k, n);
    ClearByMask(v, 16);
    OnesTable(16);
    PairIsZero(d, e);
    HalvedZero(k);
    HalvedZero(n);
    WordIsZero(f);
  }

  lemma SameBefore(v: bv16, w: bv16, n: nat)
    requires BitSteps(v, n) == BitSteps(w, n)
    ensures v == w
  {
    if v != w {
      BitStepsInjective(v, w, n);
    }
  }

  lemma LowOfPair(d: bv8, e: bv8, m: bv16)
    requires Clear(m, 0xFF00) && Clear(Word(d), m)
    ensures Clear(Xor(Word(d), Upper(e)), m)
  {
  }

  lemma PairIsZero(d: bv8, e: bv8)
    requires Clear(Xor(Word(d), Upper(e)), 0xFFFF)
    ensures d == 0 && e == 0 && Xor(Word(d), Upper(e)) == 0
  {
  }

  lemma WordIsZero(f: bv8)
    ensures Word(f) == 0 ==> f == 0
  {
  }

  lemma XorCommon(z: bv16, a: bv16, b: bv16)
    ensures Xor(Xor(z, a), Xor(z, b)) == Xor(a, b)
  {
    hide Xor;
    XorGroup(z, a, Xor(z, b));
    XorGroup(a, z, b);
    XorGroup(z, a, b);
    XorGroup(z, Xor(a, b), b);
  }

  lemma XorUndone(a: bv16, b: bv16)
    ensures Xor(Xor(a, b), b) == a
  {
  }

  lemma XorApart(a: bv8, d: bv8)
    ensures Word(a ^ d) == Xor(Word(a), Word(d)) && Upper(a ^ d) == Xor(Upper(a), Upper(d))
    ensures a ^ d == 0 ==> a == d
  {
  }

  /** Two bytes of two messages lead to states that differ as their differences alone would. */
  lemma TwoBytesDifference(w: bv16, a: bv8, b: bv8, d: bv8, e: bv8)
    ensures Xor(ByteStep(ByteStep(w, a), b), ByteStep(ByteStep(w, d), e)) ==
            BitSteps(Xor(Word(a ^ d), Upper(b ^ e)), 16)
  {
    hide ByteStep, BitSteps, Xor, Word, Upper;
    TwoBytesAsWord(w, a, b);
    TwoBytesAsWord(w, d, e);
    var s, t := Xor(Word(a), Upper(b)), Xor(Word(d), Upper(e));
    StepsAdd(Xor(s, w), 8, 8);
    StepsAdd(Xor(t, w), 8, 8);
    BitStepsLinear(Xor(s, w), Xor(t, w), 16);
    XorGroup(s, w, w);
    XorGroup(t, w, w);
    XorCommon(w, s, t);
    XorApart(a, d);
    XorApart(b, e);
    XorSquare(Word(a), Upper(b), Word(d), Upper(e));
  }

  lemma XorSquare(a: bv16, b: bv16, c: bv16, d: bv16)
    ensures Xor(Xor(a, b), Xor(c, d)) == Xor(Xor(a, c), Xor(b, d))
  {
    hide Xor;
    XorGroup(a, b, Xor(c, d));
    XorGroup(b, c, d);
    XorGroup(c, b, d);
    XorGroup(a, c, Xor(b, d));
  }

  /** Three bytes that lead from one state to one state differ by no burst. */
  lemma ThreeStepsInjective(w: bv16, a: bv8, b: bv8, c: bv8, d: bv8, e: bv8, f: bv8, k: nat)
    requires BurstFrom(k, a ^ d, c ^ f)
    requires ByteStep(ByteStep(ByteStep(w, a), b), c) == ByteStep(ByteStep(ByteStep(w, d), e), f)
    ensures a == d && b == e && c == f
  {
    hide ByteStep, BitSteps, Xor, Word, Upper, BurstFrom;
    var s, t := ByteStep(ByteStep(w, a), b), ByteStep(ByteStep(w, d), e);
    ByteStepIsRegisterStep(s, c);
    ByteStepIsRegisterStep(t, f);
    SameBefore(Xor(s, Word(c)), Xor(t, Word(f)), 8);
    XorAcross(s, Word(c), t, Word(f));
    TwoBytesDifference(w, a, b, d, e);
    XorApart(a, d);
    XorApart(b, e);
    XorApart(c, f);
    BurstCancelled(a ^ d, b ^ e, c ^ f, k);
  }

  lemma XorAcross(s: bv16, c: bv16, t: bv16, f: bv16)
    requires Xor(s, c) == Xor(t, f)
    ensures Xor(s, t) == Xor(c, f)
  {
    hide Xor;
    XorUndone(s, c);
    XorUndone(t, f);
    XorCommon(Xor(s, c), c, f);
  }

  /** Every burst of up to sixteen bits changes the CRC, wherever in the message it lies: in two
      neighbouring bytes (PairDetected) or, as here, in three. */
  lemma BurstDetected(w: bv16, p: seq<bv8>, a: bv8, b: bv8, c: bv8, d: bv8, e: bv8, f: bv8, k: nat, q: seq<bv8>)
    requires BurstFrom(k, a ^ d, c ^ f) && (a != d || b != e || c != f)
    ensures Crc(w, p + [a, b, c] + q) != Crc(w, p + [d, e, f] + q)
  {
    hide ByteStep, BurstFrom;
    var m := Crc(w, p);
    CrcConcat(w, p + [a, b, c], q);
    CrcConcat(w, p + [d, e, f], q);
    CrcConcat(w, p, [a, b, c]);
    CrcConcat(w, p, [d, e, f]);
    CrcThree(m, a, b, c);
    CrcThree(m, d, e, f);
    if Crc(m, [a, b, c]) == Crc(m, [d, e, f]) {
      ThreeStepsInjective(m, a, b, c, d, e, f, k);
    }
    TailKeepsDifference(Crc(m, [a, b, c]), Crc(m, [d, e, f]), q);
  }

  lemma CrcThree(w: bv16, a: bv8, b: bv8, c: bv8)
    ensures Crc(w, [a, b, c]) == ByteStep(ByteStep(ByteStep(w, a), b), c)
  {
    hide ByteStep;
    assert [a, b, c][1..] == [b, c];
    CrcTwo(ByteStep(w, a), b, c);
  }

  /** Seventeen bits are too many: the generator itself goes unnoticed, wherever it is added. */
  lemma SeventeenBitsMissed(w: bv16, p: seq<bv8>, a: bv8, b: bv8, c: bv8, q: seq<bv8>)
    ensures Crc(w, p + [a, b, c] + q) == Crc(w, p + [a ^ 0x11, b ^ 0x08, c ^ 0x01] + q)
  {
    hide ByteStep;
    var m := Crc(w, p);
    CrcConcat(w, p + [a, b, c], q);
    CrcConcat(w, p + [a ^ 0x11, b ^ 0x08, c ^ 0x01], q);
    CrcConcat(w, p, [a, b, c]);
    CrcConcat(w, p, [a ^ 0x11, b ^ 0x08, c ^ 0x01]);
    CrcThree(m, a, b, c);
    CrcThree(m, a ^ 0x11, b ^ 0x08, c ^ 0x01);
    GeneratorVanishes(m, a, b, c);
  }

  lemma GeneratorVanishes(w: bv16, a: bv8, b: bv8, c: bv8)
    ensures ByteStep(ByteStep(ByteStep(w, a), b), c) ==
            ByteStep(ByteStep(ByteStep(w, a ^ 0x11), b ^ 0x08), c ^ 0x01)
  {
    hide ByteStep, BitSteps, Xor, Word, Upper;
    var s, t := ByteStep(ByteStep(w, a), b), ByteStep(ByteStep(w, a ^ 0x11), b ^ 0x08);
    var f := c ^ 0x01;
    TwoBytesDifference(w, a, b, a ^ 0x11, b ^ 0x08);
    assert a ^ (a ^ 0x11) == 0x11 && b ^ (b ^ 0x08) == 0x08 && c ^ f == 0x01;
    GeneratorSteps();
    XorApart(c, f);
    XorAcross(s, t, Word(c), Word(f));
    ByteStepIsRegisterStep(s, c);
    ByteStepIsRegisterStep(t, f);
  }

  lemma GeneratorSteps()
    ensures BitSteps(Xor(Word(0x11), Upper(0x08)), 16) == Word(0x01)
  {
    assert Xor(Word(0x11), Upper(0x08)) == 0x0811;
    StepsAdd(0x0811, 8, 8);
    EightSteps(0x0811);
    EightSteps(BitSteps(0x0811, 8));
  }

  /** So a frame that checks to zero no longer does after such an error. */
  lemma BurstRejected(w: bv16, p: seq<bv8>, a: bv8, b: bv8, c: bv8, d: bv8, e: bv8, f: bv8, k: nat, q: seq<bv8>)
    requires BurstFrom(k, a ^ d, c ^ f) && (a != d || b != e || c != f) && Crc(w, p + [a, b, c] + q) == 0
    ensures Crc(w, p + [d, e, f] + q) != 0
  {
    BurstDetected(w, p, a, b, c, d, e, f, k, q);
  }

  method Crc16A(data: array<bv8>, size: nat) returns (lo: bv8, hi: bv8)
    requires size <= data.Length
    ensures lo == Low(RegisterCrc(PRESET, data[..size])) && hi == High(RegisterCrc(PRESET, data[..size]))
    ensures Crc(PRESET, data[..size] + [lo, hi]) == 0
  {
    hide ByteStep, Low, High;
    var w := PRESET;
    var i := 0;
    assert data[..0] == [];
    while i < size
      invariant i <= size && w == Crc(PRESET, data[..i])
    {
      var s := data[..i];
      CrcConcat(PRESET, s, [data[i]]);
      assert data[..i + 1] == s + [data[i]];
      assert [data[i]][1..] == [];
      assert Crc(w, [data[i]]) == Crc(ByteStep(w, data[i]), []);
      w := ByteStep(w, data[i]);
      i := i + 1;
    }
    lo, hi := Low(w), High(w);
    CrcIsRegisterCrc(PRESET, data[..size]);
    Residue(PRESET, data[..size], lo, hi);
  }

  /** The two examples of Annex B. */
  lemma StandardExamples()
    ensures Low(Crc(PRESET, [0x00, 0x00])) == 0xA0 && High(Crc(PRESET, [0x00, 0x00])) == 0x1E
    ensures Low(Crc(PRESET, [0x12, 0x34])) == 0x26 && High(Crc(PRESET, [0x12, 0x34])) == 0xCF
  {
    CrcTwo(PRESET, 0x00, 0x00);
    CrcTwo(PRESET, 0x12, 0x34);
  }

  /** The fixed bytes of ecpData; the others are zero at first. */
  const ECP_HEAD: seq<bv8> := [0x6A, 0x02, 0xCB, 0x02, 0x06, 0x02, 0x11, 0x00]

  /** Both places that load the reader group id into the frame: copy it to offset 8, where ten bytes
      are left, and put the CRC of the first sixteen bytes behind them. Whatever the group id, the
      frame checks to zero; an id of more than eight bytes loses the others to the CRC. */
  method LoadGroupId(ecpData: array<bv8>, gid: seq<bv8>)
    requires ecpData.Length == 18 && |gid| <= 10
    modifies ecpData
    ensures forall i :: 0 <= i < 16 ==>
              ecpData[i] == if 8 <= i < 8 + |gid| then gid[i - 8] else old(ecpData[i])
    ensures Crc(PRESET, ecpData[..]) == 0
  {
    forall i | 0 <= i < |gid| {
      ecpData[8 + i] := gid[i];
    }
    var lo, hi := Crc16A(ecpData, 16);
    ghost var s := ecpData[..16];
    ecpData[16], ecpData[17] := lo, hi;
    assert ecpData[..] == s + [lo, hi];
  }

  /** The frame of a lock with a group id of eight bytes. */
  method EcpFrame(gid: seq<bv8>) returns (ecpData: array<bv8>)
    requires |gid| == 8
    ensures fresh(ecpData) && ecpData.Length == 18 && ecpData[..16] == ECP_HEAD + gid && Crc(PRESET, ecpData[..]) == 0
  {
    ecpData := new bv8[18](i => if 0 <= i < 8 then ECP_HEAD[i] else 0);
    LoadGroupId(ecpData, gid);
  }
}
