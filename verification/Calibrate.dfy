/**
 Delay calibration (init/main.c) and the fixed-point scaling of __udelay (kernel/delay.c).
 The clock enters as a threshold: n delay loops started at a tick reach the next tick iff n >= T.
 */
module Calibrate {
  import opened Numbers

  const LPS_PREC := 8
  const HZ := 100

  // ---------------------------------------------------------------- 32-bit words and single bits

  function ShiftLeft(x: nat): nat { 2 * x % TWO32 }

  function ShiftRight(x: nat): nat { x / 2 }

  predicate HasBit(x: nat, bit: nat) { bit != 0 && x / bit % 2 == 1 }

  /** x | bit, for a single bit. */
  function Set(x: nat, bit: nat): nat { if bit == 0 || HasBit(x, bit) then x else x + bit }

  /** x & ~bit, for a single bit. */
  function Clear(x: nat, bit: nat): nat { if HasBit(x, bit) && x >= bit then x - bit else x }

  lemma SetFreshBit(m: nat, bit: nat)
    requires 0 < bit
    ensures Set(m * (2 * bit), bit) == m * (2 * bit) + bit
    ensures Clear(Set(m * (2 * bit), bit), bit) == m * (2 * bit)
  {
    var x := m * (2 * bit);
    assert x == 2 * m * bit;
    DivModUnique(x, bit, 2 * m, 0);
    assert x + bit == (2 * m + 1) * bit;
    DivModUnique(x + bit, bit, 2 * m + 1, 0);
  }

  lemma {:induction false} Pow2Grows(a: nat, b: nat)
    requires a <= b
    ensures 0 < Pow2(a) <= Pow2(b)
  {
    if a < b { Pow2Grows(a, b - 1); } else if a > 0 { Pow2Grows(a - 1, a - 1); }
  }

  lemma Pow2Values()
    ensures Pow2(12) == 0x1000 && Pow2(31) == 0x8000_0000
  {
    assert Pow2(4) == 16;
    Pow2Sum(4, 4);
    Pow2Sum(8, 4);
    Pow2Sum(12, 12);
    Pow2Sum(24, 4);
    assert Pow2(28) == 0x1000_0000;
  }

  // ---------------------------------------------------------------- calibrate_delay

  /** k is the exponent calibrate_delay finds: the last power of two short of a tick. */
  predicate LastShortPower(k: nat, T: nat) { 12 <= k <= 30 && Pow2(k) < T <= Pow2(k + 1) }

  /** The doubling loop. */
  method Coarse(T: nat) returns (loops: nat, ghost k: nat)
    ensures T <= Pow2(12) ==> loops == Pow2(12) && k == 12
    ensures T > Pow2(31) ==> loops == 0
    ensures Pow2(12) < T <= Pow2(31) ==> LastShortPower(k, T) && loops == Pow2(k)
  {
    hide Pow2;
    Pow2Values();
    loops := 0x1000;
    k := 12;
    while true
      invariant 12 <= k <= 31 && loops == Pow2(k)
      invariant k == 12 || Pow2(k) < T
      decreases 31 - k
    {
      Doubled(k);
      loops := ShiftLeft(loops);
      if loops == 0 { break; }
      if loops >= T { break; }
      k := k + 1;
    }
    loops := ShiftRight(loops);
    Pow2Grows(12, k);
    if k < 31 { Pow2Grows(k + 1, 31); }
  }

  lemma Doubled(k: nat)
    requires k <= 31
    ensures k < 31 ==> ShiftLeft(Pow2(k)) == Pow2(k + 1) > 0 && ShiftRight(Pow2(k + 1)) == Pow2(k)
    ensures k == 31 ==> ShiftLeft(Pow2(k)) == 0
    ensures Pow2(k + 1) == 2 * Pow2(k)
  {
    Pow2Values();
    Pow2Grows(k, 31);
    if k < 31 { Pow2Grows(k + 1, 31); }
    hide Pow2;
    assert Pow2(k + 1) == 2 * Pow2(k) by { Pow2Double(k); }
  }

  lemma Pow2Double(k: nat)
    ensures Pow2(k + 1) == 2 * Pow2(k)
  {
  }

  /** loops is the largest multiple of bit that stays within a tick. */
  predicate Closest(loops: nat, bit: nat, T: nat) {
    0 < bit && loops % bit == 0 && loops < T <= loops + bit
  }

  lemma TrialUndone(loops: nat, bit: nat)
    requires 0 < bit && loops % (2 * bit) == 0
    ensures Set(loops, bit) == loops + bit && Clear(loops + bit, bit) == loops
    ensures loops % bit == 0 && (loops + bit) % bit == 0
  {
    var m := loops / (2 * bit);
    DivModIdentity(loops, 2 * bit);
    SetFreshBit(m, bit);
    assert loops == 2 * m * bit;
    DivModUnique(loops, bit, 2 * m, 0);
    assert loops + bit == (2 * m + 1) * bit;
    DivModUnique(loops + bit, bit, 2 * m + 1, 0);
  }

  /** One trial of the binary search halves the uncertainty. */
  lemma TrialHalves(loops: nat, bit: nat, T: nat)
    requires 0 < bit && Closest(loops, 2 * bit, T)
    ensures Closest(if loops + bit >= T then loops else loops + bit, bit, T)
  {
    TrialUndone(loops, bit);
  }

  /** One trial: set the bit, delay, and clear it again if the delay crossed a tick. */
  method TryBit(loops: nat, loopbit: nat, T: nat) returns (loops': nat)
    requires 0 < loopbit && loops % (2 * loopbit) == 0
    ensures loops' == if loops + loopbit >= T then loops else loops + loopbit
    ensures loops' % loopbit == 0
  {
    TrialUndone(loops, loopbit);
    hide *;
    loops' := Set(loops, loopbit);
    if loops' >= T {
      loops' := Clear(loops', loopbit);
    }
  }

  /** init/main.c, calibrate_delay. */
  method CalibrateDelay(T: nat) returns (loops: nat)
    ensures T <= Pow2(12) ==> loops == Pow2(12)
    ensures T > Pow2(31) ==> loops == 0
    ensures Pow2(12) < T <= Pow2(31) ==>
              exists k: nat ::
                12 <= k <= 30 && Pow2(k) < T <= Pow2(k + 1) && Pow2(k) <= loops && Closest(loops, Pow2(k - 8), T)
  {
    hide Pow2, Closest;
    ghost var k;
    loops, k := Coarse(T);
    loops := Refine(loops, T, k);
    assert Pow2(12) < T <= Pow2(31) ==> Closest(loops, Pow2(k - 8), T);
  }

  /** The binary search below the bit that the doubling loop has found. */
  method Refine(start: nat, T: nat, ghost k: nat) returns (loops: nat)
    requires T <= Pow2(12) ==> start == Pow2(12) && k == 12
    requires T > Pow2(31) ==> start == 0
    requires Pow2(12) < T <= Pow2(31) ==> LastShortPower(k, T) && start == Pow2(k)
    ensures T <= Pow2(12) ==> loops == Pow2(12)
    ensures T > Pow2(31) ==> loops == 0
    ensures Pow2(12) < T <= Pow2(31) ==> Pow2(k) <= loops && Closest(loops, Pow2(k - LPS_PREC), T)
  {
    hide Pow2, Closest, Set, Clear;
    loops := start;
    var loopbit, precision := loops, LPS_PREC;
    ghost var searching := Pow2(12) < T <= Pow2(31);
    SelfMultiple(k);
    if searching { StartClosest(k, T); }
    while true
      invariant 0 <= precision <= LPS_PREC
      invariant T <= Pow2(12) ==> loops == Pow2(12)
      invariant T > Pow2(31) ==> loops == 0 && loopbit == 0
      invariant T <= Pow2(31) ==> 0 < loopbit == Pow2(k - LPS_PREC + precision) && loops % loopbit == 0
      invariant searching ==> Pow2(k) <= loops && Closest(loops, loopbit, T)
      decreases precision
    {
      if precision == 0 { break; }
      precision := precision - 1;
      loopbit := ShiftRight(loopbit);
      if T <= Pow2(31) {
        Pow2Double(k - LPS_PREC + precision);
        SelfMultiple(k - LPS_PREC + precision);
      }
      if loopbit == 0 { break; }
      if searching { TrialHalves(loops, loopbit, T); }
      loops := TryBit(loops, loopbit, T);
    }
  }

  lemma SelfMultiple(k: nat)
    ensures 0 < Pow2(k) && Pow2(k) % Pow2(k) == 0
  {
    hide Pow2;
    Pow2Grows(k, k);
    DivModUnique(Pow2(k), Pow2(k), 1, 0);
  }

  lemma StartClosest(k: nat, T: nat)
    requires LastShortPower(k, T)
    ensures Closest(Pow2(k), Pow2(k), T)
  {
    hide Pow2;
    SelfMultiple(k);
    Pow2Double(k);
  }

  /** What the search leaves uncertain is at most 1/256 of the result. */
  lemma RelativeError(loops: nat, k: nat, T: nat)
    requires 12 <= k <= 30 && Pow2(k) < T <= Pow2(k + 1) && Pow2(k) <= loops && Closest(loops, Pow2(k - 8), T)
    ensures 0 < T - loops && 256 * (T - loops) <= loops
  {
    Pow2Sum(k - LPS_PREC, LPS_PREC);
    assert Pow2(8) == 256 by { Pow2Sum(4, 4); }
  }

  // ---------------------------------------------------------------- __udelay

  const SCALE := 0x10c6

  /** kernel/delay.c, __const_udelay: the high half of a 64-bit product, scaled to loops. */
  function ConstUdelay(xloops: nat, loopsPerJiffy: nat): nat {
    xloops * loopsPerJiffy / TWO32 * HZ % TWO32
  }

  /** kernel/delay.c, __udelay: the count passed to __delay for `usecs` microseconds. */
  function Udelay(usecs: nat, loopsPerJiffy: nat): nat { ConstUdelay(usecs * SCALE % TWO32, loopsPerJiffy) }

  /** Within the documented limit of 20000 microseconds no product leaves its word. */
  lemma NothingWraps(usecs: nat, lpj: nat)
    requires usecs <= 20000 && lpj < 0x8000_0000
    ensures Udelay(usecs, lpj) == usecs * SCALE * lpj / TWO32 * HZ
  {
    var x := usecs * SCALE;
    ProductBound(x, lpj);
    DivBound(x * lpj, TWO32, 42_940_001);
  }

  lemma ProductBound(x: nat, lpj: nat)
    requires x <= 85_880_000 && lpj < 0x8000_0000
    ensures x * lpj < TWO32 * 42_940_001
  {
    MulOrder(85_880_000, x, lpj);
  }

  /** A millionfold of the loops that usecs microseconds ask for. */
  function Ideal(usecs: nat, lpj: nat): nat { usecs * lpj * HZ }

  /** The count is never more than asked for, and less by under HZ loops and the fraction
      967296 / 2^32 that the rounding of 2^32 / 10^6 costs. */
  lemma UdelayAccuracy(usecs: nat, lpj: nat)
    requires usecs <= 20000 && lpj < 0x8000_0000
    ensures var ideal, got := usecs * lpj * 100, 1_000_000 * Udelay(usecs, lpj);
            got <= ideal && (ideal - got) * 0x1_0000_0000 < 100 * 1_000_000 * 0x1_0000_0000 + ideal * 967296
  {
    UdelayNearIdeal(usecs, lpj);
    hide Udelay;
  }

  lemma UdelayNearIdeal(usecs: nat, lpj: nat)
    requires usecs <= 20000 && lpj < 0x8000_0000
    ensures var ideal, got := Ideal(usecs, lpj), 1_000_000 * Udelay(usecs, lpj);
            got <= ideal && (ideal - got) * TWO32 < HZ * 1_000_000 * TWO32 + ideal * 967296
  {
    NothingWraps(usecs, lpj);
    hide Udelay;
    var y := usecs * lpj;
    assert usecs * SCALE * lpj == y * SCALE;
    var q, r := y * SCALE / TWO32, y * SCALE % TWO32;
    DivModIdentity(y * SCALE, TWO32);
    assert Udelay(usecs, lpj) == q * HZ;
    assert TWO32 == 1_000_000 * SCALE + 967296;
  }

  /** Calibration and scaling together: with a true tick of T loops, the count for `usecs` is no more
      than T promises, and at least 255/256 of it up to the errors of the scaling. */
  lemma CalibratedDelay(usecs: nat, loops: nat, k: nat, T: nat)
    requires usecs <= 20000 && 12 <= k <= 30 && Pow2(k) < T <= Pow2(k + 1)
    requires Pow2(k) <= loops && Closest(loops, Pow2(k - 8), T)
    ensures var ideal, got := usecs * T * 100, 1_000_000 * Udelay(usecs, loops);
            && got <= ideal
            && 256 * (ideal - got) * 0x1_0000_0000
               < 256 * 100 * 1_000_000 * 0x1_0000_0000 + ideal * (0x1_0000_0000 + 256 * 967296)
  {
    hide Udelay, Pow2, Closest;
    CalibratedNearIdeal(usecs, loops, k, T);
  }

  lemma CalibratedNearIdeal(usecs: nat, loops: nat, k: nat, T: nat)
    requires usecs <= 20000 && LastShortPower(k, T) && Pow2(k) <= loops && Closest(loops, Pow2(k - LPS_PREC), T)
    ensures var ideal, got := Ideal(usecs, T), 1_000_000 * Udelay(usecs, loops);
            got <= ideal && 256 * (ideal - got) * TWO32 < 256 * HZ * 1_000_000 * TWO32 + ideal * (TWO32 + 256 * 967296)
  {
    hide Udelay, Ideal, Pow2;
    RelativeError(loops, k, T);
    Pow2Values();
    Pow2Grows(k + 1, 31);
    UdelayNearIdeal(usecs, loops);
    ScaledGap(usecs, loops, T);
    ErrorsAdd(Ideal(usecs, loops), Ideal(usecs, T), 1_000_000 * Udelay(usecs, loops));
  }

  lemma ScaledGap(usecs: nat, loops: nat, T: nat)
    requires loops < T && 256 * (T - loops) <= loops
    ensures Ideal(usecs, loops) <= Ideal(usecs, T)
    ensures 256 * (Ideal(usecs, T) - Ideal(usecs, loops)) <= Ideal(usecs, loops)
  {
    var gap := T - loops;
    assert usecs * T == usecs * loops + usecs * gap;
    MulOrder(loops, 256 * gap, usecs);
    assert 256 * gap * usecs == 256 * (usecs * gap);
  }

  lemma ErrorsAdd(near: nat, ideal: nat, got: nat)
    requires got <= near <= ideal && 256 * (ideal - near) <= near
    requires (near - got) * TWO32 < HZ * 1_000_000 * TWO32 + near * 967296
    ensures 256 * (ideal - got) * TWO32 < 256 * HZ * 1_000_000 * TWO32 + ideal * (TWO32 + 256 * 967296)
  {
  }

  // ---------------------------------------------------------------- __loop_delay

  const SIGN_BIT := 0x8000_0000

  /** kernel/delay.c, __loop_delay: `decl; jns` counts down until the sign bit shows, which above
      2^31 is at once. */
  method LoopDelay(loops: nat) returns (rounds: nat)
    requires loops < TWO32
    ensures rounds == if loops <= 0x8000_0000 then loops + 1 else 1
    ensures rounds == Rounds(loops)
  {
    var eax := loops;
    rounds := 0;
    while true
      invariant (rounds == 0 && eax == loops) || (0 <= eax < SIGN_BIT && loops <= SIGN_BIT && rounds + eax == loops)
      decreases if rounds == 0 then 1 else 0, eax
    {
      eax := (eax + TWO32 - 1) % TWO32;
      rounds := rounds + 1;
      if eax >= SIGN_BIT { break; }
    }
  }

  function Rounds(loops: nat): nat { if loops <= SIGN_BIT then loops + 1 else 1 }

  /** The loop runs as often as __udelay asks, and once more, exactly when the scaled product stays
      below the sign bit; up to 10000 microseconds it always does. */
  lemma DelayRunsIff(usecs: nat, lpj: nat)
    requires usecs <= 20000 && lpj < SIGN_BIT
    ensures Rounds(Udelay(usecs, lpj)) == Udelay(usecs, lpj) + 1 <==> usecs * SCALE * lpj < 21_474_837 * TWO32
    ensures usecs <= 10000 ==> usecs * SCALE * lpj < 21_474_837 * TWO32
  {
    NothingWraps(usecs, lpj);
    hide Udelay;
    var x := usecs * SCALE * lpj;
    var q := x / TWO32;
    DivModIdentity(x, TWO32);
    assert x < 21_474_837 * TWO32 <==> q <= 21_474_836;
    assert Udelay(usecs, lpj) == q * HZ;
    if usecs <= 10000 { HalfProductBound(usecs * SCALE, lpj); }
  }

  lemma HalfProductBound(x: nat, lpj: nat)
    requires x <= 42_940_000 && lpj < SIGN_BIT
    ensures x * lpj < TWO32 * 21_474_837
  {
    MulOrder(42_940_000, x, lpj);
  }

  /** The longest delay on the fastest machine returns at once. */
  lemma DelayWitness(lpj: nat)
    requires lpj == SIGN_BIT - 1
    ensures Udelay(20000, lpj) > SIGN_BIT && Rounds(Udelay(20000, lpj)) == 1
  {
  }
}
