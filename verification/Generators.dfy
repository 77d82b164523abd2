/**
 The two linear congruential generators of the repository and the draws made from them:
 week6/multi_process.c (`lcg_rand`, `lcg_rand_range`, `generateRandomString`) with modulus 2^31 held in a
 64-bit unsigned long, and week3/genrand.c (`lcg`, `genRand`) with modulus 2^32 by wrap-around.
 */
module Generators {
  import opened Arithmetic
  import opened FullPeriod

  const TWO31: nat := 0x8000_0000
  const TWO32: nat := 0x1_0000_0000
  const TWO64: nat := 0x1_0000_0000_0000_0000
  const INT_MAX: nat := 0x7fff_ffff

  /** A C int is in range. */
  predicate IsInt(x: int) { -0x8000_0000 <= x <= INT_MAX }

  /** The range of a draw is a positive int, as the C expression `max - min + 1` needs. */
  predicate IsRange(min: int, max: int) { IsInt(min) && IsInt(max) && min <= max && max - min + 1 <= INT_MAX }

  lemma Moduli()
    ensures Pow2(31) == TWO31 && Pow2(32) == TWO32
  {
    assert Pow2(8) == 0x100;
    assert Pow2(16) == 0x1_0000;
    assert Pow2(24) == 0x100_0000;
  }

  /** Reducing modulo 2^64 first does not matter to a later reduction modulo 2^31. */
  lemma WrapThenMask(x: nat)
    ensures x % TWO64 % TWO31 == x % TWO31
  {
    DivMod(x, TWO64);
    ModAddMultiple(x % TWO64, TWO31, (x / TWO64) * (TWO64 / TWO31));
  }

  // ----- week6/multi_process.c

  const A6: nat := 1103515245
  const C6: nat := 12345

  /** The number of min..max drawn when the generator has come to `state`. */
  function Draw(state: nat, min: int, max: int): (r: int)
    requires min <= max
    ensures min <= r <= max && r - min == state % (max - min + 1)
  {
    DivMod(state, max - min + 1);
    min + state % (max - min + 1)
  }

  /** The letter drawn. */
  function Letter(state: nat): (c: char)
    ensures 'a' <= c <= 'z'
  {
    Draw(state, 'a' as int, 'z' as int) as char
  }

  lemma LetterDrawn(state: nat, letter: int)
    requires letter == Draw(state, 'a' as int, 'z' as int)
    ensures letter as char == Letter(state)
  {
    hide Draw;
  }

  lemma StateNext(seed: nat, n: nat)
    ensures State(A6, C6, TWO31, seed, 0) == seed
    ensures State(A6, C6, TWO31, seed, n + 1) == Next(A6, C6, TWO31, State(A6, C6, TWO31, seed, n))
  {
    hide Next;
  }

  /** The file-level `lcg_state`; an unsigned long, so the first state may be outside the modulus. */
  class Lcg31 {
    var state: nat

    ghost predicate Valid()
      reads this
    {
      state < TWO64
    }

    constructor (seed: nat)
      requires seed < TWO64
      ensures Valid() && state == seed
    {
      state := seed;
    }

    /** Multiplication and addition wrap at 2^64; `& 0x7fffffff` keeps the low 31 bits. */
    method LcgRand() returns (r: nat)
      requires Valid()
      modifies this
      ensures Valid() && r == state < TWO31
      ensures state == Next(A6, C6, TWO31, old(state))
      ensures state == (1103515245 * old(state) + 12345) % 0x8000_0000
    {
      ghost var before := state;
      state := (A6 * state + C6) % TWO64 % TWO31;
      r := state;
      WrapThenMask(A6 * before + C6);
    }

    method LcgRandRange(minVal: int, maxVal: int) returns (r: int)
      requires Valid() && IsRange(minVal, maxVal)
      modifies this
      ensures Valid() && state == Next(A6, C6, TWO31, old(state))
      ensures minVal <= r <= maxVal && r == Draw(state, minVal, maxVal)
    {
      var x := LcgRand();
      var range := maxVal - minVal + 1;
      r := x % range + minVal;
    }

    /** Fills the buffer with a NUL-terminated string of lower-case letters, one step of the generator each. */
    method GenerateRandomString(buffer: array<char>, minLen: nat, maxLen: nat) returns (length: nat)
      requires Valid() && IsRange(minLen, maxLen) && maxLen < buffer.Length
      modifies this, buffer
      ensures Valid() && minLen <= length <= maxLen
      ensures length == Draw(State(A6, C6, TWO31, old(state), 1), minLen, maxLen)
      ensures state == State(A6, C6, TWO31, old(state), length + 1)
      ensures buffer[length] == '\0' && buffer[length + 1..] == old(buffer[length + 1..])
      ensures forall i :: 0 <= i < length ==>
                buffer[i] == Letter(State(A6, C6, TWO31, old(state), i + 2))
    {
      hide State, Next, Letter, Draw;
      ghost var seed := state;
      StateNext(seed, 0);
      length := LcgRandRange(minLen, maxLen);
      FillLetters(buffer, length, seed);
      buffer[length] := '\0';
    }

    /** The loop of generateRandomString. */
    method FillLetters(buffer: array<char>, length: nat, ghost seed: nat)
      requires Valid() && length < buffer.Length && state == State(A6, C6, TWO31, seed, 1)
      modifies this, buffer
      ensures Valid() && state == State(A6, C6, TWO31, seed, length + 1)
      ensures forall j :: length <= j < buffer.Length ==> buffer[j] == old(buffer[j])
      ensures forall j :: 0 <= j < length ==> buffer[j] == Letter(State(A6, C6, TWO31, seed, j + 2))
    {
      hide State, Next, Letter, Draw;
      var i := 0;
      while i < length
        invariant 0 <= i <= length && Valid() && state == State(A6, C6, TWO31, seed, i + 1)
        invariant forall j :: i <= j < buffer.Length ==> buffer[j] == old(buffer[j])
        invariant forall j :: 0 <= j < i ==> buffer[j] == Letter(State(A6, C6, TWO31, seed, j + 2))
      {
        StateNext(seed, i + 1);
        var letter := LcgRandRange('a' as int, 'z' as int);
        LetterDrawn(state, letter);
        buffer[i] := letter as char;
        i := i + 1;
      }
    }
  }

  /** `lcg_rand` runs through all 2^31 states from any in-range seed before it repeats one. */
  lemma LcgRandFullPeriod(seed: nat, from: nat, target: nat)
    requires seed < TWO31 && target < TWO31
    ensures exists i :: OnlyStep(A6, C6, TWO31, seed, from, target, i)
  {
    hide Pow2, OnlyStep;
    Moduli();
    ExactlyOncePerPeriod(A6, C6, 31, seed, from, target);
  }

  /** Over any 2^31 draws `lcg_rand_range` gives each value as often as any other, up to one. */
  lemma LcgRandRangeEven(seed: nat, from: nat, minVal: int, maxVal: int, value: int)
    requires seed < TWO31 && IsRange(minVal, maxVal) && minVal <= value <= maxVal
    ensures var r := maxVal - minVal + 1;
            |DrawSteps(A6, C6, TWO31, seed, from, r, value - minVal)| ==
            TWO31 / r + (if value - minVal < TWO31 % r then 1 else 0)
  {
    hide Pow2, DrawSteps;
    Moduli();
    EvenDraw(A6, C6, 31, seed, from, maxVal - minVal + 1, value - minVal);
  }

  // ----- week3/genrand.c

  const A3: nat := 1664525
  const C3: nat := 1013904223

  /** Conversion of an int to unsigned int and back. */
  function ToUnsigned(x: int): nat
    requires IsInt(x)
  {
    x % TWO32
  }

  function ToInt(x: nat): int
    requires x < TWO32
  {
    if x <= INT_MAX then x else x - TWO32
  }

  /** An unsigned sum with a negative int wraps around to the signed sum. */
  lemma UnsignedSum(offset: nat, lo: int)
    requires IsInt(lo) && IsInt(lo + offset)
    ensures ToInt((offset + ToUnsigned(lo)) % TWO32) == lo + offset
  {
  }

  class Lcg32 {
    var seed: nat

    ghost predicate Valid()
      reads this
    {
      seed < TWO32
    }

    constructor (seed: nat)
      requires seed < TWO32
      ensures Valid() && this.seed == seed
    {
      this.seed := seed;
    }

    method Lcg() returns (r: nat)
      requires Valid()
      modifies this
      ensures Valid() && r == seed
      ensures seed == Next(A3, C3, TWO32, old(seed))
      ensures seed == (1664525 * old(seed) + 1013904223) % 0x1_0000_0000
    {
      seed := (A3 * seed + C3) % TWO32;
      r := seed;
    }

    /**
     The bounds may come in either order. The sum is taken in unsigned arithmetic and converted back
     to int, which gives the intended value for negative bounds too.
     */
    method GenRand(min: int, max: int) returns (r: int)
      requires Valid() && IsRange(if min > max then max else min, if min > max then min else max)
      modifies this
      ensures Valid() && seed == Next(A3, C3, TWO32, old(seed))
      ensures min <= r <= max || max <= r <= min
      ensures r - (if min > max then max else min) == seed % ((if min > max then min - max else max - min) + 1)
    {
      var lo, hi := min, max;
      if lo > hi {
        lo, hi := hi, lo;
      }
      var x := Lcg();
      var range := hi - lo + 1;
      DivMod(x, range);
      UnsignedSum(x % range, lo);
      r := ToInt((x % range + ToUnsigned(lo)) % TWO32);
    }
  }

  /** `lcg` runs through all 2^32 states from any seed before it repeats one. */
  lemma LcgFullPeriod(seed: nat, from: nat, target: nat)
    requires seed < TWO32 && target < TWO32
    ensures exists i :: OnlyStep(A3, C3, TWO32, seed, from, target, i)
  {
    hide Pow2, OnlyStep;
    Moduli();
    ExactlyOncePerPeriod(A3, C3, 32, seed, from, target);
  }

  /** Over any 2^32 draws `genRand` gives each value as often as any other, up to one. */
  lemma GenRandEven(seed: nat, from: nat, min: int, max: int, value: int)
    requires seed < TWO32 && IsRange(min, max) && min <= value <= max
    ensures var r := max - min + 1;
            |DrawSteps(A3, C3, TWO32, seed, from, r, value - min)| ==
            TWO32 / r + (if value - min < TWO32 % r then 1 else 0)
  {
    hide Pow2, DrawSteps;
    Moduli();
    EvenDraw(A3, C3, 32, seed, from, max - min + 1, value - min);
  }
}
