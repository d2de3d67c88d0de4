/** The seeded 32-bit generator of the load generator. */
module Xorshift {

  // ----- one step -----

  datatype Shift = Left13 | Right17 | Left5

  function By13(x: bv32): bv32 { x << 13 }

  function By17(x: bv32): bv32 { x >> 17 }

  function By5(x: bv32): bv32 { x << 5 }

  function Shifted(shift: Shift, x: bv32): bv32 {
    match shift
    case Left13 => By13(x)
    case Right17 => By17(x)
    case Left5 => By5(x)
  }

  function Xor(a: bv32, b: bv32): bv32 { a ^ b }

  function Scramble(shift: Shift, x: bv32): bv32 { Xor(x, Shifted(shift, x)) }

  function NextState(x: bv32): bv32 { Scramble(Left5, Scramble(Right17, Scramble(Left13, x))) }

  // ----- the laws of the words -----

  lemma Associates(a: bv32, b: bv32, c: bv32)
    ensures Xor(Xor(a, b), c) == Xor(a, Xor(b, c))
  {
  }

  lemma Cancels(a: bv32, b: bv32)
    ensures Xor(a, Xor(a, b)) == b && Xor(a, b) == Xor(b, a) && Xor(a, 0) == a && Xor(a, a) == 0
  {
  }

  lemma Distributes13(a: bv32, b: bv32)
    ensures By13(Xor(a, b)) == Xor(By13(a), By13(b)) && By13(0) == 0
  {
  }

  lemma Distributes17(a: bv32, b: bv32)
    ensures By17(Xor(a, b)) == Xor(By17(a), By17(b)) && By17(0) == 0
  {
  }

  lemma Distributes5(a: bv32, b: bv32)
    ensures By5(Xor(a, b)) == Xor(By5(a), By5(b)) && By5(0) == 0
  {
  }

  lemma Distributes(shift: Shift, a: bv32, b: bv32)
    ensures Shifted(shift, Xor(a, b)) == Xor(Shifted(shift, a), Shifted(shift, b)) && Shifted(shift, 0) == 0
  {
    hide Xor, By13, By17, By5;
    Distributes13(a, b);
    Distributes17(a, b);
    Distributes5(a, b);
  }

  /** A word shifted a number of times. */
  function Repeated(shift: Shift, times: nat, x: bv32): bv32 {
    if times == 0 then x else Shifted(shift, Repeated(shift, times - 1, x))
  }

  lemma ShiftedOut13(x: bv32)
    ensures By13(By13(By13(x))) == 0
  {
  }

  lemma ShiftedOut17(x: bv32)
    ensures By17(By17(x)) == 0
  {
  }

  lemma ShiftedOut5(x: bv32)
    ensures By5(By5(By5(By5(By5(By5(By5(x))))))) == 0
  {
  }

  lemma SevenTimes(shift: Shift, x: bv32)
    ensures Repeated(shift, 7, x)
         == Shifted(shift,
             Shifted(shift, Shifted(shift, Shifted(shift, Shifted(shift, Shifted(shift, Shifted(shift, x)))))))
  {
    hide Shifted;
    assert Repeated(shift, 1, x) == Shifted(shift, x);
    assert Repeated(shift, 2, x) == Shifted(shift, Repeated(shift, 1, x));
    assert Repeated(shift, 4, x) == Shifted(shift, Shifted(shift, Repeated(shift, 2, x)));
    assert Repeated(shift, 6, x) == Shifted(shift, Shifted(shift, Repeated(shift, 4, x)));
  }

  /** Seven times is enough to shift every bit out. */
  lemma ShiftedOut(shift: Shift, x: bv32)
    ensures Repeated(shift, 7, x) == 0
  {
    hide By13, By17, By5;
    SevenTimes(shift, x);
    match shift
    case Left13 =>
      ShiftedOut13(By13(By13(By13(By13(x)))));
    case Right17 =>
      ShiftedOut17(By17(By17(By17(By17(By17(x))))));
    case Left5 =>
      ShiftedOut5(x);
  }

  // ----- undoing a step -----

  /** Solving y = x xor shifted x for x, by putting each answer into the right side again. */
  function Solved(shift: Shift, rounds: nat, y: bv32): bv32 {
    if rounds == 0 then 0 else Xor(y, Shifted(shift, Solved(shift, rounds - 1, y)))
  }

  function Unscramble(shift: Shift, y: bv32): bv32 { Solved(shift, 7, y) }

  /** What an answer still differs by is shifted once more in each round. */
  lemma {:induction false} DifferenceShifts(shift: Shift, rounds: nat, x: bv32)
    ensures Xor(x, Solved(shift, rounds, Scramble(shift, x))) == Repeated(shift, rounds, x)
  {
    hide Xor, Shifted;
    if rounds == 0 {
      Cancels(x, 0);
    } else {
      var y, z := Scramble(shift, x), Solved(shift, rounds - 1, Scramble(shift, x));
      DifferenceShifts(shift, rounds - 1, x);
      Distributes(shift, x, z);
      Associates(x, Shifted(shift, x), Shifted(shift, z));
      Cancels(x, Xor(Shifted(shift, x), Shifted(shift, z)));
    }
  }

  lemma {:induction false} RoundsDiffer(shift: Shift, rounds: nat, y: bv32)
    ensures Xor(Solved(shift, rounds + 1, y), Solved(shift, rounds, y)) == Repeated(shift, rounds, y)
  {
    hide Xor, Shifted;
    if rounds == 0 {
      Distributes(shift, 0, 0);
      Cancels(y, 0);
    } else {
      var z, w := Solved(shift, rounds, y), Solved(shift, rounds - 1, y);
      RoundsDiffer(shift, rounds - 1, y);
      Distributes(shift, z, w);
      Cancels(y, Shifted(shift, z));
      Associates(Shifted(shift, z), y, Xor(y, Shifted(shift, w)));
      Cancels(y, Shifted(shift, w));
    }
  }

  lemma {:induction false} SameIfNoDifference(a: bv32, b: bv32)
    requires Xor(a, b) == 0
    ensures a == b
  {
    hide Xor;
    Cancels(a, b);
    Cancels(a, 0);
  }

  lemma ScrambleIsBijection(shift: Shift, x: bv32)
    ensures Unscramble(shift, Scramble(shift, x)) == x && Scramble(shift, Unscramble(shift, x)) == x
  {
    hide Xor, Shifted;
    ShiftedOut(shift, x);
    DifferenceShifts(shift, 7, x);
    SameIfNoDifference(x, Unscramble(shift, Scramble(shift, x)));
    var z := Unscramble(shift, x);
    RoundsDiffer(shift, 7, x);
    SameIfNoDifference(Solved(shift, 8, x), z);
    assert z == Xor(x, Shifted(shift, z));
    Associates(x, Shifted(shift, z), Shifted(shift, z));
    Cancels(Shifted(shift, z), 0);
    Cancels(x, 0);
  }

  /** The state a state came from. */
  function PreviousState(y: bv32): bv32 { Unscramble(Left13, Unscramble(Right17, Unscramble(Left5, y))) }

  /** Each step is a bijection on words, and keeps the nonzero ones apart from zero. */
  lemma StepIsBijection(x: bv32)
    ensures PreviousState(NextState(x)) == x && NextState(PreviousState(x)) == x
    ensures NextState(x) == 0 <==> x == 0
  {
    hide NextState, PreviousState;
    StepInverts(x);
    StepInverts(0);
    ZeroStays();
  }

  lemma StepInverts(x: bv32)
    ensures PreviousState(NextState(x)) == x && NextState(PreviousState(x)) == x
  {
    hide Scramble, Unscramble;
    ScrambleIsBijection(Left13, x);
    ScrambleIsBijection(Right17, Scramble(Left13, x));
    ScrambleIsBijection(Left5, Scramble(Right17, Scramble(Left13, x)));
    ScrambleIsBijection(Left5, x);
    ScrambleIsBijection(Right17, Unscramble(Left5, x));
    ScrambleIsBijection(Left13, Unscramble(Right17, Unscramble(Left5, x)));
  }

  lemma ZeroStays()
    ensures NextState(0) == 0
  {
  }

  lemma StepIsInjective(x: bv32, y: bv32)
    requires NextState(x) == NextState(y)
    ensures x == y
  {
    hide NextState, PreviousState;
    StepInverts(x);
    StepInverts(y);
  }

  // ----- the seed -----

  /** The UTF-16 code unit of a character. */
  function CodeUnit(c: char): bv32 { (c as int % 0x1_0000) as bv32 }

  function HashFrom(hash: bv32, text: string): bv32
    decreases |text|
  {
    if text == "" then hash else HashFrom(Mix(hash, CodeUnit(text[0])), text[1..])
  }

  function Times(x: bv32): bv32 { x * 16777619 }

  function Mix(hash: bv32, unit: bv32): bv32 { Times(Xor(hash, unit)) }

  /** The multiplier is odd, so a product with it can be undone modulo 2 to the 32. */
  function Undone(x: bv32): bv32 { x * 0x359c449b }

  lemma ProductUndone(x: bv32)
    ensures Undone(x * 16777619) == x
  {
  }

  lemma TimesUndone(x: bv32)
    ensures Undone(Times(x)) == x
  {
    hide Undone;
    ProductUndone(x);
  }

  lemma SameXor(a: bv32, b: bv32, c: bv32)
    requires Xor(a, b) == Xor(a, c)
    ensures b == c
  {
    hide Xor;
    Cancels(a, b);
    Cancels(a, c);
  }

  /** A hash determines the one before it from the unit, and the unit from the one before. */
  lemma MixIsInjective(hash: bv32, unit: bv32, hash2: bv32, unit2: bv32)
    requires Mix(hash, unit) == Mix(hash2, unit2)
    ensures hash == hash2 <==> unit == unit2
  {
    hide Times, Undone, Xor;
    TimesUndone(Xor(hash, unit));
    TimesUndone(Xor(hash2, unit2));
    if hash == hash2 {
      SameXor(hash, unit, unit2);
    }
    if unit == unit2 {
      Cancels(hash, unit);
      Cancels(hash2, unit);
      SameXor(unit, hash, hash2);
    }
  }

  lemma {:induction false} HashIsInjective(hash: bv32, hash2: bv32, text: string)
    requires hash != hash2
    ensures HashFrom(hash, text) != HashFrom(hash2, text)
    decreases |text|
  {
    hide Mix, CodeUnit;
    if text != "" {
      var unit := CodeUnit(text[0]);
      if Mix(hash, unit) == Mix(hash2, unit) {
        MixIsInjective(hash, unit, hash2, unit);
      }
      HashIsInjective(Mix(hash, unit), Mix(hash2, unit), text[1..]);
    }
  }

  /** The texts have the same length and differ in exactly one code unit. */
  ghost predicate DifferInOneUnit(a: string, b: string) {
    && |a| == |b|
    && exists i | 0 <= i < |a| :: CodeUnit(a[i]) != CodeUnit(b[i]) && a[..i] == b[..i] && a[i + 1..] == b[i + 1..]
  }

  lemma {:induction false} HashAfterPrefix(hash: bv32, prefix: string, rest: string)
    ensures HashFrom(hash, prefix + rest) == HashFrom(HashFrom(hash, prefix), rest)
    decreases |prefix|
  {
    hide Mix, CodeUnit;
    if prefix == "" {
      assert prefix + rest == rest;
    } else {
      assert (prefix + rest)[0] == prefix[0] && (prefix + rest)[1..] == prefix[1..] + rest;
      HashAfterPrefix(Mix(hash, CodeUnit(prefix[0])), prefix[1..], rest);
    }
  }

  /** Changing one code unit of a seed changes its hash. */
  lemma OneUnitChangesTheHash(hash: bv32, a: string, b: string)
    requires DifferInOneUnit(a, b)
    ensures HashFrom(hash, a) != HashFrom(hash, b)
  {
    hide Mix, CodeUnit, HashFrom;
    var i :| 0 <= i < |a| && CodeUnit(a[i]) != CodeUnit(b[i]) && a[..i] == b[..i] && a[i + 1..] == b[i + 1..];
    var before := HashFrom(hash, a[..i]);
    HashOfSplit(hash, a, i);
    HashOfSplit(hash, b, i);
    if Mix(before, CodeUnit(a[i])) == Mix(before, CodeUnit(b[i])) {
      MixIsInjective(before, CodeUnit(a[i]), before, CodeUnit(b[i]));
    }
    HashIsInjective(Mix(before, CodeUnit(a[i])), Mix(before, CodeUnit(b[i])), a[i + 1..]);
  }

  lemma HashOfSplit(hash: bv32, text: string, i: nat)
    requires i < |text|
    ensures HashFrom(hash, text) == HashFrom(Mix(HashFrom(hash, text[..i]), CodeUnit(text[i])), text[i + 1..])
  {
    hide Mix, CodeUnit;
    assert text == text[..i] + text[i..] && text[i..][0] == text[i] && text[i..][1..] == text[i + 1..];
    HashAfterPrefix(hash, text[..i], text[i..]);
  }

  const OFFSET_BASIS: bv32 := 2166136261
  const FALLBACK: bv32 := 0x9e3779b9

  function SeedState(seed: string): (state: bv32)
    ensures state != 0
  {
    if HashFrom(OFFSET_BASIS, seed) == 0 then FALLBACK else HashFrom(OFFSET_BASIS, seed)
  }

  /** No seed that differs in one code unit has the same hash. */
  method HashSeed(seed: string) returns (hash: bv32)
    ensures hash == HashFrom(OFFSET_BASIS, seed)
    ensures forall other | DifferInOneUnit(seed, other) :: HashFrom(OFFSET_BASIS, other) != hash
  {
    hash := OFFSET_BASIS;
    hide Mix, CodeUnit;
    for i := 0 to |seed|
      invariant HashFrom(OFFSET_BASIS, seed) == HashFrom(hash, seed[i..])
    {
      hash := Mix(hash, CodeUnit(seed[i]));
      assert seed[i..][1..] == seed[i + 1..];
    }
    forall other | DifferInOneUnit(seed, other)
      ensures HashFrom(OFFSET_BASIS, other) != HashFrom(OFFSET_BASIS, seed)
    {
      OneUnitChangesTheHash(OFFSET_BASIS, seed, other);
    }
  }

  /** The state after a number of draws. */
  function StateAfter(seed: string, draws: nat): (state: bv32)
    ensures state != 0
  {
    if draws == 0 then SeedState(seed)
    else
      StepIsBijection(StateAfter(seed, draws - 1));
      NextState(StateAfter(seed, draws - 1))
  }

  // ----- the numbers that are drawn -----

  lemma XorIs(a: bv32, b: bv32)
    ensures Xor(a, b) == a ^ b
  {
  }

  lemma Shift13(x: bv32)
    ensures Shifted(Left13, x) == x << 13
  {
    hide By17, By5;
  }

  lemma Shift17(x: bv32)
    ensures Shifted(Right17, x) == x >> 17
  {
    hide By13, By5;
  }

  lemma Shift5(x: bv32)
    ensures Shifted(Left5, x) == x << 5
  {
    hide By13, By17;
  }

  lemma ScrambleIs(shift: Shift, x: bv32, shifted: bv32)
    requires shifted == Shifted(shift, x)
    ensures Scramble(shift, x) == x ^ shifted
  {
    hide Shifted, Xor;
    XorIs(x, shifted);
  }

  /** One step: xor with the word shifted left by 13, the result with itself shifted right by 17, and that
      with itself shifted left by 5. */
  lemma StepIs(x: bv32, a: bv32, b: bv32, by13: bv32, by17: bv32, by5: bv32)
    requires by13 == x << 13 && a == x ^ by13
    requires by17 == a >> 17 && b == a ^ by17
    requires by5 == b << 5
    ensures NextState(x) == b ^ by5
  {
    hide Scramble, Shifted;
    Shift13(x);
    ScrambleIs(Left13, x, by13);
    Shift17(a);
    ScrambleIs(Right17, a, by17);
    Shift5(b);
    ScrambleIs(Left5, b, by5);
  }

  lemma TimesIs(x: bv32)
    ensures Times(x) == x * 16777619
  {
  }

  lemma MixIs(hash: bv32, unit: bv32)
    ensures Mix(hash, unit) == (hash ^ unit) * 16777619
  {
    hide Times, Xor;
    XorIs(hash, unit);
    TimesIs(hash ^ unit);
  }

  lemma CodeUnitIs(c: char)
    ensures CodeUnit(c) == (c as int % 65536) as bv32
  {
  }

  lemma HashOfNothing()
    ensures HashFrom(OFFSET_BASIS, "") == 2166136261
  {
    hide Mix;
  }

  lemma HashOfMore(text: string, c: char)
    ensures HashFrom(OFFSET_BASIS, text + [c]) == Mix(HashFrom(OFFSET_BASIS, text), CodeUnit(c))
  {
    hide Mix, CodeUnit;
    HashAfterPrefix(OFFSET_BASIS, text, [c]);
    assert [c][1..] == "";
    assert HashFrom(HashFrom(OFFSET_BASIS, text), [c]) == Mix(HashFrom(OFFSET_BASIS, text), CodeUnit(c));
  }

  /** Each code unit is mixed in after those before it. */
  lemma HashIs(text: string, c: char, hash: bv32, unit: bv32)
    requires hash == HashFrom(OFFSET_BASIS, text) && unit == (c as int % 65536) as bv32
    ensures HashFrom(OFFSET_BASIS, text + [c]) == (hash ^ unit) * 16777619
  {
    hide HashFrom, Mix, CodeUnit;
    HashOfMore(text, c);
    CodeUnitIs(c);
    MixIs(hash, unit);
  }

  /** The generator starts from the hash, or from the fixed word if that is zero. */
  lemma SeedStateIs(seed: string)
    ensures SeedState(seed)
         == if HashFrom(OFFSET_BASIS, seed) != 0 then HashFrom(OFFSET_BASIS, seed) else 2654435769
  {
  }

  /** The numbers of the first draws of the default run identifier. */
  lemma DemoNumbers()
    ensures AsNumber(StateAfter("demo", 1)) == 52810363 && AsNumber(StateAfter("demo", 2)) == 2486646542
  {
    hide StateAfter;
    DemoDraws();
  }

  /** The first draws of the default run identifier. */
  lemma DemoDraws()
    ensures HashFrom(OFFSET_BASIS, "demo") == 2935829814
    ensures StateAfter("demo", 1) == 52810363 && StateAfter("demo", 2) == 2486646542
  {
    hide HashFrom, NextState, SeedState;
    DemoHash();
    SeedStateIs("demo");
    DemoSteps();
    assert StateAfter("demo", 0) == 2935829814;
    assert StateAfter("demo", 1) == NextState(StateAfter("demo", 0));
    assert StateAfter("demo", 2) == NextState(StateAfter("demo", 1));
  }

  lemma DemoHash()
    ensures HashFrom(OFFSET_BASIS, "demo") == 2935829814
  {
    hide HashFrom;
    HashOfNothing();
    HashIs("", 'd', 2166136261, 100);
    assert "" + ['d'] == "d";
    HashIs("d", 'e', 3775669363, 101);
    assert "d" + ['e'] == "de";
    HashIs("de", 'm', 1545391778, 109);
    assert "de" + ['m'] == "dem";
    HashIs("dem", 'o', 3495530461, 111);
    assert "dem" + ['o'] == "demo";
  }

  lemma DemoSteps()
    ensures NextState(2935829814) == 52810363 && NextState(52810363) == 2486646542
  {
    hide NextState;
    StepIs(2935829814, 140244278, 140243227, 2795945984, 1069, 192815968);
    StepIs(52810363, 3110777467, 3110792910, 3125764096, 23733, 761125312);
  }

  function AsNumber(x: bv32): (n: nat)
    ensures n < 0x1_0000_0000 && (n == 0 <==> x == 0)
  {
    x as nat
  }

  /** A draw stands for itself divided by 2 to the 32. */
  class Random {
    var state: bv32
    ghost const seed: string
    ghost var draws: nat

    ghost predicate Valid()
      reads this
    {
      state == StateAfter(seed, draws)
    }

    constructor (text: string)
      ensures Valid() && seed == text && draws == 0
    {
      var hash := HashSeed(text);
      state := if hash == 0 then FALLBACK else hash;
      seed := text;
      draws := 0;
    }

    /** Strictly between 0 and 1, and fixed by the seed and the number of draws before. */
    method Next() returns (draw: nat)
      requires Valid()
      modifies this
      ensures Valid() && draws == old(draws) + 1
      ensures 0 < draw < 0x1_0000_0000 && draw == AsNumber(StateAfter(seed, draws))
    {
      hide Xor, Shifted;
      var x := state;
      x := Xor(x, Shifted(Left13, x));
      x := Xor(x, Shifted(Right17, x));
      x := Xor(x, Shifted(Left5, x));
      state := x;
      draws := draws + 1;
      assert state == StateAfter(seed, draws);
      draw := AsNumber(state);
    }
  }

  /** A state that comes back was reached first at the seed: the draws repeat only by running through
      the whole cycle of the seed's state. */
  lemma {:induction false} RepeatsGoBack(seed: string, i: nat, j: nat)
    requires i < j && StateAfter(seed, i) == StateAfter(seed, j)
    ensures StateAfter(seed, j - i) == SeedState(seed)
    decreases i
  {
    hide NextState;
    if i > 0 {
      StepIsInjective(StateAfter(seed, i - 1), StateAfter(seed, j - 1));
      RepeatsGoBack(seed, i - 1, j - 1);
    }
  }
}
