/**
  The xorwow generator of `random32.c`. One call shifts five lanes and steps a
  counter. The step is a bijection of the six-word state, so a state with a
  non-zero lane never leads to the all-zero lanes in which the generator sticks.
 */
module Random32 {

  // The value of `struct prng_state`.
  datatype State = State(l0: bv32, l1: bv32, l2: bv32, l3: bv32, l4: bv32, counter: bv32) {
    predicate Degenerate() {
      l0 == 0 && l1 == 0 && l2 == 0 && l3 == 0 && l4 == 0
    }
  }

  const COUNTER_STEP: bv32 := 0x587c5

  // ------------------------------------------------------ words

  function Xor(a: bv32, b: bv32): bv32 {
    a ^ b
  }

  // Sum and difference modulo 2^32.
  function Add(a: bv32, b: bv32): bv32 {
    a + b
  }

  function Sub(a: bv32, b: bv32): bv32 {
    a - b
  }

  function MixRight(v: bv32): bv32 {
    v ^ (v >> 2)
  }

  function MixLeft(v: bv32): bv32 {
    v ^ (v << 1)
  }

  // What the newest lane adds.
  function Spread(v: bv32): bv32 {
    v ^ (v << 4)
  }

  function UnmixRight(v: bv32): bv32 {
    v ^ (v >> 2) ^ (v >> 4) ^ (v >> 6) ^ (v >> 8) ^ (v >> 10) ^ (v >> 12) ^ (v >> 14)
      ^ (v >> 16) ^ (v >> 18) ^ (v >> 20) ^ (v >> 22) ^ (v >> 24) ^ (v >> 26) ^ (v >> 28) ^ (v >> 30)
  }

  function Mix2(v: bv32): bv32 {
    v ^ (v << 2)
  }

  function Mix4(v: bv32): bv32 {
    v ^ (v << 4)
  }

  function Mix8(v: bv32): bv32 {
    v ^ (v << 8)
  }

  function Mix16(v: bv32): bv32 {
    v ^ (v << 16)
  }

  function UnmixLeft(v: bv32): bv32 {
    Mix16(Mix8(Mix4(Mix2(MixLeft(v)))))
  }

  // Mixing twice is mixing with the double distance.
  lemma MixTwice1(v: bv32)
    ensures MixLeft(MixLeft(v)) == Mix2(v)
  {
    calc {
      MixLeft(MixLeft(v));
      MixLeft(v ^ (v << 1));
      (v ^ (v << 1)) ^ ((v ^ (v << 1)) << 1);
      v ^ (v << 2);
      Mix2(v);
    }
  }

  lemma MixTwice2(v: bv32)
    ensures Mix2(Mix2(v)) == Mix4(v)
  {
    calc {
      Mix2(Mix2(v));
      Mix2(v ^ (v << 2));
      (v ^ (v << 2)) ^ ((v ^ (v << 2)) << 2);
      v ^ (v << 4);
      Mix4(v);
    }
  }

  lemma MixTwice4(v: bv32)
    ensures Mix4(Mix4(v)) == Mix8(v)
  {
    calc {
      Mix4(Mix4(v));
      Mix4(v ^ (v << 4));
      (v ^ (v << 4)) ^ ((v ^ (v << 4)) << 4);
      v ^ (v << 8);
      Mix8(v);
    }
  }

  lemma MixTwice8(v: bv32)
    ensures Mix8(Mix8(v)) == Mix16(v)
  {
    calc {
      Mix8(Mix8(v));
      Mix8(v ^ (v << 8));
      (v ^ (v << 8)) ^ ((v ^ (v << 8)) << 8);
      v ^ (v << 16);
      Mix16(v);
    }
  }

  lemma MixTwice16(v: bv32)
    ensures Mix16(Mix16(v)) == v
  {
    calc {
      Mix16(Mix16(v));
      Mix16(v ^ (v << 16));
      (v ^ (v << 16)) ^ ((v ^ (v << 16)) << 16);
      v;
    }
  }

  lemma MixSwaps2(v: bv32)
    ensures MixLeft(Mix2(v)) == Mix2(MixLeft(v))
  {
    calc {
      MixLeft(Mix2(v));
      MixLeft(v ^ (v << 2));
      (v ^ (v << 2)) ^ ((v ^ (v << 2)) << 1);
      (v ^ (v << 1)) ^ ((v ^ (v << 1)) << 2);
      Mix2(v ^ (v << 1));
      Mix2(MixLeft(v));
    }
  }

  lemma MixSwaps4(v: bv32)
    ensures MixLeft(Mix4(v)) == Mix4(MixLeft(v))
  {
    calc {
      MixLeft(Mix4(v));
      MixLeft(v ^ (v << 4));
      (v ^ (v << 4)) ^ ((v ^ (v << 4)) << 1);
      (v ^ (v << 1)) ^ ((v ^ (v << 1)) << 4);
      Mix4(v ^ (v << 1));
      Mix4(MixLeft(v));
    }
  }

  lemma MixSwaps8(v: bv32)
    ensures MixLeft(Mix8(v)) == Mix8(MixLeft(v))
  {
    calc {
      MixLeft(Mix8(v));
      MixLeft(v ^ (v << 8));
      (v ^ (v << 8)) ^ ((v ^ (v << 8)) << 1);
      (v ^ (v << 1)) ^ ((v ^ (v << 1)) << 8);
      Mix8(v ^ (v << 1));
      Mix8(MixLeft(v));
    }
  }

  lemma MixSwaps16(v: bv32)
    ensures MixLeft(Mix16(v)) == Mix16(MixLeft(v))
  {
    calc {
      MixLeft(Mix16(v));
      MixLeft(v ^ (v << 16));
      (v ^ (v << 16)) ^ ((v ^ (v << 16)) << 1);
      (v ^ (v << 1)) ^ ((v ^ (v << 1)) << 16);
      Mix16(v ^ (v << 1));
      Mix16(MixLeft(v));
    }
  }

  lemma LeftInverse(v: bv32)
    ensures UnmixLeft(MixLeft(v)) == v
    ensures MixLeft(UnmixLeft(v)) == v
  {
    hide MixLeft, Mix2, Mix4, Mix8, Mix16;
    MixTwice1(v);
    MixTwice2(v);
    MixTwice4(v);
    MixTwice8(v);
    MixTwice16(v);
    var a := Mix2(MixLeft(v));
    var b := Mix4(a);
    var c := Mix8(b);
    MixSwaps16(c);
    MixSwaps8(b);
    MixSwaps4(a);
    MixSwaps2(MixLeft(v));
  }

  lemma RightThenBack(v: bv32)
    ensures UnmixRight(MixRight(v)) == v
  {
    calc {
      UnmixRight(MixRight(v));
      UnmixRight(v ^ (v >> 2));
      (v ^ (v >> 2)) ^ ((v ^ (v >> 2)) >> 2) ^ ((v ^ (v >> 2)) >> 4) ^ ((v ^ (v >> 2)) >> 6)
        ^ ((v ^ (v >> 2)) >> 8) ^ ((v ^ (v >> 2)) >> 10) ^ ((v ^ (v >> 2)) >> 12) ^ ((v ^ (v >> 2)) >> 14)
        ^ ((v ^ (v >> 2)) >> 16) ^ ((v ^ (v >> 2)) >> 18) ^ ((v ^ (v >> 2)) >> 20) ^ ((v ^ (v >> 2)) >> 22)
        ^ ((v ^ (v >> 2)) >> 24) ^ ((v ^ (v >> 2)) >> 26) ^ ((v ^ (v >> 2)) >> 28) ^ ((v ^ (v >> 2)) >> 30);
      v;
    }
  }

  lemma BackThenRight(v: bv32)
    ensures MixRight(UnmixRight(v)) == v
  {
    var u := v ^ (v >> 2) ^ (v >> 4) ^ (v >> 6) ^ (v >> 8) ^ (v >> 10) ^ (v >> 12) ^ (v >> 14)
               ^ (v >> 16) ^ (v >> 18) ^ (v >> 20) ^ (v >> 22) ^ (v >> 24) ^ (v >> 26) ^ (v >> 28) ^ (v >> 30);
    assert u ^ (u >> 2) == v;
    calc {
      MixRight(UnmixRight(v));
      MixRight(u);
      u ^ (u >> 2);
      v;
    }
  }

  lemma XorTwice(a: bv32, b: bv32)
    ensures Xor(Xor(a, b), b) == a
  {
  }

  lemma ZeroIsFixed()
    ensures UnmixRight(UnmixLeft(0)) == 0 && Spread(0) == 0 && Xor(0, 0) == 0
  {
  }

  lemma CounterBack(c: bv32)
    ensures Sub(Add(c, COUNTER_STEP), COUNTER_STEP) == c
    ensures Add(Sub(c, COUNTER_STEP), COUNTER_STEP) == c
  {
  }

  // ------------------------------------------------------ states

  function Next(s: State): State {
    State(Xor(MixLeft(MixRight(s.l4)), Spread(s.l0)), s.l0, s.l1, s.l2, s.l3, Add(s.counter, COUNTER_STEP))
  }

  function Output(s: State): bv32 {
    Add(Next(s).l0, Next(s).counter)
  }

  // The state one call earlier.
  function Previous(s: State): State {
    State(s.l1, s.l2, s.l3, s.l4, UnmixRight(UnmixLeft(Xor(s.l0, Spread(s.l1)))), Sub(s.counter, COUNTER_STEP))
  }

  function Run(s: State, n: nat): State
    decreases n
  {
    if n == 0 then s else Run(Next(s), n - 1)
  }

  function Rewind(s: State, n: nat): State
    decreases n
  {
    if n == 0 then s else Previous(Rewind(s, n - 1))
  }

  // A lane of the seed: some of its bits, and an offset that tells the lanes apart.
  function Masked(seed: bv32, offset: bv32, mask: bv32): bv32 {
    offset + (seed & mask)
  }

  function Seeded(seed: bv32): State {
    Run(State(Masked(seed, 1, 0x0fff_ffff), Masked(seed, 2, 0xff0f_ffff), Masked(seed, 3, 0xfff0_0fff),
              Masked(seed, 4, 0xffff_f0ff), Masked(seed, 5, 0xffff_fff0), seed), 8)
  }

  // The step is a bijection: Previous undoes it on either side.
  lemma StepIsBijective(s: State)
    ensures Previous(Next(s)) == s
    ensures Next(Previous(s)) == s
  {
    hide Xor, Add, Sub, MixLeft, MixRight, UnmixLeft, UnmixRight, Spread;
    CounterBack(s.counter);
    RightThenBack(s.l4);
    LeftInverse(MixRight(s.l4));
    XorTwice(MixLeft(MixRight(s.l4)), Spread(s.l0));
    var w := Xor(s.l0, Spread(s.l1));
    LeftInverse(w);
    BackThenRight(UnmixLeft(w));
    XorTwice(s.l0, Spread(s.l1));
  }

  // Two states with the same successor are the same state.
  lemma StepIsInjective(s: State, t: State)
    requires Next(s) == Next(t)
    ensures s == t
  {
    hide *;
    StepIsBijective(s);
    StepIsBijective(t);
  }

  // A run of any length can be rewound to its start.
  lemma {:induction false} RunRewinds(s: State, n: nat)
    ensures Rewind(Run(s, n), n) == s
    decreases n
  {
    hide Next, Previous;
    if n == 0 {
    } else {
      RunRewinds(Next(s), n - 1);
      StepIsBijective(s);
    }
  }

  lemma DegenerateBackwards(s: State)
    requires Next(s).Degenerate()
    ensures s.Degenerate()
  {
    hide Xor, Add, Sub, MixLeft, MixRight, UnmixLeft, UnmixRight, Spread;
    StepIsBijective(s);
    ZeroIsFixed();
  }

  lemma {:induction false} NeverDegenerates(s: State, n: nat)
    requires !s.Degenerate()
    ensures !Run(s, n).Degenerate()
    decreases n
  {
    hide Next;
    if n == 0 {
    } else {
      if Next(s).Degenerate() {
        DegenerateBackwards(s);
      }
      NeverDegenerates(Next(s), n - 1);
    }
  }

  lemma FirstLaneSeeded(seed: bv32)
    ensures Masked(seed, 1, 0x0fff_ffff) != 0
  {
  }

  // From no seed does any number of calls reach the all-zero lanes.
  lemma SeedNeverDegenerates(seed: bv32, n: nat)
    ensures !Run(Seeded(seed), n).Degenerate()
  {
    hide Run, Next, Masked;
    FirstLaneSeeded(seed);
    var s := State(Masked(seed, 1, 0x0fff_ffff), Masked(seed, 2, 0xff0f_ffff), Masked(seed, 3, 0xfff0_0fff),
                   Masked(seed, 4, 0xffff_f0ff), Masked(seed, 5, 0xffff_fff0), seed);
    NeverDegenerates(s, 8);
    NeverDegenerates(Seeded(seed), n);
  }

  // The first output for the seeds of section 3.1 of Marsaglia, "Xorshift RNGs", 2003.
  lemma KnownOutput()
    ensures Output(State(5783321, 88675123, 521288629, 362436069, 123456789, 6615241)) == 246875399
  {
  }

  lemma KnownSeed()
    ensures Output(Seeded(0x89ab_cdef)) == 0xbc0a_6d55
  {
    var s0 := State(0x09ab_cdf0, 0x890b_cdf1, 0x89a0_0df2, 0x89ab_c0f3, 0x89ab_cde5, 0x89ab_cdef);
    var s1 := State(0x6f54_5154, 0x09ab_cdf0, 0x890b_cdf1, 0x89a0_0df2, 0x89ab_c0f3, 0x89b1_55b4);
    var s2 := State(0x6652_1545, 0x6f54_5154, 0x09ab_cdf0, 0x890b_cdf1, 0x89a0_0df2, 0x89b6_dd79);
    var s3 := State(0xff2b_5287, 0x6652_1545, 0x6f54_5154, 0x09ab_cdf0, 0x890b_cdf1, 0x89bc_653e);
    var s4 := State(0xf045_3960, 0xff2b_5287, 0x6652_1545, 0x6f54_5154, 0x09ab_cdf0, 0x89c1_ed03);
    var s5 := State(0xe855_ecf4, 0xf045_3960, 0xff2b_5287, 0x6652_1545, 0x6f54_5154, 0x89c7_74c8);
    var s6 := State(0xf088_ecb7, 0xe855_ecf4, 0xf045_3960, 0xff2b_5287, 0x6652_1545, 0x89cc_fc8d);
    var s7 := State(0x784d_97fb, 0xf088_ecb7, 0xe855_ecf4, 0xf045_3960, 0xff2b_5287, 0x89d2_8452);
    var s8 := State(0xbdb6_6221, 0x784d_97fb, 0xf088_ecb7, 0xe855_ecf4, 0xf045_3960, 0x89d8_0c17);
    assert Next(s0) == s1;
    assert Next(s1) == s2;
    assert Next(s2) == s3;
    assert Next(s3) == s4;
    assert Next(s4) == s5;
    assert Next(s5) == s6;
    assert Next(s6) == s7;
    assert Next(s7) == s8;
  }

  // ------------------------------------------------------ the code

  class Prng {
    const lane: array<bv32>
    var counter: bv32

    ghost predicate Valid()
      reads this, lane
    {
      lane.Length == 5
    }

    ghost function Value(): State
      requires Valid()
      reads this, lane
    {
      State(lane[0], lane[1], lane[2], lane[3], lane[4], counter)
    }

    // `static struct prng_state prng`
    constructor ()
      ensures Valid() && fresh(lane)
      ensures Value() == State(1, 2, 3, 4, 5, 0)
    {
      lane := new bv32[5] [1, 2, 3, 4, 5];
      counter := 0;
    }

    method GetRandom() returns (r: bv32)
      requires Valid()
      modifies this, lane
      ensures Valid()
      ensures Value() == Next(old(Value()))
      ensures r == Output(old(Value()))
      ensures lane[1..] == old(lane[..4])
      ensures counter == Add(old(counter), 0x587c5) && r == Add(lane[0], counter)
    {
      hide Xor, Add, MixLeft, MixRight, Spread;
      var buffer := lane[4];
      lane[4] := lane[3];
      lane[3] := lane[2];
      lane[2] := lane[1];
      lane[1] := lane[0];
      buffer := MixRight(buffer);
      buffer := MixLeft(buffer);
      buffer := Xor(buffer, Spread(lane[0]));
      lane[0] := buffer;
      counter := Add(counter, COUNTER_STEP);
      r := Add(buffer, counter);
    }

    method Seed(seed: bv32)
      requires Valid()
      modifies this, lane
      ensures Valid()
      ensures Value() == Seeded(seed)
    {
      hide Next, Output, Masked;
      counter := seed;
      lane[0] := Masked(seed, 1, 0x0fff_ffff);
      lane[1] := Masked(seed, 2, 0xff0f_ffff);
      lane[2] := Masked(seed, 3, 0xfff0_0fff);
      lane[3] := Masked(seed, 4, 0xffff_f0ff);
      lane[4] := Masked(seed, 5, 0xffff_fff0);
      ghost var start := Value();
      for x := 0 to 8
        invariant Valid()
        invariant Run(Value(), 8 - x) == Run(start, 8)
      {
        var _ := GetRandom();
      }
    }
  }
}
