/** The 128-bit xorshift generator of c++/src/benchmark/common.h. */
module FastRand {

  datatype Words = Words(x: bv32, y: bv32, z: bv32, w: bv32)

  const ZERO: Words := Words(0, 0, 0, 0)
  const SEED: Words := Words(0x1d2acd47, 0x58ca3e14, 0xf563f232, 0x0bc76199)

  // The operations on 32-bit words, named so that proofs can treat them as opaque.
  function Xor(a: bv32, b: bv32): bv32 { a ^ b }
  function Shl11(a: bv32): bv32 { a << 11 }
  function Shr8(a: bv32): bv32 { a >> 8 }
  function Shr19(a: bv32): bv32 { a >> 19 }

  function Left(x: bv32): bv32 { Xor(x, Shl11(x)) }
  function Right(t: bv32): bv32 { Xor(t, Shr8(t)) }
  function Mix(w: bv32): bv32 { Xor(w, Shr19(w)) }

  /** One step of the generator. */
  function Step(s: Words): Words {
    Words(s.y, s.z, s.w, Xor(Mix(s.w), Right(Left(s.x))))
  }

  function UnLeft(t: bv32): bv32 { Xor(t, Xor(Shl11(t), Shl11(Shl11(t)))) }
  function UnRight(m: bv32): bv32 { Xor(Xor(m, Shr8(m)), Xor(Shr8(Shr8(m)), Shr8(Shr8(Shr8(m))))) }

  /** The state before a step. */
  function Back(s: Words): Words {
    Words(UnLeft(UnRight(Xor(s.w, Mix(s.z)))), s.x, s.y, s.z)
  }

  lemma XorAssociates(a: bv32, b: bv32, c: bv32)
    ensures Xor(Xor(a, b), c) == Xor(a, Xor(b, c))
  {
  }

  lemma ShlXor(a: bv32, b: bv32)
    ensures Shl11(Xor(a, b)) == Xor(Shl11(a), Shl11(b))
  {
  }

  lemma ShrXor(a: bv32, b: bv32)
    ensures Shr8(Xor(a, b)) == Xor(Shr8(a), Shr8(b))
  {
  }

  lemma ShiftedOut(a: bv32)
    ensures Shl11(Shl11(Shl11(a))) == 0
    ensures Shr8(Shr8(Shr8(Shr8(a)))) == 0
  {
  }

  /** Terms that occur twice cancel. */
  lemma Cancel(a: bv32, b: bv32)
    ensures Xor(Xor(a, b), a) == b && Xor(a, Xor(b, a)) == b && Xor(Xor(a, b), b) == a
  {
  }

  lemma CancelThree(a: bv32, b: bv32, c: bv32)
    ensures Xor(Xor(a, Xor(b, c)), Xor(b, Xor(c, 0))) == a
    ensures Xor(Xor(a, b), Xor(Xor(b, c), Xor(c, 0))) == a
  {
    hide Xor;
    XorWithZero(c);
    Cancel(b, c);
    Cancel(a, b);
    Cancel(a, Xor(b, c));
  }

  lemma XorWithZero(a: bv32)
    ensures Xor(a, 0) == a
  {
  }

  lemma CancelFour(a: bv32, b: bv32, c: bv32, d: bv32)
    ensures Xor(Xor(Xor(a, b), Xor(c, d)), Xor(Xor(b, c), Xor(d, 0))) == a
  {
    hide Xor;
    XorAssociates(Xor(a, b), Xor(c, d), Xor(Xor(b, c), Xor(d, 0)));
    var z := Xor(c, Xor(d, 0));
    XorAssociates(b, c, Xor(d, 0));
    XorAssociates(a, b, Xor(Xor(c, d), Xor(b, z)));
    Telescope(b, c, d);
    Cancel(a, b);
  }

  lemma Telescope(b: bv32, c: bv32, d: bv32)
    ensures Xor(Xor(c, d), Xor(b, Xor(c, Xor(d, 0)))) == b
  {
    hide Xor;
    XorWithZero(d);
    Cancel(Xor(c, d), b);
  }

  lemma CancelPairs(a: bv32, b: bv32, c: bv32, d: bv32)
    ensures Xor(Xor(Xor(a, b), Xor(b, c)), Xor(Xor(c, d), Xor(d, 0))) == a
  {
    hide Xor;
    CancelMiddle(a, b, c);
    CancelThree(c, d, d);
    CancelMiddle(a, c, d);
    CancelMiddle(Xor(a, c), d, 0);
    CancelThree(a, c, d);
  }

  lemma CancelMiddle(a: bv32, b: bv32, c: bv32)
    ensures Xor(Xor(a, b), Xor(b, c)) == Xor(a, c)
  {
  }

  lemma LeftInverse(x: bv32)
    ensures UnLeft(Left(x)) == x && Left(UnLeft(x)) == x
  {
    hide Xor, Shl11;
    var a, b := Shl11(x), Shl11(Shl11(x));
    ShlXor(x, a);
    ShlXor(a, b);
    ShlXor(x, Xor(a, b));
    ShiftedOut(x);
    CancelThree(x, a, b);
  }

  lemma RightInverse(t: bv32)
    ensures UnRight(Right(t)) == t && Right(UnRight(t)) == t
  {
    hide Xor, Shr8;
    var a, b, c := Shr8(t), Shr8(Shr8(t)), Shr8(Shr8(Shr8(t)));
    ShrXor(t, a);
    ShrXor(a, b);
    ShrXor(b, c);
    ShrXor(Xor(t, a), Xor(b, c));
    ShiftedOut(t);
    CancelFour(t, a, b, c);
    CancelPairs(t, a, b, c);
  }

  /** Every step can be undone, and every state is the result of a step. */
  lemma StepIsBijective(s: Words)
    ensures Back(Step(s)) == s && Step(Back(s)) == s
  {
    hide Xor, Left, Right, Mix, UnLeft, UnRight;
    var r := Right(Left(s.x));
    Cancel(Mix(s.w), r);
    LeftInverse(s.x);
    RightInverse(Left(s.x));
    var m := Xor(s.w, Mix(s.z));
    LeftInverse(UnRight(m));
    RightInverse(m);
    Cancel(Mix(s.z), s.w);
  }

  function Steps(s: Words, n: nat): Words
    decreases n
  {
    if n == 0 then s else Steps(Step(s), n - 1)
  }

  /** Runs of the same length from different states never meet. */
  lemma {:induction false} RunsNeverMeet(a: Words, b: Words, n: nat)
    requires a != b
    ensures Steps(a, n) != Steps(b, n)
    decreases n
  {
    if n == 0 {
    } else {
      hide Step, Back;
      StepIsBijective(a);
      StepIsBijective(b);
      RunsNeverMeet(Step(a), Step(b), n - 1);
    }
  }

  lemma {:induction false} ZeroStays(n: nat)
    ensures Steps(ZERO, n) == ZERO
  {
    if n == 0 {
    } else {
      assert Step(ZERO) == ZERO;
      ZeroStays(n - 1);
    }
  }

  /** Only the all-zero seed ever reaches the all-zero state; any other seed is OK. */
  lemma ZeroOnlyFromZero(seed: Words, n: nat)
    ensures Steps(seed, n) == ZERO <==> seed == ZERO
  {
    ZeroStays(n);
    if seed != ZERO {
      RunsNeverMeet(seed, ZERO, n);
    }
  }

  /** nextFastRand and its static variables. */
  class Generator {
    var x: bv32
    var y: bv32
    var z: bv32
    var w: bv32

    function State(): Words
      reads this
    {
      Words(x, y, z, w)
    }

    constructor ()
      ensures State() == SEED == Words(0x1d2acd47, 0x58ca3e14, 0xf563f232, 0x0bc76199)
    {
      x, y, z, w := 0x1d2acd47, 0x58ca3e14, 0xf563f232, 0x0bc76199;
    }

    method NextFastRand() returns (r: bv32)
      modifies this
      ensures State() == Step(old(State())) && r == w
      ensures x == old(y) && y == old(z) && z == old(w)
      ensures var tmp := Xor(old(x), Shl11(old(x)));
              w == Xor(Xor(Xor(old(w), Shr19(old(w))), tmp), Shr8(tmp))
      ensures old(State()) != ZERO ==> State() != ZERO
    {
      hide Xor, Shl11, Shr8, Shr19, Steps;
      NonZeroStep(State());
      var tmp := Xor(x, Shl11(x));
      XorAssociates(Mix(w), tmp, Shr8(tmp));
      x := y;
      y := z;
      z := w;
      w := Xor(Xor(Xor(w, Shr19(w)), tmp), Shr8(tmp));
      r := w;
    }
  }

  // The named operations in the operators of C++.

  lemma XorIs(a: bv32, b: bv32)
    ensures Xor(a, b) == a ^ b
  {
  }

  lemma Shl11Is(a: bv32)
    ensures Shl11(a) == a << 11
  {
  }

  lemma Shr8Is(a: bv32)
    ensures Shr8(a) == a >> 8
  {
  }

  lemma Shr19Is(a: bv32)
    ensures Shr19(a) == a >> 19
  {
  }

  lemma NonZeroStep(s: Words)
    ensures s != ZERO ==> Step(s) != ZERO
  {
    assert Steps(s, 1) == Steps(Step(s), 0) == Step(s);
    ZeroOnlyFromZero(s, 1);
  }
}
