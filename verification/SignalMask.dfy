/** Signal masks as the kernel keeps them: one bit per signal in a 64-bit word. */
module SignalMask {
  import opened Signals

  /** `1 << sig`. */
  function Bit(s: Signal): bv64 {
    match s
    case Hup => 1 << 1 case Int => 1 << 2 case Quit => 1 << 3 case Kill => 1 << 9 case Usr1 => 1 << 10
    case Usr2 => 1 << 12 case Term => 1 << 15 case Chld => 1 << 17 case Cont => 1 << 18 case Stop => 1 << 19
  }

  // The word operations the kernel combines masks with.
  function Either(x: bv64, y: bv64): bv64 { x | y }
  function Minus(x: bv64, y: bv64): bv64 { x & !y }

  predicate Test(mask: bv64, b: bv64) { mask & b != 0 }

  predicate Holds(mask: bv64, s: Signal) { Test(mask, Bit(s)) }

  /** The signals of a mask; other bits mean nothing. */
  function SignalsIn(mask: bv64): set<Signal> {
    set s: Signal | Holds(mask, s)
  }

  lemma EmptyMask()
    ensures SignalsIn(0) == {}
  {
    forall s: Signal ensures !Holds(0, s) { }
  }

  /** Each signal has its own bit. */
  lemma OwnBit(s: Signal, t: Signal)
    ensures Holds(Bit(t), s) <==> s == t
  {
  }

  // One bit at a time, or and and-not are what they should be.

  lemma HupBit(x: bv64, y: bv64)
    ensures Test(Either(x, y), 1 << 1) <==> Test(x, 1 << 1) || Test(y, 1 << 1)
    ensures Test(Minus(x, y), 1 << 1) <==> Test(x, 1 << 1) && !Test(y, 1 << 1)
  {
    assert (x | y) & (1 << 1) != 0 <==> x & (1 << 1) != 0 || y & (1 << 1) != 0;
    assert x & !y & (1 << 1) != 0 <==> x & (1 << 1) != 0 && y & (1 << 1) == 0;
  }

  lemma IntBit(x: bv64, y: bv64)
    ensures Test(Either(x, y), 1 << 2) <==> Test(x, 1 << 2) || Test(y, 1 << 2)
    ensures Test(Minus(x, y), 1 << 2) <==> Test(x, 1 << 2) && !Test(y, 1 << 2)
  {
    assert (x | y) & (1 << 2) != 0 <==> x & (1 << 2) != 0 || y & (1 << 2) != 0;
    assert x & !y & (1 << 2) != 0 <==> x & (1 << 2) != 0 && y & (1 << 2) == 0;
  }

  lemma QuitBit(x: bv64, y: bv64)
    ensures Test(Either(x, y), 1 << 3) <==> Test(x, 1 << 3) || Test(y, 1 << 3)
    ensures Test(Minus(x, y), 1 << 3) <==> Test(x, 1 << 3) && !Test(y, 1 << 3)
  {
    assert (x | y) & (1 << 3) != 0 <==> x & (1 << 3) != 0 || y & (1 << 3) != 0;
    assert x & !y & (1 << 3) != 0 <==> x & (1 << 3) != 0 && y & (1 << 3) == 0;
  }

  lemma KillBit(x: bv64, y: bv64)
    ensures Test(Either(x, y), 1 << 9) <==> Test(x, 1 << 9) || Test(y, 1 << 9)
    ensures Test(Minus(x, y), 1 << 9) <==> Test(x, 1 << 9) && !Test(y, 1 << 9)
  {
    assert (x | y) & (1 << 9) != 0 <==> x & (1 << 9) != 0 || y & (1 << 9) != 0;
    assert x & !y & (1 << 9) != 0 <==> x & (1 << 9) != 0 && y & (1 << 9) == 0;
  }

  lemma Usr1Bit(x: bv64, y: bv64)
    ensures Test(Either(x, y), 1 << 10) <==> Test(x, 1 << 10) || Test(y, 1 << 10)
    ensures Test(Minus(x, y), 1 << 10) <==> Test(x, 1 << 10) && !Test(y, 1 << 10)
  {
    assert (x | y) & (1 << 10) != 0 <==> x & (1 << 10) != 0 || y & (1 << 10) != 0;
    assert x & !y & (1 << 10) != 0 <==> x & (1 << 10) != 0 && y & (1 << 10) == 0;
  }

  lemma Usr2Bit(x: bv64, y: bv64)
    ensures Test(Either(x, y), 1 << 12) <==> Test(x, 1 << 12) || Test(y, 1 << 12)
    ensures Test(Minus(x, y), 1 << 12) <==> Test(x, 1 << 12) && !Test(y, 1 << 12)
  {
    assert (x | y) & (1 << 12) != 0 <==> x & (1 << 12) != 0 || y & (1 << 12) != 0;
    assert x & !y & (1 << 12) != 0 <==> x & (1 << 12) != 0 && y & (1 << 12) == 0;
  }

  lemma TermBit(x: bv64, y: bv64)
    ensures Test(Either(x, y), 1 << 15) <==> Test(x, 1 << 15) || Test(y, 1 << 15)
    ensures Test(Minus(x, y), 1 << 15) <==> Test(x, 1 << 15) && !Test(y, 1 << 15)
  {
    assert (x | y) & (1 << 15) != 0 <==> x & (1 << 15) != 0 || y & (1 << 15) != 0;
    assert x & !y & (1 << 15) != 0 <==> x & (1 << 15) != 0 && y & (1 << 15) == 0;
  }

  lemma ChldBit(x: bv64, y: bv64)
    ensures Test(Either(x, y), 1 << 17) <==> Test(x, 1 << 17) || Test(y, 1 << 17)
    ensures Test(Minus(x, y), 1 << 17) <==> Test(x, 1 << 17) && !Test(y, 1 << 17)
  {
    assert (x | y) & (1 << 17) != 0 <==> x & (1 << 17) != 0 || y & (1 << 17) != 0;
    assert x & !y & (1 << 17) != 0 <==> x & (1 << 17) != 0 && y & (1 << 17) == 0;
  }

  lemma ContBit(x: bv64, y: bv64)
    ensures Test(Either(x, y), 1 << 18) <==> Test(x, 1 << 18) || Test(y, 1 << 18)
    ensures Test(Minus(x, y), 1 << 18) <==> Test(x, 1 << 18) && !Test(y, 1 << 18)
  {
    assert (x | y) & (1 << 18) != 0 <==> x & (1 << 18) != 0 || y & (1 << 18) != 0;
    assert x & !y & (1 << 18) != 0 <==> x & (1 << 18) != 0 && y & (1 << 18) == 0;
  }

  lemma StopBit(x: bv64, y: bv64)
    ensures Test(Either(x, y), 1 << 19) <==> Test(x, 1 << 19) || Test(y, 1 << 19)
    ensures Test(Minus(x, y), 1 << 19) <==> Test(x, 1 << 19) && !Test(y, 1 << 19)
  {
    assert (x | y) & (1 << 19) != 0 <==> x & (1 << 19) != 0 || y & (1 << 19) != 0;
    assert x & !y & (1 << 19) != 0 <==> x & (1 << 19) != 0 && y & (1 << 19) == 0;
  }

  lemma EachBit(x: bv64, y: bv64, s: Signal)
    ensures Holds(Either(x, y), s) <==> Holds(x, s) || Holds(y, s)
    ensures Holds(Minus(x, y), s) <==> Holds(x, s) && !Holds(y, s)
  {
    hide Test, Either, Minus;
    match s
    case Hup => HupBit(x, y);
    case Int => IntBit(x, y);
    case Quit => QuitBit(x, y);
    case Kill => KillBit(x, y);
    case Usr1 => Usr1Bit(x, y);
    case Usr2 => Usr2Bit(x, y);
    case Term => TermBit(x, y);
    case Chld => ChldBit(x, y);
    case Cont => ContBit(x, y);
    case Stop => StopBit(x, y);
  }

  /** Or and and-not of masks are union and difference of their signals. */
  lemma Combined(x: bv64, y: bv64)
    ensures SignalsIn(Either(x, y)) == SignalsIn(x) + SignalsIn(y)
    ensures SignalsIn(Minus(x, y)) == SignalsIn(x) - SignalsIn(y)
  {
    hide Holds, Either, Minus;
    forall s: Signal
      ensures Holds(Either(x, y), s) <==> Holds(x, s) || Holds(y, s)
      ensures Holds(Minus(x, y), s) <==> Holds(x, s) && !Holds(y, s)
    {
      EachBit(x, y, s);
    }
  }

  lemma SingleMask(t: Signal)
    ensures SignalsIn(Bit(t)) == {t}
  {
    hide Holds, Bit;
    forall s: Signal ensures Holds(Bit(t), s) <==> s == t { OwnBit(s, t); }
  }
}
