/**
 The atomic bit operations of Platform/Inc/bitops.h:12-113 on an array of 32-bit words. Each one runs
 inside a critical section, so operations of several tasks happen one after the other.
*/
module BitOps {
  import opened Words

  /** 1 << (bit & 31) in an unsigned long. */
  function Mask(k: nat): bv32
    requires k < 32
  {
    Low(IntShift(k))
  }

  // ---------- words as sets of bit numbers ----------

  predicate Has(words: seq<bv32>, b: nat) {
    b < 32 * |words| && Bit(words[b / 32], b % 32)
  }

  function Members(words: seq<bv32>): set<nat> {
    set b: nat | b < 32 * |words| && Has(words, b)
  }

  /** Changing one bit of one word adds or removes one member. */
  lemma OneBitChanged(words: seq<bv32>, b: nat, w: bv32, on: bool)
    requires b < 32 * |words|
    requires forall k: nat :: k < 32 ==> Bit(w, k) == if k == b % 32 then on else Bit(words[b / 32], k)
    ensures Members(words[b / 32 := w]) == if on then Members(words) + {b} else Members(words) - {b}
  {
    hide Bit;
    var words' := words[b / 32 := w];
    forall c: nat | c < 32 * |words| ensures Has(words', c) == if c == b then on else Has(words, c) {
      if c / 32 == b / 32 && c % 32 == b % 32 {
        assert c == b;
      }
    }
  }

  lemma OrSets(w: bv32, k: nat)
    requires k < 32
    ensures forall j: nat :: j < 32 ==> Bit(Or32(w, Mask(k)), j) == (j == k || Bit(w, j))
  {
    hide Bit, Or32, Low, IntShift;
    forall j: nat | j < 32 ensures Bit(Or32(w, Mask(k)), j) == (j == k || Bit(w, j)) {
      BitOr(w, Mask(k), j);
      IntShiftBit(k, j);
    }
  }

  lemma AndNotClears(w: bv32, k: nat)
    requires k < 32
    ensures forall j: nat :: j < 32 ==> Bit(AndNot(w, Mask(k)), j) == (j != k && Bit(w, j))
  {
    hide Bit, AndNot, Low, IntShift;
    forall j: nat | j < 32 ensures Bit(AndNot(w, Mask(k)), j) == (j != k && Bit(w, j)) {
      BitAndNot(w, Mask(k), j);
      IntShiftBit(k, j);
    }
  }

  lemma XorFlips(w: bv32, k: nat)
    requires k < 32
    ensures forall j: nat :: j < 32 ==> Bit(Sum(w, Mask(k)), j) == ((j == k) != Bit(w, j))
  {
    hide Bit, Sum, Low, IntShift;
    forall j: nat | j < 32 ensures Bit(Sum(w, Mask(k)), j) == ((j == k) != Bit(w, j)) {
      BitSum(w, Mask(k), j);
      IntShiftBit(k, j);
    }
  }

  lemma AndTests(w: bv32, k: nat)
    requires k < 32
    ensures And32(w, Mask(k)) != 0 <==> Bit(w, k)
  {
    hide Bit, And32, Low, IntShift;
    forall j: nat | j < 32 ensures Bit(And32(w, Mask(k)), j) == (j == k && Bit(w, j)) && !Bit(0, j) {
      BitAnd(w, Mask(k), j);
      IntShiftBit(k, j);
      NoBits(j);
    }
    if !Bit(w, k) {
      assert LeadingBits(And32(w, Mask(k)), 32) == LeadingBits(0, 32);
      BitsInjective(And32(w, Mask(k)), 0);
    }
  }

  class BitArray {
    const words: array<bv32>

    constructor (n: nat)
      ensures words.Length == n && fresh(words) && Members(words[..]) == {}
    {
      words := new bv32[n](i => 0);
      new;
      forall b: nat | b < 32 * n ensures !Has(words[..], b) {
        NoBits(b % 32);
      }
    }

    method SetBit(bit: nat)
      requires bit < 32 * words.Length
      modifies words
      ensures Members(words[..]) == old(Members(words[..])) + {bit}
    {
      hide Members, Or32;
      var i, mask := bit / 32, Mask(bit % 32);
      OrSets(words[i], bit % 32);
      OneBitChanged(words[..], bit, Or32(words[i], mask), true);
      words[i] := Or32(words[i], mask);
      assert words[..] == old(words[..])[i := words[i]];
    }

    method ClearBit(bit: nat)
      requires bit < 32 * words.Length
      modifies words
      ensures Members(words[..]) == old(Members(words[..])) - {bit}
    {
      hide Members, AndNot;
      var i, mask := bit / 32, Mask(bit % 32);
      AndNotClears(words[i], bit % 32);
      OneBitChanged(words[..], bit, AndNot(words[i], mask), false);
      words[i] := AndNot(words[i], mask);
      assert words[..] == old(words[..])[i := words[i]];
    }

    method ChangeBit(bit: nat)
      requires bit < 32 * words.Length
      modifies words
      ensures Members(words[..]) == Toggled(old(Members(words[..])), bit)
    {
      hide Members, Sum;
      HasMember(words[..], bit);
      var i, mask := bit / 32, Mask(bit % 32);
      XorFlips(words[i], bit % 32);
      OneBitChanged(words[..], bit, Sum(words[i], mask), !Has(words[..], bit));
      words[i] := Sum(words[i], mask);
      assert words[..] == old(words[..])[i := words[i]];
    }

    method TestAndSetBit(bit: nat) returns (r: bv32)
      requires bit < 32 * words.Length
      modifies words
      ensures r != 0 <==> bit in old(Members(words[..]))
      ensures Members(words[..]) == old(Members(words[..])) + {bit}
    {
      hide Members, Or32, And32;
      HasMember(words[..], bit);
      var i, mask := bit / 32, Mask(bit % 32);
      var res := words[i];
      AndTests(res, bit % 32);
      OrSets(res, bit % 32);
      OneBitChanged(words[..], bit, Or32(res, mask), true);
      words[i] := Or32(res, mask);
      assert words[..] == old(words[..])[i := words[i]];
      r := And32(res, mask);
    }

    method TestAndClearBit(bit: nat) returns (r: bv32)
      requires bit < 32 * words.Length
      modifies words
      ensures r != 0 <==> bit in old(Members(words[..]))
      ensures Members(words[..]) == old(Members(words[..])) - {bit}
    {
      hide Members, AndNot, And32;
      HasMember(words[..], bit);
      var i, mask := bit / 32, Mask(bit % 32);
      var res := words[i];
      AndTests(res, bit % 32);
      AndNotClears(res, bit % 32);
      OneBitChanged(words[..], bit, AndNot(res, mask), false);
      words[i] := AndNot(res, mask);
      assert words[..] == old(words[..])[i := words[i]];
      r := And32(res, mask);
    }

    method TestAndChangeBit(bit: nat) returns (r: bv32)
      requires bit < 32 * words.Length
      modifies words
      ensures r != 0 <==> bit in old(Members(words[..]))
      ensures Members(words[..]) == Toggled(old(Members(words[..])), bit)
    {
      hide Members, Sum, And32;
      HasMember(words[..], bit);
      var i, mask := bit / 32, Mask(bit % 32);
      var res := words[i];
      AndTests(res, bit % 32);
      XorFlips(res, bit % 32);
      OneBitChanged(words[..], bit, Sum(res, mask), !Has(words[..], bit));
      words[i] := Sum(res, mask);
      assert words[..] == old(words[..])[i := words[i]];
      r := And32(res, mask);
    }

    method TestBit(bit: nat) returns (r: bv32)
      requires bit < 32 * words.Length
      ensures r != 0 <==> bit in Members(words[..])
    {
      hide Members, And32;
      HasMember(words[..], bit);
      AndTests(words[bit / 32], bit % 32);
      r := And32(words[bit / 32], Mask(bit % 32));
    }
  }

  function Toggled(m: set<nat>, b: nat): set<nat> {
    if b in m then m - {b} else m + {b}
  }

  lemma HasMember(words: seq<bv32>, b: nat)
    requires b < 32 * |words|
    ensures b in Members(words) <==> Has(words, b)
  {
  }

  // ---------- any interleaving ----------

  datatype Op = Set(bit: nat) | Clear(bit: nat) | Change(bit: nat) | Test(bit: nat)
              | TestAndSet(bit: nat) | TestAndClear(bit: nat) | TestAndChange(bit: nat)

  function After(m: set<nat>, op: Op): set<nat> {
    match op
    case Set(b) => m + {b}
    case TestAndSet(b) => m + {b}
    case Clear(b) => m - {b}
    case TestAndClear(b) => m - {b}
    case Change(b) => Toggled(m, b)
    case TestAndChange(b) => Toggled(m, b)
    case Test(_) => m
  }

  function AfterAll(m: set<nat>, ops: seq<Op>): set<nat>
    decreases |ops|
  {
    if ops == [] then m else AfterAll(After(m, ops[0]), ops[1..])
  }

  /** Whether an operation reports its bit as set; set, clear and change report nothing. */
  predicate Reported(m: set<nat>, op: Op) {
    !op.Set? && !op.Clear? && !op.Change? && op.bit in m
  }

  function Reports(m: set<nat>, ops: seq<Op>): (r: seq<bool>)
    ensures |r| == |ops|
    decreases |ops|
  {
    if ops == [] then []
    else
      [Reported(m, ops[0])] + Reports(After(m, ops[0]), ops[1..])
  }

  method Perform(a: BitArray, op: Op) returns (reported: bool)
    requires op.bit < 32 * a.words.Length
    modifies a.words
    ensures Members(a.words[..]) == After(old(Members(a.words[..])), op)
    ensures reported == Reported(old(Members(a.words[..])), op)
  {
    hide Members;
    var r: bv32 := 0;
    match op {
      case Set(b) => a.SetBit(b);
      case Clear(b) => a.ClearBit(b);
      case Change(b) => a.ChangeBit(b);
      case Test(b) => r := a.TestBit(b);
      case TestAndSet(b) => r := a.TestAndSetBit(b);
      case TestAndClear(b) => r := a.TestAndClearBit(b);
      case TestAndChange(b) => r := a.TestAndChangeBit(b);
    }
    reported := r != 0;
  }

  /** Operations of any number of tasks, one after the other, act on the array as on a set of numbers. */
  method Execute(a: BitArray, ops: seq<Op>) returns (reports: seq<bool>)
    requires forall i :: 0 <= i < |ops| ==> ops[i].bit < 32 * a.words.Length
    modifies a.words
    ensures Members(a.words[..]) == AfterAll(old(Members(a.words[..])), ops)
    ensures reports == Reports(old(Members(a.words[..])), ops)
  {
    hide Members, After, Reported;
    reports := [];
    var i := 0;
    while i < |ops|
      invariant 0 <= i <= |ops|
      invariant AfterAll(Members(a.words[..]), ops[i..]) == AfterAll(old(Members(a.words[..])), ops)
      invariant reports + Reports(Members(a.words[..]), ops[i..]) == Reports(old(Members(a.words[..])), ops)
    {
      assert ops[i..][0] == ops[i] && ops[i..][1..] == ops[i + 1..];
      var r := Perform(a, ops[i]);
      reports := reports + [r];
      i := i + 1;
    }
  }

  predicate MayClear(op: Op, b: nat) {
    op.bit == b && (op.Clear? || op.Change? || op.TestAndClear? || op.TestAndChange?)
  }

  /** How many test_and_set_bit operations on `b` returned that it was clear. */
  function Winners(ops: seq<Op>, reports: seq<bool>, b: nat): nat
    requires |reports| == |ops|
    decreases |ops|
  {
    if ops == [] then 0
    else (if ops[0] == TestAndSet(b) && !reports[0] then 1 else 0) + Winners(ops[1..], reports[1..], b)
  }

  /**
   A bit is a lock: until an operation that may clear it, at most one test_and_set_bit returns 0; none does
   if the bit was set, and exactly one does if the first operation to set it is a test_and_set_bit.
  */
  lemma {:induction false} AtMostOneWinner(m: set<nat>, ops: seq<Op>, b: nat)
    requires forall i :: 0 <= i < |ops| ==> !MayClear(ops[i], b)
    ensures var n := Winners(ops, Reports(m, ops), b);
            n <= 1 && (b in m ==> n == 0) &&
            (b !in m ==> (n == 1 <==> FirstSetter(ops, b) == TestAndSet(b)))
    decreases |ops|
  {
    if ops != [] {
      AtMostOneWinner(After(m, ops[0]), ops[1..], b);
      assert Reports(m, ops)[1..] == Reports(After(m, ops[0]), ops[1..]);
    }
  }

  /** The first operation that sets bit `b`, or a test if there is none. */
  function FirstSetter(ops: seq<Op>, b: nat): Op {
    if ops == [] then Test(b)
    else if ops[0] == Set(b) || ops[0] == TestAndSet(b) then ops[0]
    else FirstSetter(ops[1..], b)
  }
}
