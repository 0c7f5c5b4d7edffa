/**
 The CIRC macros of Include/Driver/wm_uart.h:59-84: indices are 32-bit unsigned, the locals of the
 *_TO_END macros are ints. Masking with size - 1 is the remainder modulo a power of two, so the macros
 measure distances on a circle.
*/
module CircMath {
  import opened Arith

  function CircCnt(head: nat, tail: nat, size: nat): nat
    requires size > 0
  {
    And((head - tail) % U32, size - 1)
  }

  function CircSpace(head: nat, tail: nat, size: nat): nat
    requires size > 0
  {
    CircCnt(tail, (head + 1) % U32, size)
  }

  /** A u32 stored in an int. */
  function ToInt(x: int): (r: int)
    ensures -0x8000_0000 <= x < 0x8000_0000 ==> r == x
  {
    var u := x % U32;
    if u < 0x8000_0000 then u else u - U32
  }

  function CircCntToEnd(head: nat, tail: nat, size: nat): int
    requires size > 0
  {
    var end := ToInt(size - tail);
    var n := ToInt(And((head + end) % U32, size - 1));
    if n < end then n else end
  }

  function CircSpaceToEnd(head: nat, tail: nat, size: nat): int
    requires size > 0
  {
    var end := ToInt(size - 1 - head);
    var n := ToInt(And((end + tail) % U32, size - 1));
    if n <= end then n else end + 1
  }

  function CircSpaceToEndFull(head: nat, tail: nat, size: nat): int
    requires size > 0
  {
    var end := ToInt(size - 1 - head);
    var n := ToInt(And((end + tail) % U32, size - 1));
    if n < end then n else end + 1
  }

  /** How callers move an index: (i + n) & (size - 1). */
  function Advance(i: nat, n: nat, size: nat): nat
    requires size > 0
  {
    And((i + n) % U32, size - 1)
  }

  /** The count is the distance from tail to head on the circle, even for indices that ran past 2^32. */
  lemma CntIsDistance(head: nat, tail: nat, k: nat)
    requires k <= 32
    ensures CircCnt(head, tail, Pow2(k)) == (head - tail) % Pow2(k)
  {
    AndMask((head - tail) % U32, k);
    WordMod(head - tail, k);
  }

  lemma SpaceIsDistance(head: nat, tail: nat, k: nat)
    requires k <= 32
    ensures CircSpace(head, tail, Pow2(k)) == (tail - head - 1) % Pow2(k)
  {
    hide Pow2, CircCnt;
    var m := Pow2(k);
    CntIsDistance(tail, (head + 1) % U32, k);
    ModSub(tail, (head + 1) % U32, m);
    WordMod(head + 1, k);
    ModSub(tail, head + 1, m);
  }

  /** Count and space always add up to one less than the size. */
  lemma CountPlusSpace(head: nat, tail: nat, k: nat)
    requires k <= 32
    ensures CircCnt(head, tail, Pow2(k)) + CircSpace(head, tail, Pow2(k)) == Pow2(k) - 1
  {
    hide Pow2, CircCnt, CircSpace;
    var m := Pow2(k);
    CntIsDistance(head, tail, k);
    SpaceIsDistance(head, tail, k);
    ModComplement(head - tail, m);
  }

  lemma AdvanceIs(i: nat, n: nat, k: nat)
    requires k <= 32
    ensures Advance(i, n, Pow2(k)) == (i + n) % Pow2(k)
  {
    AndMask((i + n) % U32, k);
    WordMod(i + n, k);
  }

  /** A power of two up to 2^31 is at most that. */
  lemma {:induction false} SizeBound(k: nat)
    requires k <= 31
    ensures Pow2(k) <= 0x8000_0000 && (k <= 30 ==> Pow2(k) <= 0x4000_0000)
    decreases 31 - k
  {
    if k == 31 {
      SmallPowers();
    } else {
      SizeBound(k + 1);
      assert Pow2(k + 1) == 2 * Pow2(k);
    }
  }

  /** The only size at which the int `end` overflows is 2^31, and only with tail at 0. */
  predicate CountFits(k: nat, tail: nat) {
    k <= 30 || tail > 0
  }

  lemma TopToInt()
    ensures ToInt(0x8000_0000) == -0x8000_0000
  {
  }

  lemma CntToEndIs(head: nat, tail: nat, k: nat)
    requires k <= 31 && head < Pow2(k) && tail < Pow2(k)
    ensures var m, cnt := Pow2(k), CircCnt(head, tail, Pow2(k));
            CircCntToEnd(head, tail, m) ==
            if !CountFits(k, tail) then -0x8000_0000 else if cnt < m - tail then cnt else m - tail
  {
    hide And, Pow2, CircCnt, ToInt;
    var m := Pow2(k);
    SizeBound(k);
    CntIsDistance(head, tail, k);
    var end := ToInt(m - tail);
    AndMask((head + end) % U32, k);
    WordMod(head + end, k);
    if CountFits(k, tail) {
      InRange(head - tail, m);
      InRange(head + (m - tail), m);
    } else {
      SmallPowers();
      TopToInt();
    }
  }

  lemma SpaceToEndIs(head: nat, tail: nat, k: nat)
    requires k <= 31 && head < Pow2(k) && tail < Pow2(k)
    ensures var m, space := Pow2(k), CircSpace(head, tail, Pow2(k));
            CircSpaceToEnd(head, tail, m) == if space < m - head then space else m - head
  {
    hide And, Pow2, CircSpace, ToInt;
    var m := Pow2(k);
    SizeBound(k);
    SpaceIsDistance(head, tail, k);
    AndMask((m - 1 - head + tail) % U32, k);
    WordMod(m - 1 - head + tail, k);
    InRange(tail - head - 1, m);
    InRange(m - 1 - head + tail, m);
  }

  /**
   For indices inside the buffer the *_TO_END macros are the parts before the wrap; the count to the end
   fails exactly for a buffer of 2^31 bytes with tail at 0, where the int overflows.
  */
  lemma ToEnd(head: nat, tail: nat, k: nat)
    requires k <= 31 && head < Pow2(k) && tail < Pow2(k)
    ensures var m, cnt := Pow2(k), CircCnt(head, tail, Pow2(k));
            CircCntToEnd(head, tail, m) == (if cnt < m - tail then cnt else m - tail) <==> k <= 30 || tail > 0
    ensures CircCntToEnd(head, tail, Pow2(k)) >= 0 <==> k <= 30 || tail > 0
    ensures var m, space := Pow2(k), CircSpace(head, tail, Pow2(k));
            CircSpaceToEnd(head, tail, m) == if space < m - head then space else m - head
  {
    hide CircCnt, CircSpace, CircCntToEnd, CircSpaceToEnd, Pow2;
    CntToEndIs(head, tail, k);
    SpaceToEndIs(head, tail, k);
  }

  /** Two runs up to the end, with one wrap between them, take exactly what the count promised. */
  predicate DrainsInTwoRuns(head: nat, tail: nat, size: nat)
    requires size > 0
  {
    var c1 := CircCntToEnd(head, tail, size);
    && c1 >= 0
    && var t1 := Advance(tail, c1, size);
       var c2 := CircCntToEnd(head, t1, size);
       && c2 >= 0 && c1 + c2 == CircCnt(head, tail, size)
       && CircCnt(head, Advance(t1, c2, size), size) == 0
  }

  /** They do up to 2^30 bytes; at 2^31 exactly when the data neither wraps nor starts at 0. */
  lemma TwoRunsDrain(head: nat, tail: nat, k: nat)
    requires k <= 31 && head < Pow2(k) && tail < Pow2(k)
    ensures DrainsInTwoRuns(head, tail, Pow2(k)) <==> k <= 30 || 0 < tail <= head
  {
    hide CircCnt, CircCntToEnd, Advance, CircSpace, CircSpaceToEnd, Pow2;
    var m := Pow2(k);
    ToEnd(head, tail, k);
    if CountFits(k, tail) {
      CntIsDistance(head, tail, k);
      InRange(head - tail, m);
      var c1 := CircCntToEnd(head, tail, m);
      AdvanceIs(tail, c1, k);
      InRange(tail + c1, m);
      var t1 := Advance(tail, c1, m);
      ToEnd(head, t1, k);
      if CountFits(k, t1) {
        CntIsDistance(head, t1, k);
        InRange(head - t1, m);
        var c2 := CircCntToEnd(head, t1, m);
        AdvanceIs(t1, c2, k);
        InRange(t1 + c2, m);
        CntIsDistance(head, Advance(t1, c2, m), k);
        InRange(head - Advance(t1, c2, m), m);
      }
    }
  }

  /** Two runs of space fill exactly what the space promised. */
  lemma TwoRunsFill(head: nat, tail: nat, k: nat)
    requires k <= 31 && head < Pow2(k) && tail < Pow2(k)
    ensures var m := Pow2(k);
            var s1 := CircSpaceToEnd(head, tail, m);
            && s1 >= 0
            && var h1 := Advance(head, s1, m);
               var s2 := CircSpaceToEnd(h1, tail, m);
               && s2 >= 0 && s1 + s2 == CircSpace(head, tail, m) && CircSpace(Advance(h1, s2, m), tail, m) == 0
  {
    hide CircCnt, CircCntToEnd, Advance, CircSpace, CircSpaceToEnd, Pow2;
    var m := Pow2(k);
    ToEnd(head, tail, k);
    SpaceIsDistance(head, tail, k);
    InRange(tail - head - 1, m);
    var s1 := CircSpaceToEnd(head, tail, m);
    AdvanceIs(head, s1, k);
    InRange(head + s1, m);
    var h1 := Advance(head, s1, m);
    ToEnd(h1, tail, k);
    SpaceIsDistance(h1, tail, k);
    InRange(tail - h1 - 1, m);
    var s2 := CircSpaceToEnd(h1, tail, m);
    AdvanceIs(h1, s2, k);
    InRange(h1 + s2, m);
    SpaceIsDistance(Advance(h1, s2, m), tail, k);
    InRange(tail - Advance(h1, s2, m) - 1, m);
  }

  /**
   CIRC_SPACE_TO_END_FULL agrees with CIRC_SPACE_TO_END exactly when tail is not 0; at 0 it counts one cell
   more, and filling that one makes a full buffer look empty.
  */
  lemma FullCountsOneMore(head: nat, tail: nat, k: nat)
    requires k <= 31 && head < Pow2(k) && tail < Pow2(k)
    ensures var m := Pow2(k);
            var full := CircSpaceToEndFull(head, tail, m);
            && full == CircSpaceToEnd(head, tail, m) + (if tail == 0 then 1 else 0) && full >= 0
            && (tail == 0 ==> CircCnt(Advance(head, full, m), tail, m) == 0 && full == CircSpace(head, tail, m) + 1)
  {
    hide And, Pow2, CircCnt, CircSpace, ToInt, Advance;
    var m := Pow2(k);
    SizeBound(k);
    SpaceToEndIs(head, tail, k);
    SpaceIsDistance(head, tail, k);
    AndMask((m - 1 - head + tail) % U32, k);
    WordMod(m - 1 - head + tail, k);
    InRange(tail - head - 1, m);
    InRange(m - 1 - head + tail, m);
    if tail == 0 {
      AdvanceIs(head, m - head, k);
      InRange(m, m);
      CntIsDistance(0, 0, k);
      ModSmall(0, m);
    }
  }
}
