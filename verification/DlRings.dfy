/**
 Any number of lists at once (Include/list.h:56-110): a run of init, add, add_tail and del keeps
 every ring intact, makes each one follow its sequence, and leaves the other rings alone.
*/
module DlRings {
  import opened DlList

  datatype Op =
    | InitOp(node: Node)
    | ReinitOp(i: nat)
    | AddOp(i: nat, item: Node)
    | AddTailOp(i: nat, item: Node)
    | DelOp(i: nat, k: nat)

  ghost predicate Outside(rings: seq<seq<Node>>, x: Node) {
    forall i :: 0 <= i < |rings| ==> x !in rings[i]
  }

  ghost predicate Apart(rings: seq<seq<Node>>) {
    forall i, j :: 0 <= i < |rings| && 0 <= j < |rings| && i != j ==> Disjoint(rings[i], rings[j])
  }

  ghost predicate Disjoint(r: seq<Node>, s: seq<Node>) {
    forall x :: x in r ==> x !in s
  }

  /** Disjoint rings within `pool`, each with its links in order. */
  ghost predicate World(pool: set<Node>, rings: seq<seq<Node>>)
    reads pool
  {
    && Apart(rings)
    && (forall i, x :: 0 <= i < |rings| && x in rings[i] ==> x in pool)
    && forall i :: 0 <= i < |rings| ==> Ring(rings[i])
  }

  ghost predicate InPool(pool: set<Node>, op: Op) {
    match op
    case InitOp(node) => node in pool
    case AddOp(_, item) => item in pool
    case AddTailOp(_, item) => item in pool
    case ReinitOp(_) => true
    case DelOp(_, _) => true
  }

  ghost predicate Legal(rings: seq<seq<Node>>, op: Op) {
    match op
    case InitOp(node) => Outside(rings, node)
    case ReinitOp(i) => i < |rings| && |rings[i]| > 0
    case AddOp(i, item) => i < |rings| && |rings[i]| > 0 && Outside(rings, item)
    case AddTailOp(i, item) => i < |rings| && |rings[i]| > 0 && Outside(rings, item)
    case DelOp(i, k) => i < |rings| && 0 < k < |rings[i]|
  }

  /**
   The sequences after an operation: init makes a list or empties one in use, add puts at the front,
   add_tail at the back, del removes that node.
  */
  function Apply(rings: seq<seq<Node>>, op: Op): seq<seq<Node>>
    requires Legal(rings, op)
  {
    match op
    case InitOp(node) => rings + [[node]]
    case ReinitOp(i) => rings[i := [rings[i][0]]]
    case AddOp(i, item) => rings[i := [rings[i][0], item] + rings[i][1..]]
    case AddTailOp(i, item) => rings[i := rings[i] + [item]]
    case DelOp(i, k) => rings[i := rings[i][..k] + rings[i][k + 1..]]
  }

  ghost predicate LegalRun(rings: seq<seq<Node>>, ops: seq<Op>)
    decreases |ops|
  {
    ops == [] || (Legal(rings, ops[0]) && LegalRun(Apply(rings, ops[0]), ops[1..]))
  }

  ghost function ApplyAll(rings: seq<seq<Node>>, ops: seq<Op>): seq<seq<Node>>
    requires LegalRun(rings, ops)
    decreases |ops|
  {
    if ops == [] then rings else ApplyAll(Apply(rings, ops[0]), ops[1..])
  }

  /** Does the operation work on ring `j`? */
  predicate On(op: Op, j: nat) {
    !op.InitOp? && op.i == j
  }

  /** The run never works on ring `j`. */
  ghost predicate Spared(ops: seq<Op>, j: nat) {
    forall k :: 0 <= k < |ops| ==> !On(ops[k], j)
  }

  lemma ApartUpdate(rings: seq<seq<Node>>, i: nat, r: seq<Node>)
    requires Apart(rings) && i < |rings|
    requires forall x :: x in r ==> x in rings[i] || Outside(rings, x)
    ensures Apart(rings[i := r])
  {
    forall j | 0 <= j < |rings| && j != i ensures Disjoint(r, rings[j]) && Disjoint(rings[j], r) {
      assert Disjoint(rings[i], rings[j]) && Disjoint(rings[j], rings[i]);
    }
  }

  /** Nothing but ring `i` and `item` is touched by an operation on ring `i`. */
  lemma OthersApart(rings: seq<seq<Node>>, i: nat, item: Node)
    requires Apart(rings) && i < |rings| && (item in rings[i] || Outside(rings, item))
    ensures forall j, x :: 0 <= j < |rings| && j != i && x in rings[j] ==> x !in rings[i] && x != item
  {
    forall j, x | 0 <= j < |rings| && j != i && x in rings[j] ensures x !in rings[i] && x != item {
      assert Disjoint(rings[j], rings[i]);
    }
  }

  method DoInit(node: Node, rings: seq<seq<Node>>, ghost pool: set<Node>)
    requires World(pool, rings) && Outside(rings, node) && node in pool
    modifies node
    ensures World(pool, rings + [[node]])
    ensures forall j, x :: 0 <= j < |rings| && x in rings[j] ==> x.next == old(x.next) && x.prev == old(x.prev)
  {
    Init(node);
    ghost var after := rings + [[node]];
    forall i, j | 0 <= i < |after| && 0 <= j < |after| && i != j ensures Disjoint(after[i], after[j]) {
      if i < |rings| && j < |rings| {
        assert Disjoint(rings[i], rings[j]);
      }
    }
  }

  /** dl_list_init on the head of a list in use: the items fall out of the ring. */
  method DoReinit(i: nat, rings: seq<seq<Node>>, ghost pool: set<Node>)
    requires World(pool, rings) && i < |rings|
    modifies rings[i]
    ensures World(pool, rings[i := [rings[i][0]]])
    ensures forall j, x :: 0 <= j < |rings| && j != i && x in rings[j] ==>
              x.next == old(x.next) && x.prev == old(x.prev)
  {
    ghost var r := rings[i];
    assert |r| > 0;
    hide Ring;
    OthersApart(rings, i, r[0]);
    RingNext(r, 0);
    Init(rings[i][0]);
    ApartUpdate(rings, i, [r[0]]);
    assert forall x :: x in [r[0]] ==> x in pool;
  }

  /** dl_list_add and dl_list_add_tail on ring `i`. */
  method DoAdd(i: nat, item: Node, tail: bool, rings: seq<seq<Node>>, ghost pool: set<Node>)
    requires World(pool, rings) && i < |rings| && Outside(rings, item) && item in pool
    modifies rings[i], item
    ensures World(pool, rings[i := if tail then rings[i] + [item] else [rings[i][0], item] + rings[i][1..]])
    ensures forall j, x :: 0 <= j < |rings| && j != i && x in rings[j] ==>
              x.next == old(x.next) && x.prev == old(x.prev)
  {
    ghost var r := rings[i];
    assert |r| > 0;
    hide Ring;
    OthersApart(rings, i, item);
    RingNext(r, 0);
    ghost var s := if tail then r + [item] else [r[0], item] + r[1..];
    if tail {
      AddTail(rings[i][0], item, r);
    } else {
      Add(rings[i][0], item, r, 0);
      assert Inserted(r, 0, item) == s;
    }
    ApartUpdate(rings, i, s);
    assert Ring(s) && forall x :: x in s ==> x in pool;
  }

  method DoDel(i: nat, k: nat, rings: seq<seq<Node>>, ghost pool: set<Node>)
    requires World(pool, rings) && i < |rings| && 0 < k < |rings[i]|
    modifies rings[i]
    ensures World(pool, rings[i := rings[i][..k] + rings[i][k + 1..]])
    ensures rings[i][k].next == null && rings[i][k].prev == null
    ensures forall j, x :: 0 <= j < |rings| && j != i && x in rings[j] ==>
              x.next == old(x.next) && x.prev == old(x.prev)
  {
    hide Ring;
    ghost var r := rings[i];
    OthersApart(rings, i, r[k]);
    RingNext(r, k);
    Del(rings[i][k], r, k);
    assert Without(r, k) == r[..k] + r[k + 1..];
    ApartUpdate(rings, i, Without(r, k));
  }

  method Do(op: Op, rings: seq<seq<Node>>, ghost pool: set<Node>) returns (after: seq<seq<Node>>)
    requires World(pool, rings) && Legal(rings, op) && InPool(pool, op)
    modifies pool
    ensures after == Apply(rings, op) && World(pool, after)
    ensures op.DelOp? ==> rings[op.i][op.k].next == null && rings[op.i][op.k].prev == null
    ensures forall j, x :: 0 <= j < |rings| && !On(op, j) && x in rings[j] ==>
              x.next == old(x.next) && x.prev == old(x.prev)
  {
    after := Apply(rings, op);
    WithinPool(pool, rings, op);
    hide World, Outside;
    match op {
      case InitOp(node) => DoInit(node, rings, pool);
      case ReinitOp(i) => DoReinit(i, rings, pool);
      case AddOp(i, item) => DoAdd(i, item, false, rings, pool);
      case AddTailOp(i, item) => DoAdd(i, item, true, rings, pool);
      case DelOp(i, k) => DoDel(i, k, rings, pool);
    }
  }

  lemma WithinPool(pool: set<Node>, rings: seq<seq<Node>>, op: Op)
    requires World(pool, rings) && Legal(rings, op)
    ensures forall i, x :: 0 <= i < |rings| && x in rings[i] ==> x in pool
  {
  }

  /** Every run keeps the rings, makes them follow their sequences, and does not touch a ring it does not name. */
  method Run(ops: seq<Op>, rings: seq<seq<Node>>, ghost pool: set<Node>) returns (after: seq<seq<Node>>)
    requires World(pool, rings) && LegalRun(rings, ops)
    requires forall k :: 0 <= k < |ops| ==> InPool(pool, ops[k])
    modifies pool
    ensures after == ApplyAll(rings, ops) && World(pool, after)
    ensures forall j, x :: 0 <= j < |rings| && Spared(ops, j) && x in rings[j] ==>
              x.next == old(x.next) && x.prev == old(x.prev)
  {
    hide Legal, InPool, On, World, Apply;
    after := rings;
    var n := 0;
    while n < |ops|
      invariant 0 <= n <= |ops| && World(pool, after) && LegalRun(after, ops[n..])
      invariant ApplyAll(after, ops[n..]) == ApplyAll(rings, ops)
      invariant Quiet(rings, after, ops)
      invariant forall j, x :: 0 <= j < |rings| && Spared(ops, j) && x in rings[j] ==>
                  x.next == old(x.next) && x.prev == old(x.prev)
    {
      assert ops[n..][0] == ops[n] && ops[n..][1..] == ops[n + 1..];
      QuietStep(rings, after, ops, n);
      after := Do(ops[n], after, pool);
      n := n + 1;
    }
  }

  /** Rings that the run never names keep their sequence. */
  ghost predicate Quiet(rings: seq<seq<Node>>, now: seq<seq<Node>>, ops: seq<Op>) {
    |rings| <= |now| && forall j :: 0 <= j < |rings| && Spared(ops, j) ==> now[j] == rings[j]
  }

  lemma QuietStep(rings: seq<seq<Node>>, now: seq<seq<Node>>, ops: seq<Op>, n: nat)
    requires n < |ops| && Quiet(rings, now, ops) && Legal(now, ops[n])
    ensures Quiet(rings, Apply(now, ops[n]), ops)
  {
  }
}
