/**
 The intrusive circular doubly linked list of Include/list.h. A ring is described by the sequence
 of its nodes starting at the list head; the C code has no such object, so the sequence travels
 as a ghost argument and every operation touches only the nodes whose links it rewrites.
*/
module DlList {

  class Node {
    var next: Node?
    var prev: Node?
  }

  function After(i: nat, n: nat): (r: nat)
    requires i < n
    ensures r < n
  {
    if i + 1 < n then i + 1 else 0
  }

  function Before(i: nat, n: nat): (r: nat)
    requires i < n
    ensures r < n
  {
    if i == 0 then n - 1 else i - 1
  }

  lemma Neighbours(i: nat, n: nat)
    requires i < n
    ensures n > 1 ==> After(i, n) != i && Before(i, n) != i
    ensures Before(After(i, n), n) == i && After(Before(i, n), n) == i
  {
  }

  ghost predicate Distinct(s: seq<Node>) {
    forall i, j :: 0 <= i < j < |s| ==> s[i] != s[j]
  }

  /** `next` and `prev` lead round the nodes of `r`, forwards and backwards, and no node occurs twice. */
  ghost predicate Ring(r: seq<Node>)
    reads r
  {
    && |r| > 0 && Distinct(r)
    && (forall i {:trigger r[i].next} :: 0 <= i < |r| ==> r[i].next == r[After(i, |r|)])
    && (forall i {:trigger r[i].prev} :: 0 <= i < |r| ==> r[i].prev == r[Before(i, |r|)])
  }

  /** next and prev are mutually inverse on a ring and stay inside it. */
  lemma RingInverse(r: seq<Node>, x: Node)
    requires Ring(r) && x in r
    ensures x.next in r && x.prev in r && x.next.prev == x && x.prev.next == x
  {
    hide After, Before;
    var i :| 0 <= i < |r| && r[i] == x;
    Neighbours(i, |r|);
  }

  method Init(list: Node)
    modifies list
    ensures Ring([list])
  {
    list.next := list;
    list.prev := list;
  }

  /** Links `item` in behind position `k`; behind the head this is the front of the list. */
  method Add(list: Node, item: Node, ghost r: seq<Node>, ghost k: nat)
    requires Ring(r) && k < |r| && r[k] == list && item !in r
    modifies list, list.next, item
    ensures Ring(Inserted(r, k, item))
  {
    hide After, Before, Inserted;
    item.next := list.next;
    item.prev := list;
    list.next.prev := item;
    list.next := item;
    ghost var n, j, s := |r|, After(k, |r|), Inserted(r, k, item);
    assert forall i {:trigger r[i].next} :: 0 <= i < n ==> r[i].next == if i == k then item else r[After(i, n)];
    assert forall i {:trigger r[i].prev} :: 0 <= i < n ==> r[i].prev == if i == j then item else r[Before(i, n)];
    InsertedNodes(r, k, item);
    forall i | 0 <= i < n + 1 ensures s[i].next == s[After(i, n + 1)] && s[i].prev == s[Before(i, n + 1)] {
      InsertedNeighbours(r, k, item, i);
    }
  }

  lemma InsertedNodes(r: seq<Node>, k: nat, item: Node)
    requires Distinct(r) && k < |r| && item !in r
    ensures Distinct(Inserted(r, k, item)) && |Inserted(r, k, item)| == |r| + 1
  {
  }

  /** Which nodes stand next to each other after an insertion. */
  lemma InsertedNeighbours(r: seq<Node>, k: nat, item: Node, i: nat)
    requires k < |r| && i <= |r|
    ensures var n, s := |r|, Inserted(r, k, item);
            && (i == k + 1 ==> s[i] == item && s[After(i, n + 1)] == r[After(k, n)] && s[Before(i, n + 1)] == r[k])
            && (i <= k ==> s[i] == r[i] && s[After(i, n + 1)] == if i == k then item else r[After(i, n)])
            && (i > k + 1 ==> s[i] == r[i - 1] && s[After(i, n + 1)] == r[After(i - 1, n)])
            && (i != k + 1 ==> var m := if i <= k then i else i - 1;
                  s[Before(i, n + 1)] == if m == After(k, n) then item else r[Before(m, n)])
  {
  }

  function Inserted(r: seq<Node>, k: nat, item: Node): seq<Node>
    requires k < |r|
  {
    r[..k + 1] + [item] + r[k + 1..]
  }

  method AddTail(list: Node, item: Node, ghost r: seq<Node>)
    requires Ring(r) && r[0] == list && item !in r
    modifies list, list.prev, item
    ensures Ring(r + [item])
  {
    assert r[|r| - 1].next == list;
    Add(list.prev, item, r, |r| - 1);
    assert Inserted(r, |r| - 1, item) == r + [item];
  }

  function Without(r: seq<Node>, k: nat): seq<Node>
    requires k < |r|
  {
    r[..k] + r[k + 1..]
  }

  method Del(item: Node, ghost r: seq<Node>, ghost k: nat)
    requires Ring(r) && k < |r| && r[k] == item
    modifies item, item.next, item.prev
    ensures item.next == null && item.prev == null
    ensures |r| > 1 ==> Ring(Without(r, k))
  {
    hide After, Before, Without;
    Neighbours(k, |r|);
    ghost var a, b := Before(k, |r|), After(k, |r|);
    assert item.next == r[b] && item.prev == r[a];
    item.next.prev := item.prev;
    item.prev.next := item.next;
    item.next := null;
    item.prev := null;
    if |r| > 1 {
      RingWithout(r, k);
    }
  }

  /** When the neighbours of position `k` point past it, the others form a ring. */
  lemma RingWithout(r: seq<Node>, k: nat)
    requires Distinct(r) && |r| > 1 && k < |r|
    requires forall i {:trigger r[i].next} :: 0 <= i < |r| && i != k ==>
               r[i].next == if i == Before(k, |r|) then r[After(k, |r|)] else r[After(i, |r|)]
    requires forall i {:trigger r[i].prev} :: 0 <= i < |r| && i != k ==>
               r[i].prev == if i == After(k, |r|) then r[Before(k, |r|)] else r[Before(i, |r|)]
    ensures Ring(Without(r, k))
  {
    hide After, Before, Without;
    var n, s := |r|, Without(r, k);
    WithoutNodes(r, k);
    forall i | 0 <= i < n - 1 ensures s[i].next == s[After(i, n - 1)] && s[i].prev == s[Before(i, n - 1)] {
      WithoutNeighbours(r, k, i);
    }
  }

  lemma WithoutNodes(r: seq<Node>, k: nat)
    requires Distinct(r) && k < |r|
    ensures Distinct(Without(r, k)) && |Without(r, k)| == |r| - 1
    ensures forall x :: x in Without(r, k) ==> x in r && x != r[k]
  {
  }

  /** Which nodes stand next to each other after a removal. */
  lemma WithoutNeighbours(r: seq<Node>, k: nat, i: nat)
    requires k < |r| && i < |r| - 1
    ensures var n, s, m := |r|, Without(r, k), if i < k then i else i + 1;
            && s[i] == r[m]
            && s[After(i, n - 1)] == (if m == Before(k, n) then r[After(k, n)] else r[After(m, n)])
            && s[Before(i, n - 1)] == (if m == After(k, n) then r[Before(k, n)] else r[Before(m, n)])
  {
  }

  method Empty(list: Node, ghost r: seq<Node>) returns (e: bool)
    requires Ring(r) && r[0] == list
    ensures e <==> r[1..] == []
  {
    e := list.next == list;
  }

  method Len(list: Node, ghost r: seq<Node>) returns (count: nat)
    requires Ring(r) && r[0] == list
    ensures count == |r[1..]|
  {
    count := 0;
    var item := list.next;
    while item != list
      invariant 0 <= count < |r| && item == r[After(count, |r|)]
      decreases |r| - count
    {
      count := count + 1;
      item := item.next;
    }
  }

  /** dl_list_for_each: the items in order. */
  method ForEach(list: Node, ghost r: seq<Node>) returns (visited: seq<Node>)
    requires Ring(r) && r[0] == list
    ensures visited == r[1..]
  {
    visited := [];
    var item := list.next;
    while item != list
      invariant |visited| < |r| && visited == r[1..1 + |visited|] && item == r[After(|visited|, |r|)]
      decreases |r| - |visited|
    {
      visited := visited + [item];
      item := item.next;
    }
  }

  ghost function Backwards(s: seq<Node>): (b: seq<Node>)
    ensures |b| == |s| && forall i :: 0 <= i < |s| ==> b[i] == s[|s| - 1 - i]
  {
    seq(|s|, i requires 0 <= i < |s| => s[|s| - 1 - i])
  }

  /** dl_list_for_each_reverse: the items in reverse order. */
  method ForEachReverse(list: Node, ghost r: seq<Node>) returns (visited: seq<Node>)
    requires Ring(r) && r[0] == list
    ensures visited == Backwards(r[1..])
  {
    visited := [];
    var item := list.prev;
    while item != list
      invariant |visited| < |r| && item == r[|r| - 1 - |visited|]
      invariant forall i :: 0 <= i < |visited| ==> visited[i] == r[|r| - 1 - i]
      decreases |r| - |visited|
    {
      visited := visited + [item];
      item := item.prev;
    }
  }

  ghost function Kept(s: seq<Node>, doomed: set<Node>): (k: seq<Node>)
    ensures forall x :: x in k ==> x in s && x !in doomed
    ensures forall x :: x in s && x !in doomed ==> x in k
  {
    if s == [] then []
    else
      var k := Kept(s[..|s| - 1], doomed);
      if s[|s| - 1] in doomed then k else k + [s[|s| - 1]]
  }

  /**
   dl_list_for_each_safe with a body that deletes the current item when it is in `doomed`: every item
   is visited once, in order, and the list keeps exactly the others, in order.
  */
  method ForEachSafe(list: Node, doomed: set<Node>, ghost r: seq<Node>) returns (visited: seq<Node>)
    requires Ring(r) && r[0] == list
    modifies r
    ensures visited == r[1..]
    ensures Ring([list] + Kept(r[1..], doomed))
    ensures forall x :: x in r[1..] && x in doomed ==> x.next == null && x.prev == null
  {
    hide AtItem, Progress;
    visited := [];
    RingNext(r, 0);
    var item: Node? := list.next;
    RingNext(r, if |r| > 1 then 1 else 0);
    var n := item.next;
    ghost var i := 0;
    assert AtItem(list, doomed, r, 0, item, n) by { SafeStart(list, doomed, r, item, n); }
    while item != list
      invariant 0 <= i < |r| && visited == r[1..1 + i]
      invariant AtItem(list, doomed, r, i, item, n)
      decreases |r| - i
    {
      AtItemFacts(list, doomed, r, i, item, n);
      visited := visited + [item];
      item, n := SafeStep(list, item, n, doomed, r, i);
      i := i + 1;
    }
    SafeEnd(list, doomed, r, i, n);
  }

  /** The loop head of dl_list_for_each_safe after `i` items. */
  ghost predicate AtItem(list: Node, doomed: set<Node>, r: seq<Node>, i: nat, item: Node?, n: Node?)
    reads r, if i < |r| && r[0] == list then Progress(list, r, doomed, i) else []
  {
    && i < |r| && r[0] == list && Distinct(r)
    && item == (if 1 + i < |r| then r[1 + i] else list) && n != null && n == item.next
    && Ring(Progress(list, r, doomed, i)) && Unlinked(r[1..1 + i], doomed)
  }

  ghost predicate Unlinked(s: seq<Node>, doomed: set<Node>)
    reads s
  {
    forall x :: x in s && x in doomed ==> x.next == null && x.prev == null
  }

  lemma SafeStart(list: Node, doomed: set<Node>, r: seq<Node>, item: Node?, n: Node?)
    requires Ring(r) && r[0] == list && list.next == item && item != null && item.next == n
    ensures AtItem(list, doomed, r, 0, item, n)
  {
    hide Progress;
    ProgressStart(list, r, doomed);
    RingNext(r, 0);
    RingNext(r, if |r| > 1 then 1 else 0);
  }

  lemma AtItemFacts(list: Node, doomed: set<Node>, r: seq<Node>, i: nat, item: Node?, n: Node?)
    requires AtItem(list, doomed, r, i, item, n) && item != list
    ensures 1 + i < |r| && item == r[1 + i] && r[1..1 + i] + [item] == r[1..2 + i]
  {
  }

  lemma SafeEnd(list: Node, doomed: set<Node>, r: seq<Node>, i: nat, n: Node?)
    requires AtItem(list, doomed, r, i, list, n)
    ensures 1 + i == |r| && r[1..1 + i] == r[1..] && Ring([list] + Kept(r[1..], doomed))
    ensures forall x :: x in r[1..] && x in doomed ==> x.next == null && x.prev == null
  {
    hide Progress;
    ProgressEnd(list, r, doomed, i);
  }

  /** One turn: the body, then `item = n, n = n->next`. */
  method SafeStep(list: Node, item: Node?, n: Node?, doomed: set<Node>, ghost r: seq<Node>, ghost i: nat)
    returns (item': Node?, n': Node?)
    requires AtItem(list, doomed, r, i, item, n) && item != list
    modifies r
    ensures 1 + i < |r| && AtItem(list, doomed, r, i + 1, item', n')
  {
    hide Progress, Ring, Unlinked;
    ProgressStep(list, r, doomed, i);
    ghost var k := ProgressIndex(list, r, doomed, i);
    RingNext(Progress(list, r, doomed, i), k);
    if item in doomed {
      SafeDelete(list, item, doomed, r, i, k);
    } else {
      UnlinkedMore(r, doomed, i);
    }
    RingNext(Progress(list, r, doomed, i + 1), ProgressIndex(list, r, doomed, i + 1));
    item', n' := n, n.next;
  }

  lemma UnlinkedMore(r: seq<Node>, doomed: set<Node>, i: nat)
    requires 1 + i < |r| && Unlinked(r[1..1 + i], doomed)
    requires r[1 + i] in doomed ==> r[1 + i].next == null && r[1 + i].prev == null
    ensures Unlinked(r[1..2 + i], doomed)
  {
    assert r[1..2 + i] == r[1..1 + i] + [r[1 + i]];
  }

  method SafeDelete(list: Node, item: Node, doomed: set<Node>, ghost r: seq<Node>, ghost i: nat, ghost k: nat)
    requires 1 + i < |r| && r[0] == list && Distinct(r) && item == r[1 + i] && item in doomed
    requires Ring(Progress(list, r, doomed, i)) && Unlinked(r[1..1 + i], doomed)
    requires k == ProgressIndex(list, r, doomed, i)
    modifies r
    ensures Ring(Progress(list, r, doomed, i + 1)) && Unlinked(r[1..2 + i], doomed)
  {
    hide Progress, Ring, Kept;
    ghost var cur := Progress(list, r, doomed, i);
    ProgressStep(list, r, doomed, i);
    ProgressExcludes(list, r, doomed, i);
    RingNext(cur, k);
    Del(item, cur, k);
    assert Unlinked(r[1..1 + i], doomed);
    UnlinkedMore(r, doomed, i);
  }

  lemma ProgressExcludes(list: Node, r: seq<Node>, doomed: set<Node>, i: nat)
    requires Distinct(r) && i < |r| && r[0] == list
    ensures forall x :: x in r[1..1 + i] && x in doomed ==> x !in Progress(list, r, doomed, i)
  {
    hide Kept;
  }

  lemma ProgressStart(list: Node, r: seq<Node>, doomed: set<Node>)
    requires |r| > 0 && r[0] == list
    ensures Progress(list, r, doomed, 0) == r
  {
    assert r[1..1] == [];
  }

  lemma ProgressEnd(list: Node, r: seq<Node>, doomed: set<Node>, i: nat)
    requires Distinct(r) && i < |r| && r[0] == list && list == if 1 + i < |r| then r[1 + i] else list
    ensures r[1..1 + i] == r[1..] && Progress(list, r, doomed, i) == [list] + Kept(r[1..], doomed)
  {
    hide Kept;
    assert 1 + i == |r|;
    assert r[1..1 + i] == r[1..] && r[1 + i..] == [];
  }

  /** The list while `i` items have been visited. */
  ghost function Progress(list: Node, r: seq<Node>, doomed: set<Node>, i: nat): seq<Node>
    requires i < |r| && r[0] == list
    ensures forall x :: x in Progress(list, r, doomed, i) ==> x in r
  {
    [list] + Kept(r[1..1 + i], doomed) + r[1 + i..]
  }

  /** Where the next item to visit stands in it; at the end, the head. */
  ghost function ProgressIndex(list: Node, r: seq<Node>, doomed: set<Node>, i: nat): (k: nat)
    requires i < |r| && r[0] == list
    ensures k < |Progress(list, r, doomed, i)|
    ensures Progress(list, r, doomed, i)[k] == if 1 + i < |r| then r[1 + i] else list
  {
    if 1 + i < |r| then |Kept(r[1..1 + i], doomed)| + 1 else 0
  }

  lemma RingNext(r: seq<Node>, k: nat)
    requires Ring(r) && k < |r|
    ensures Distinct(r) && r[k].next == r[if k + 1 < |r| then k + 1 else 0]
    ensures r[k].next in r && r[k].prev in r
  {
  }

  lemma ProgressStep(list: Node, r: seq<Node>, doomed: set<Node>, i: nat)
    requires Distinct(r) && 1 + i < |r| && r[0] == list
    ensures var s, k := Progress(list, r, doomed, i), ProgressIndex(list, r, doomed, i);
            && (if k + 1 < |s| then s[k + 1] else s[0]) == (if 2 + i < |r| then r[2 + i] else list)
            && |s| > 1 && Progress(list, r, doomed, i + 1) == if r[1 + i] in doomed then Without(s, k) else s
  {
    hide Kept;
    var item, done := r[1 + i], r[1..1 + i];
    assert r[1..2 + i] == done + [item];
    KeptSnoc(done, item, doomed);
    var s, k := Progress(list, r, doomed, i), |Kept(done, doomed)| + 1;
    assert r[1 + i..] == [item] + r[2 + i..];
    assert s[..k] == [list] + Kept(done, doomed) && s[k + 1..] == r[2 + i..];
  }

  lemma KeptSnoc(s: seq<Node>, x: Node, doomed: set<Node>)
    ensures Kept(s + [x], doomed) == if x in doomed then Kept(s, doomed) else Kept(s, doomed) + [x]
  {
    assert (s + [x])[..|s|] == s;
  }
}
