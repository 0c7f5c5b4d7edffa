/**
 A producer and a consumer sharing a tls_uart_circ_buf (Include/Driver/wm_uart.h:59-79, 223-228)
 without a lock, at the grain of single index and byte accesses. The producer looks at CIRC_SPACE
 once, writes that many bytes at most, and only then moves head; the consumer looks at CIRC_CNT or
 CIRC_CNT_TO_END once, reads that many at most, and only then moves tail. Steps of the two may
 interleave in any way. `produced` and `consumed` record every byte published and taken so far.
*/
module UartFifo {
  import opened Arith
  import opened CircMath

  datatype Producer = Resting | Writing(space: nat, pending: seq<bv8>)
  datatype Consumer = Waiting | Reading(count: nat, got: seq<bv8>)

  datatype State = State(
    k: nat, buf: seq<bv8>, head: nat, tail: nat, producer: Producer, consumer: Consumer,
    produced: seq<bv8>, consumed: seq<bv8>)

  datatype Event = LookForSpace | Put(b: bv8) | Publish | LookForData | LookForRun | Take | Release

  predicate Shaped(s: State) {
    s.k <= 31 && |s.buf| == Pow2(s.k)
  }

  function Size(s: State): (r: nat)
    ensures r > 0
  {
    Pow2(s.k)
  }

  predicate Enabled(s: State, e: Event) {
    Shaped(s) &&
    match e
    case LookForSpace => s.producer.Resting?
    case Put(_) => s.producer.Writing? && |s.producer.pending| < s.producer.space
    case Publish => s.producer.Writing?
    case LookForData => s.consumer.Waiting?
    case LookForRun => s.consumer.Waiting? && CircCntToEnd(s.head, s.tail, Size(s)) >= 0
    case Take => s.consumer.Reading? && |s.consumer.got| < s.consumer.count
    case Release => s.consumer.Reading?
  }

  /** The cell `n` places behind an index. */
  function Cell(s: State, i: nat, n: nat): (r: nat)
    requires Shaped(s)
    ensures r < |s.buf|
  {
    AdvanceIs(i, n, s.k);
    Advance(i, n, Size(s))
  }

  function Step(s: State, e: Event): State
    requires Enabled(s, e)
  {
    match e
    case LookForSpace => s.(producer := Writing(CircSpace(s.head, s.tail, Size(s)), []))
    case Put(b) =>
      s.(buf := s.buf[Cell(s, s.head, |s.producer.pending|) := b],
         producer := Writing(s.producer.space, s.producer.pending + [b]))
    case Publish =>
      s.(head := Cell(s, s.head, |s.producer.pending|), producer := Resting,
         produced := s.produced + s.producer.pending)
    case LookForData => s.(consumer := Reading(CircCnt(s.head, s.tail, Size(s)), []))
    case LookForRun => s.(consumer := Reading(CircCntToEnd(s.head, s.tail, Size(s)), []))
    case Take =>
      s.(consumer := Reading(s.consumer.count,
                             s.consumer.got + [s.buf[Cell(s, s.tail, |s.consumer.got|)]]))
    case Release =>
      s.(tail := Cell(s, s.tail, |s.consumer.got|), consumer := Waiting,
         consumed := s.consumed + s.consumer.got)
  }

  predicate Initial(s: State) {
    && Shaped(s) && s.head == 0 && s.tail == 0 && s.producer == Resting && s.consumer == Waiting
    && s.produced == [] && s.consumed == []
  }

  // ---------- the invariant ----------

  /** Every byte ever written, published or not, by its position in the stream. */
  function Stream(s: State): seq<bv8> {
    s.produced + if s.producer.Writing? then s.producer.pending else []
  }

  ghost predicate Inv(s: State) {
    var m, w, r := Size(s), |s.produced|, |s.consumed|;
    && Shaped(s) && s.head == w % m && s.tail == r % m
    && s.consumed <= s.produced && w - r <= m - 1
    && (s.producer.Writing? ==> |s.producer.pending| <= s.producer.space <= m - 1 - (w - r))
    && (s.consumer.Reading? ==>
          && |s.consumer.got| <= s.consumer.count <= w - r
          && s.consumer.got == s.produced[r..r + |s.consumer.got|])
    && forall i {:trigger Stream(s)[i]} :: r <= i < |Stream(s)| ==> s.buf[i % m] == Stream(s)[i]
  }

  lemma StreamCell(s: State, base: nat, n: nat)
    requires Shaped(s)
    ensures Cell(s, base % Size(s), n) == (base + n) % Size(s)
  {
    AdvanceIs(base % Size(s), n, s.k);
    ModAdd(base, n, Size(s));
  }

  lemma CellsDiffer(i: nat, j: nat, m: nat)
    requires m > 0 && i < j < i + m
    ensures i % m != j % m
  {
    ModSub(j, i, m);
    ModSmall(j - i, m);
    ModSmall(0, m);
  }

  lemma SnapshotSpace(s: State)
    requires Inv(s)
    ensures CircSpace(s.head, s.tail, Size(s)) == Size(s) - 1 - (|s.produced| - |s.consumed|)
    ensures CircCnt(s.head, s.tail, Size(s)) == |s.produced| - |s.consumed|
    ensures CircCntToEnd(s.head, s.tail, Size(s)) >= 0 <==> s.k <= 30 || s.tail > 0
    ensures CircCntToEnd(s.head, s.tail, Size(s)) <= |s.produced| - |s.consumed|
    ensures s.tail + CircCntToEnd(s.head, s.tail, Size(s)) <= Size(s)
  {
    var m, w, r := Size(s), |s.produced|, |s.consumed|;
    CountPlusSpace(s.head, s.tail, s.k);
    CntIsDistance(s.head, s.tail, s.k);
    ModSub(w, r, m);
    ModSmall(w - r, m);
    ToEnd(s.head, s.tail, s.k);
  }

  lemma InitialInv(s: State)
    requires Initial(s)
    ensures Inv(s)
  {
    ModSmall(0, Size(s));
  }

  lemma LookInv(s: State, e: Event)
    requires Inv(s) && Enabled(s, e) && (e.LookForSpace? || e.LookForData? || e.LookForRun?)
    ensures Inv(Step(s, e))
  {
    hide CircCnt, CircSpace, CircCntToEnd, Pow2;
    SnapshotSpace(s);
    assert Stream(Step(s, e)) == Stream(s);
  }

  lemma PublishInv(s: State)
    requires Inv(s) && Enabled(s, Publish)
    ensures Inv(Step(s, Publish))
  {
    hide Cell, Pow2;
    StreamCell(s, |s.produced|, |s.producer.pending|);
    assert Stream(Step(s, Publish)) == Stream(s);
  }

  lemma ReleaseInv(s: State)
    requires Inv(s) && Enabled(s, Release)
    ensures Inv(Step(s, Release))
  {
    hide Cell, Pow2;
    StreamCell(s, |s.consumed|, |s.consumer.got|);
    assert Stream(Step(s, Release)) == Stream(s);
  }

  /** Every step of either side keeps the invariant. */
  lemma StepInv(s: State, e: Event)
    requires Inv(s) && Enabled(s, e)
    ensures Inv(Step(s, e))
  {
    hide Inv, Step;
    match e {
      case LookForSpace => LookInv(s, e);
      case Put(b) => PutInv(s, b);
      case Publish => PublishInv(s);
      case LookForData => LookInv(s, e);
      case LookForRun => LookInv(s, e);
      case Take => TakeInv(s);
      case Release => ReleaseInv(s);
    }
  }

  lemma PutInv(s: State, b: bv8)
    requires Inv(s) && Enabled(s, Put(b))
    ensures Inv(Step(s, Put(b)))
  {
    hide Cell, Pow2;
    var m, w, r := Size(s), |s.produced|, |s.consumed|;
    var s' := Step(s, Put(b));
    var at := |Stream(s)|;
    StreamCell(s, w, |s.producer.pending|);
    assert Stream(s') == Stream(s) + [b];
    forall i | r <= i < |Stream(s')| ensures s'.buf[i % m] == Stream(s')[i] {
      if i < at {
        CellsDiffer(i, at, m);
        assert Stream(s)[i] == Stream(s')[i];
      }
    }
  }

  /** The cell that the next Take reads holds the next byte of the stream. */
  lemma NextByte(s: State)
    requires Inv(s) && Enabled(s, Take)
    ensures var r, n := |s.consumed|, |s.consumer.got|;
            r + n < |s.produced| && s.buf[Cell(s, s.tail, n)] == s.produced[r + n]
  {
    hide Cell, Pow2;
    var r, n := |s.consumed|, |s.consumer.got|;
    StreamCell(s, r, n);
    assert Stream(s)[r + n] == s.produced[r + n];
  }

  lemma TakeInv(s: State)
    requires Inv(s) && Enabled(s, Take)
    ensures Inv(Step(s, Take))
  {
    hide Cell, Pow2;
    var r, n := |s.consumed|, |s.consumer.got|;
    NextByte(s);
    assert s.produced[r..r + n + 1] == s.produced[r..r + n] + [s.produced[r + n]];
    assert Stream(Step(s, Take)) == Stream(s);
  }

  // ---------- every run ----------

  predicate Feasible(s: State, run: seq<Event>)
    decreases |run|
  {
    run == [] || (Enabled(s, run[0]) && Feasible(Step(s, run[0]), run[1..]))
  }

  function Run(s: State, run: seq<Event>): State
    requires Feasible(s, run)
    decreases |run|
  {
    if run == [] then s else Run(Step(s, run[0]), run[1..])
  }

  lemma {:induction false} RunInv(s: State, run: seq<Event>)
    requires Inv(s) && Feasible(s, run)
    ensures Inv(Run(s, run))
    decreases |run|
  {
    hide Inv, Step, Enabled;
    if run != [] {
      StepInv(s, run[0]);
      RunInv(Step(s, run[0]), run[1..]);
    }
  }

  // ---------- what a run puts and takes, by its events ----------

  /** The bytes of the Put events, in order. */
  function PutBytes(run: seq<Event>): seq<bv8> {
    if run == [] then []
    else
      var last := run[|run| - 1];
      PutBytes(run[..|run| - 1]) + if last.Put? then [last.b] else []
  }

  /** The bytes put before the last Publish. */
  function Published(run: seq<Event>): seq<bv8> {
    if run == [] then []
    else if run[|run| - 1].Publish? then PutBytes(run)
    else Published(run[..|run| - 1])
  }

  function TakeCount(run: seq<Event>): nat {
    if run == [] then 0
    else TakeCount(run[..|run| - 1]) + if run[|run| - 1].Take? then 1 else 0
  }

  /** How many bytes were taken before the last Release. */
  function Released(run: seq<Event>): nat {
    if run == [] then 0
    else if run[|run| - 1].Release? then TakeCount(run)
    else Released(run[..|run| - 1])
  }

  /** The byte that a Take reads from the buffer. */
  function ByteRead(s: State, e: Event): seq<bv8>
    requires Enabled(s, e)
  {
    if e.Take? then [s.buf[Cell(s, s.tail, |s.consumer.got|)]] else []
  }

  /** What the Take events of a run read from the buffer, in order. */
  function BytesRead(s: State, run: seq<Event>): seq<bv8>
    requires Feasible(s, run)
    decreases |run|
  {
    if run == [] then [] else ByteRead(s, run[0]) + BytesRead(Step(s, run[0]), run[1..])
  }

  lemma {:induction false} RunSnoc(s: State, run: seq<Event>)
    requires run != [] && Feasible(s, run)
    ensures var init, last := run[..|run| - 1], run[|run| - 1];
            && Feasible(s, init) && Enabled(Run(s, init), last)
            && Run(s, run) == Step(Run(s, init), last)
            && BytesRead(s, run) == BytesRead(s, init) + ByteRead(Run(s, init), last)
    decreases |run|
  {
    hide Step, Enabled, ByteRead;
    var init, last := run[..|run| - 1], run[|run| - 1];
    if |run| > 1 {
      var s1, rest := Step(s, run[0]), run[1..];
      RunSnoc(s1, rest);
      assert rest[..|rest| - 1] == init[1..] && init[0] == run[0];
    } else {
      assert init == [] && run[1..] == [];
      assert Run(s, run) == Run(Step(s, last), run[1..]);
      assert BytesRead(s, run) == ByteRead(s, last) + BytesRead(Step(s, last), run[1..]);
    }
  }

  function Taken(s: State): seq<bv8> {
    s.consumed + if s.consumer.Reading? then s.consumer.got else []
  }

  /** How one step moves the history variables. */
  lemma StepHistory(s: State, e: Event)
    requires Enabled(s, e)
    ensures var t := Step(s, e);
            && Stream(t) == Stream(s) + (if e.Put? then [e.b] else [])
            && t.produced == (if e.Publish? then Stream(t) else s.produced)
            && Taken(t) == Taken(s) + ByteRead(s, e)
            && t.consumed == (if e.Release? then Taken(t) else s.consumed)
  {
    hide CircCnt, CircSpace, CircCntToEnd, Pow2, Cell;
  }

  /** The history variables of a run say what its events say. */
  lemma {:induction false} History(s: State, run: seq<Event>)
    requires Initial(s) && Feasible(s, run)
    ensures var t := Run(s, run);
            && Stream(t) == PutBytes(run) && t.produced == Published(run)
            && Taken(t) == BytesRead(s, run) && |Taken(t)| == TakeCount(run) && |t.consumed| == Released(run)
    decreases |run|
  {
    hide Step, Enabled, Feasible;
    if run != [] {
      var init, last := run[..|run| - 1], run[|run| - 1];
      RunSnoc(s, run);
      History(s, init);
      StepHistory(Run(s, init), last);
    } else {
      assert Run(s, run) == s;
    }
  }

  lemma {:induction false} SizeKept(s: State, run: seq<Event>)
    requires Feasible(s, run)
    ensures Run(s, run).k == s.k
    decreases |run|
  {
    hide CircCnt, CircSpace, CircCntToEnd, Pow2, Cell;
    if run != [] {
      SizeKept(Step(s, run[0]), run[1..]);
    }
  }

  /**
   Under every interleaving the ring is a FIFO. In terms of the events alone: the bytes that the takes read
   from the buffer are the first of the bytes put, in order, and none is taken before it is published; head
   and tail are where the last publish and release put them; at most size - 1 bytes are between them, which
   CIRC_CNT counts while CIRC_SPACE counts the rest; and every byte between them is still in its cell.
  */
  lemma FifoInEveryRun(s: State, run: seq<Event>)
    requires Initial(s) && Feasible(s, run)
    ensures var t, m, put := Run(s, run), Pow2(s.k), PutBytes(run);
            var w, r := |Published(run)|, Released(run);
            && r <= TakeCount(run) <= w <= |put| && w - r <= m - 1
            && BytesRead(s, run) == put[..TakeCount(run)]
            && t.head == w % m && t.tail == r % m && |t.buf| == m
            && CircCnt(t.head, t.tail, m) == w - r && CircSpace(t.head, t.tail, m) == m - 1 - (w - r)
            && (forall i :: r <= i < |put| ==> t.buf[i % m] == put[i])
            && (t.head == t.tail <==> r == w)
  {
    hide CircCnt, CircSpace, CircCntToEnd, Pow2, PutBytes, Published, TakeCount, Released, BytesRead, Feasible, Run;
    InitialInv(s);
    RunInv(s, run);
    History(s, run);
    SizeKept(s, run);
    var t := Run(s, run);
    SnapshotSpace(t);
    FifoOf(t);
  }

  lemma FifoOf(t: State)
    requires Inv(t)
    ensures var m, w, r, put := Size(t), |t.produced|, |t.consumed|, Stream(t);
            && r <= |Taken(t)| <= w <= |put| && Taken(t) == put[..|Taken(t)|]
            && (forall i :: r <= i < |put| ==> t.buf[i % m] == put[i])
            && (t.head == t.tail <==> r == w)
  {
    hide Pow2;
    var m, w, r, put := Size(t), |t.produced|, |t.consumed|, Stream(t);
    assert put[..w] == t.produced;
    if t.consumer.Reading? {
      var n := |t.consumer.got|;
      assert t.produced[..r + n] == t.produced[..r] + t.produced[r..r + n];
    }
    assert Taken(t) == t.produced[..|Taken(t)|];
    if r < w {
      CellsDiffer(r, w, m);
    }
  }

  /** What either side sees when it looks, in terms of the events so far. */
  lemma LooksExact(s: State, run: seq<Event>)
    requires Initial(s) && Feasible(s, run)
    ensures var t, m, unread := Run(s, run), Pow2(s.k), |Published(run)| - Released(run);
            && unread >= 0
            && (t.producer.Resting? ==>
                  && Enabled(t, LookForSpace) && m - 1 - unread >= 0
                  && Step(t, LookForSpace).producer == Writing(m - 1 - unread, []))
            && (t.consumer.Waiting? ==>
                  && Enabled(t, LookForData) && Step(t, LookForData).consumer == Reading(unread, [])
                  && (Enabled(t, LookForRun) <==> s.k <= 30 || t.tail > 0)
                  && (Enabled(t, LookForRun) ==>
                        && t.tail < m
                        && Step(t, LookForRun).consumer
                        == Reading(if unread < m - t.tail then unread else m - t.tail, [])))
  {
    hide CircCnt, CircSpace, CircCntToEnd, Pow2, Published, Released, Feasible, Run;
    InitialInv(s);
    RunInv(s, run);
    History(s, run);
    SizeKept(s, run);
    SnapshotSpace(Run(s, run));
    RunToEndIs(Run(s, run));
  }

  lemma RunToEndIs(t: State)
    requires Inv(t)
    ensures var unread := |t.produced| - |t.consumed|;
            && t.tail < Size(t)
            && (t.k <= 30 || t.tail > 0 ==>
                  CircCntToEnd(t.head, t.tail, Size(t))
                  == if unread < Size(t) - t.tail then unread else Size(t) - t.tail)
  {
    hide CircCnt, CircSpace, CircCntToEnd, Pow2;
    SnapshotSpace(t);
    ToEnd(t.head, t.tail, t.k);
  }

  // ---------- bytes get through ----------

  function Puts(data: seq<bv8>): (r: seq<Event>)
    ensures |r| == |data|
  {
    seq(|data|, i requires 0 <= i < |data| => Put(data[i]))
  }

  function TakeEvents(n: nat): (r: seq<Event>)
    ensures |r| == n
  {
    seq(n, i => Take)
  }

  lemma {:induction false} PutAll(s: State, data: seq<bv8>)
    requires Inv(s) && s.producer.Writing? && |s.producer.pending| + |data| <= s.producer.space
    ensures Feasible(s, Puts(data)) && Inv(Run(s, Puts(data)))
    ensures var t := Run(s, Puts(data));
            t == s.(buf := t.buf, producer := Writing(s.producer.space, s.producer.pending + data))
    decreases |data|
  {
    hide Pow2, Cell, Inv;
    assert Shaped(s) by { InvShaped(s); }
    if data != [] {
      var e := Put(data[0]);
      StepInv(s, e);
      PutAll(Step(s, e), data[1..]);
      assert Puts(data)[0] == e && Puts(data)[1..] == Puts(data[1..]);
      assert s.producer.pending + [data[0]] + data[1..] == s.producer.pending + data;
    } else {
      assert s.producer.pending + data == s.producer.pending;
    }
  }

  lemma InvShaped(s: State)
    requires Inv(s)
    ensures Shaped(s)
  {
  }

  lemma {:induction false} TakeAll(s: State, n: nat)
    requires Inv(s) && s.consumer.Reading? && |s.consumer.got| + n <= s.consumer.count
    ensures Feasible(s, TakeEvents(n)) && Inv(Run(s, TakeEvents(n)))
    ensures var t := Run(s, TakeEvents(n));
            && t.consumer.Reading? && t == s.(consumer := Reading(s.consumer.count, t.consumer.got))
            && |t.consumer.got| == |s.consumer.got| + n
    decreases n
  {
    hide Pow2, Cell, Inv;
    assert Shaped(s) by { InvShaped(s); }
    if n > 0 {
      StepInv(s, Take);
      TakeAll(Step(s, Take), n - 1);
      assert TakeEvents(n)[0] == Take && TakeEvents(n)[1..] == TakeEvents(n - 1);
    }
  }

  lemma {:induction false} RunConcat(s: State, a: seq<Event>, b: seq<Event>)
    requires Feasible(s, a) && Feasible(Run(s, a), b)
    ensures Feasible(s, a + b) && Run(s, a + b) == Run(Run(s, a), b)
    decreases |a|
  {
    hide Step, Enabled;
    if a == [] {
      assert a + b == b;
    } else {
      assert (a + b)[1..] == a[1..] + b;
      RunConcat(Step(s, a[0]), a[1..], b);
    }
  }

  lemma RunThen(s: State, a: seq<Event>, e: Event)
    requires Feasible(s, a) && Enabled(Run(s, a), e)
    ensures Feasible(s, a + [e]) && Run(s, a + [e]) == Step(Run(s, a), e)
  {
    hide Step, Enabled;
    var t := Run(s, a);
    assert [e][1..] == [] && Feasible(Step(t, e), []) && Run(Step(t, e), []) == Step(t, e);
    assert Feasible(t, [e]) && Run(t, [e]) == Step(t, e);
    RunConcat(s, a, [e]);
  }

  function Sending(data: seq<bv8>): seq<Event> {
    [LookForSpace] + Puts(data) + [Publish]
  }

  function Receiving(n: nat): seq<Event> {
    [LookForData] + TakeEvents(n) + [Release]
  }

  /** The producer can publish as many bytes as there is room for. */
  lemma Sends(s: State, data: seq<bv8>)
    requires Inv(s) && s.producer.Resting? && |data| <= Size(s) - 1 - (|s.produced| - |s.consumed|)
    ensures Feasible(s, Sending(data)) && Inv(Run(s, Sending(data)))
    ensures var t := Run(s, Sending(data));
            t == s.(buf := t.buf, head := t.head, produced := s.produced + data)
  {
    hide CircCnt, CircSpace, CircCntToEnd, Pow2, Cell, Run, Feasible, Inv;
    InvShaped(s);
    SnapshotSpace(s);
    var s1 := Step(s, LookForSpace);
    StepInv(s, LookForSpace);
    First(s, LookForSpace);
    PutAll(s1, data);
    RunConcat(s, [LookForSpace], Puts(data));
    var s2 := Run(s1, Puts(data));
    InvShaped(s2);
    StepInv(s2, Publish);
    RunThen(s, [LookForSpace] + Puts(data), Publish);
    assert [] + data == data;
  }

  lemma First(s: State, e: Event)
    requires Enabled(s, e)
    ensures Feasible(s, [e]) && Run(s, [e]) == Step(s, e)
  {
    hide Step, Enabled;
    assert [e][1..] == [] && Feasible(Step(s, e), []);
  }

  /** The consumer can take everything that is unread, and gets the bytes published. */
  lemma Receives(s: State)
    requires Inv(s) && s.consumer.Waiting? && |s.consumed| <= |s.produced|
    ensures var run := Receiving(|s.produced| - |s.consumed|);
            && Feasible(s, run) && Inv(Run(s, run))
            && Run(s, run) == s.(tail := Run(s, run).tail, consumed := s.produced)
  {
    hide CircCnt, CircSpace, CircCntToEnd, Pow2, Cell, Run, Feasible, Inv;
    InvShaped(s);
    SnapshotSpace(s);
    var n := |s.produced| - |s.consumed|;
    var s1 := Step(s, LookForData);
    StepInv(s, LookForData);
    First(s, LookForData);
    TakeAll(s1, n);
    RunConcat(s, [LookForData], TakeEvents(n));
    var s2 := Run(s1, TakeEvents(n));
    InvShaped(s2);
    StepInv(s2, Release);
    RunThen(s, [LookForData] + TakeEvents(n), Release);
    AllTaken(Step(s2, Release));
  }

  lemma AllTaken(s: State)
    requires Inv(s) && |s.consumed| == |s.produced|
    ensures s.consumed == s.produced
  {
  }

  /**
   Bytes get through: after any run that leaves both sides idle, whatever fits into the room can be sent, and
   a receive then delivers everything unread and these bytes, leaving the ring empty.
  */
  lemma TransferDelivers(s: State, run: seq<Event>, data: seq<bv8>)
    requires Initial(s) && Feasible(s, run) && Run(s, run).producer.Resting? && Run(s, run).consumer.Waiting?
    requires |data| <= Pow2(s.k) - 1 - (|Published(run)| - Released(run))
    ensures Released(run) <= |Published(run)|
    ensures var more := Sending(data) + Receiving(|Published(run)| - Released(run) + |data|);
            && Feasible(s, run + more)
            && BytesRead(s, run + more) == PutBytes(run) + data
            && Run(s, run + more).head == Run(s, run + more).tail
  {
    hide CircCnt, CircSpace, CircCntToEnd, Pow2, Run, Feasible, Inv, Published, Released, BytesRead, PutBytes, Taken,
         Sending, Receiving;
    InitialInv(s);
    RunInv(s, run);
    History(s, run);
    SizeKept(s, run);
    FifoInEveryRun(s, run);
    var t, n := Run(s, run), |Published(run)| - Released(run) + |data|;
    Sends(t, data);
    var u := Run(t, Sending(data));
    Receives(u);
    RunConcat(t, Sending(data), Receiving(n));
    RunConcat(s, run, Sending(data) + Receiving(n));
    var v := Run(s, run + (Sending(data) + Receiving(n)));
    History(s, run + (Sending(data) + Receiving(n)));
    Idle(t);
    Idle(v);
    FifoOf(v);
  }

  /** With both sides idle, the stream is what was published and the bytes taken are those released. */
  lemma Idle(s: State)
    requires s.producer.Resting? && s.consumer.Waiting?
    ensures Stream(s) == s.produced && Taken(s) == s.consumed
  {
  }

  lemma CountedByte(t: State, j: nat)
    requires Inv(t) && t.consumer.Reading? && j < t.consumer.count
    ensures |t.consumed| + j < |t.produced| && t.buf[Cell(t, t.tail, j)] == t.produced[|t.consumed| + j]
    ensures t.tail + j < Size(t) ==> Cell(t, t.tail, j) == t.tail + j
  {
    hide Pow2, Cell;
    StreamCell(t, |t.consumed|, j);
    assert Stream(t)[|t.consumed| + j] == t.produced[|t.consumed| + j];
    AdvanceInside(t, j);
  }

  lemma AdvanceInside(t: State, j: nat)
    requires Shaped(t)
    ensures t.tail + j < Size(t) ==> Cell(t, t.tail, j) == t.tail + j
  {
    hide Pow2, Advance;
    AdvanceIs(t.tail, j, t.k);
    if t.tail + j < Size(t) {
      ModSmall(t.tail + j, Size(t));
    }
  }

  /** No step of the producer takes away what the consumer has counted: its snapshot stays readable to the end. */
  lemma SnapshotStaysReadable(s: State, run: seq<Event>)
    requires Initial(s) && Feasible(s, run) && Run(s, run).consumer.Reading?
    ensures var t := Run(s, run);
            && Shaped(t) && t.consumer.count <= CircCnt(t.head, t.tail, Size(t))
            && |t.consumed| + t.consumer.count <= |t.produced|
            && forall j: nat :: j < t.consumer.count ==> t.buf[Cell(t, t.tail, j)] == t.produced[|t.consumed| + j]
  {
    hide CircCnt, CircSpace, CircCntToEnd, Pow2, Cell, Run, Feasible;
    InitialInv(s);
    RunInv(s, run);
    var t := Run(s, run);
    SnapshotSpace(t);
    forall j: nat | j < t.consumer.count ensures t.buf[Cell(t, t.tail, j)] == t.produced[|t.consumed| + j] {
      CountedByte(t, j);
    }
  }

  /** A run up to the end of the buffer, once counted, can be copied in one piece while the producer goes on. */
  lemma RunToEndStaysContiguous(s: State, before: seq<Event>, after: seq<Event>)
    requires Initial(s) && Feasible(s, before)
    requires Enabled(Run(s, before), LookForRun) && Feasible(Step(Run(s, before), LookForRun), after)
    requires forall i :: 0 <= i < |after| ==> !after[i].Release?
    ensures var t := Run(s, before);
            var n, u := CircCntToEnd(t.head, t.tail, Size(t)), Run(Step(t, LookForRun), after);
            && u.tail == t.tail && |t.consumed| + n <= |u.produced| && u.tail + n <= |u.buf|
            && u.buf[u.tail..u.tail + n] == u.produced[|t.consumed|..|t.consumed| + n]
  {
    hide CircCnt, CircSpace, CircCntToEnd, Run, Feasible, Inv;
    var t := Run(s, before);
    InitialInv(s);
    RunInv(s, before);
    SnapshotSpace(t);
    var t1 := Step(t, LookForRun);
    StepInv(t, LookForRun);
    HoldsCount(t1, after);
    RunInv(t1, after);
    CountedRun(Run(t1, after));
  }

  lemma CountedRun(u: State)
    requires Inv(u) && u.consumer.Reading? && u.tail + u.consumer.count <= Size(u)
    ensures var n, r := u.consumer.count, |u.consumed|;
            && r + n <= |u.produced| && |u.buf| == Size(u) && u.buf[u.tail..u.tail + n] == u.produced[r..r + n]
  {
    hide Pow2, Cell;
    var n, r := u.consumer.count, |u.consumed|;
    var a, b := u.buf[u.tail..u.tail + n], u.produced[r..r + n];
    forall j | 0 <= j < n ensures a[j] == b[j] {
      CountedByte(u, j);
    }
  }

  lemma {:induction false} HoldsCount(s: State, run: seq<Event>)
    requires s.consumer.Reading? && Feasible(s, run)
    requires forall i :: 0 <= i < |run| ==> !run[i].Release?
    ensures var u := Run(s, run);
            && u.consumer.Reading? && u.consumer.count == s.consumer.count
            && u.tail == s.tail && u.consumed == s.consumed && u.k == s.k
    decreases |run|
  {
    hide CircCnt, CircSpace, CircCntToEnd, Pow2, Cell;
    if run != [] {
      HoldsCount(Step(s, run[0]), run[1..]);
    }
  }
}
