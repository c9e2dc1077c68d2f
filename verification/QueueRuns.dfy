/** Whole runs of a queue: where every accepted message ends up, in which order messages come out, and
    how long a dequeued slot can still be read. */
module QueueRuns {
  import opened Words
  import opened Rings
  import opened CanQueue

  /** The steps of a run.  Taking from an empty queue does nothing, as in `dequeue_noblock`; a taken
      message is delivered, or thrown away as stale. */
  datatype Op<T> = Enqueue(m: T) | Deliver | Discard

  datatype History<T> = History(
    ring: Ring<T>, accepted: seq<T>, delivered: seq<T>, stale: seq<T>, lost: seq<T>, dropped: nat)

  ghost function Start<T>(data: seq<T>): History<T> {
    History(Create(data), [], [], [], [], 0)
  }

  ghost function Step<T>(h: History<T>, op: Op<T>): (h': History<T>)
    requires InBounds(h.ring) && 3 <= h.ring.size
    ensures InBounds(h'.ring) && h'.ring.size == h.ring.size
  {
    match op
    case Enqueue(m) =>
      PutContents(h.ring, m);
      h.(ring := Put(h.ring, m),
         accepted := h.accepted + [m],
         lost := h.lost + Contents(h.ring)[..Overwritten(h.ring)] + (if Collapses(h.ring) then [m] else []),
         dropped := h.dropped + if Notifies(h.ring) then 1 else 0)
    case Deliver =>
      if h.ring.begin == h.ring.end then h
      else
        PopContents(h.ring);
        h.(ring := Pop(h.ring), delivered := h.delivered + [h.ring.data[h.ring.begin]])
    case Discard =>
      if h.ring.begin == h.ring.end then h
      else
        PopContents(h.ring);
        h.(ring := Pop(h.ring), stale := h.stale + [h.ring.data[h.ring.begin]])
  }

  ghost function Exec<T>(h: History<T>, ops: seq<Op<T>>): (h': History<T>)
    requires InBounds(h.ring) && 3 <= h.ring.size
    ensures InBounds(h'.ring) && h'.ring.size == h.ring.size
    decreases |ops|
  {
    if ops == [] then h else Exec(Step(h, ops[0]), ops[1..])
  }

  // ----- subsequences -----

  /** `a` can be had from `b` by leaving messages out. */
  ghost predicate Subsequence<T>(a: seq<T>, b: seq<T>)
    decreases |b|
  {
    || a == []
    || (&& b != []
        && var rest := b[..|b| - 1];
           || Subsequence(a, rest)
           || (a[|a| - 1] == b[|b| - 1] && Subsequence(a[..|a| - 1], rest)))
  }

  lemma SubsequenceAppend<T>(a: seq<T>, b: seq<T>, m: T)
    requires Subsequence(a, b)
    ensures Subsequence(a, b + [m]) && Subsequence(a + [m], b + [m])
  {
    assert (b + [m])[..|b|] == b && (a + [m])[..|a|] == a;
  }

  /** Leaving out more keeps the order. */
  lemma {:induction false} SubsequenceDrop<T>(x: seq<T>, y: seq<T>, z: seq<T>, b: seq<T>)
    requires Subsequence(x + y + z, b)
    ensures Subsequence(x + z, b)
    decreases |b|
  {
    var a := x + y + z;
    if a == [] {
    } else {
      var rest := b[..|b| - 1];
      if Subsequence(a, rest) {
        SubsequenceDrop(x, y, z, rest);
      } else if z != [] {
        var z' := z[..|z| - 1];
        assert a[..|a| - 1] == x + y + z' && (x + z)[..|x + z| - 1] == x + z';
        SubsequenceDrop(x, y, z', rest);
      } else if y != [] {
        var y' := y[..|y| - 1];
        assert a[..|a| - 1] == x + y' + z;
        SubsequenceDrop(x, y', z, rest);
      } else {
        assert x + z == a;
      }
    }
  }

  // ----- every message is accounted for -----

  ghost predicate Accounted<T>(h: History<T>) {
    && InBounds(h.ring) && 3 <= h.ring.size
    && multiset(h.accepted) == multiset(h.delivered) + multiset(h.stale) + multiset(Contents(h.ring)) + multiset(h.lost)
    && Subsequence(h.delivered + Contents(h.ring), h.accepted)
    && h.dropped <= |h.lost|
  }

  lemma SplitMultiset<T>(s: seq<T>, k: nat)
    requires k <= |s|
    ensures multiset(s) == multiset(s[..k]) + multiset(s[k..])
  {
    assert s == s[..k] + s[k..];
  }

  lemma EnqueueAccounts<T>(h: History<T>, m: T)
    requires Accounted(h)
    ensures Accounted(Step(h, Enqueue(m)))
  {
    hide Contents, Subsequence, Overwritten, Notifies, Collapses, InBounds, Put;
    PutContents(h.ring, m);
    var c, k := Contents(h.ring), Overwritten(h.ring);
    KeepsCount(h, c, k, m, Collapses(h.ring));
    SurvivorsInOrder(h.delivered, c, k, h.accepted, m);
    assert Collapses(h.ring) ==> c[k..] == [] && h.delivered + [] == h.delivered;
  }

  lemma KeepsCount<T>(h: History<T>, c: seq<T>, k: nat, m: T, collapses: bool)
    requires k <= |c| && (collapses ==> k == |c|)
    requires multiset(h.accepted) ==
      multiset(h.delivered) + multiset(h.stale) + multiset(c) + multiset(h.lost)
    ensures multiset(h.accepted + [m]) ==
      multiset(h.delivered) + multiset(h.stale) + multiset(if collapses then [] else c[k..] + [m])
      + multiset(h.lost + c[..k] + if collapses then [m] else [])
  {
    SplitMultiset(c, k);
    assert collapses ==> c[k..] == [];
  }

  lemma SurvivorsInOrder<T>(delivered: seq<T>, c: seq<T>, k: nat, accepted: seq<T>, m: T)
    requires k <= |c| && Subsequence(delivered + c, accepted)
    ensures Subsequence(delivered + c[k..], accepted + [m])
    ensures Subsequence(delivered + (c[k..] + [m]), accepted + [m])
  {
    assert delivered + c == delivered + c[..k] + c[k..];
    SubsequenceDrop(delivered, c[..k], c[k..], accepted);
    SubsequenceAppend(delivered + c[k..], accepted, m);
    assert delivered + (c[k..] + [m]) == delivered + c[k..] + [m];
  }

  lemma TakeAccounts<T>(h: History<T>, op: Op<T>)
    requires Accounted(h) && (op.Deliver? || op.Discard?)
    ensures Accounted(Step(h, op))
  {
    hide Contents;
    if h.ring.begin != h.ring.end {
      PopContents(h.ring);
      var c := Contents(h.ring);
      var head := c[0];
      SplitMultiset(c, 1);
      assert c[..1] == [head];
      assert h.delivered + c == h.delivered + [head] + c[1..];
      if op.Discard? {
        SubsequenceDrop(h.delivered, [head], c[1..], h.accepted);
      }
    }
  }

  /** Over every run, each accepted message is delivered, discarded as stale, still stored, or lost;
      delivered and stored messages keep the order of acceptance; and no more drops are reported than
      messages were lost. */
  lemma {:induction false} RunAccounts<T>(h: History<T>, ops: seq<Op<T>>)
    requires Accounted(h)
    ensures Accounted(Exec(h, ops))
    decreases |ops|
  {
    hide Contents, Subsequence, Step;
    if ops != [] {
      if ops[0].Enqueue? {
        EnqueueAccounts(h, ops[0].m);
      } else {
        TakeAccounts(h, ops[0]);
      }
      RunAccounts(Step(h, ops[0]), ops[1..]);
    }
  }

  lemma EveryRunAccounts<T>(data: seq<T>, ops: seq<Op<T>>)
    requires 3 <= |data|
    ensures
      var h := Exec(Start(data), ops);
      && |h.accepted| == |h.delivered| + |h.stale| + |Contents(h.ring)| + |h.lost|
      && Subsequence(h.delivered + Contents(h.ring), h.accepted)
      && h.dropped <= |h.lost|
  {
    RunAccounts(Start(data), ops);
    var h := Exec(Start(data), ops);
    assert |multiset(h.accepted)| == |h.accepted|;
  }

  // ----- a dequeued slot stays readable -----

  function Enqueues<T>(ops: seq<Op<T>>): nat {
    if ops == [] then 0 else (if ops[0].Enqueue? then 1 else 0) + Enqueues(ops[1..])
  }

  lemma {:induction false} SlotSurvives<T>(h: History<T>, ops: seq<Op<T>>, slot: int)
    requires InBounds(h.ring) && 3 <= h.ring.size && 0 <= slot < h.ring.size
    requires Enqueues(ops) <= Gap(h.ring, slot)
    ensures Exec(h, ops).ring.data[slot] == h.ring.data[slot]
    ensures Gap(Exec(h, ops).ring, slot) == Gap(h.ring, slot) - Enqueues(ops)
    decreases |ops|
  {
    hide Contents, Gap;
    if ops != [] {
      if ops[0].Enqueue? {
        PutMovesGap(h.ring, ops[0].m, slot);
      } else if h.ring.begin != h.ring.end {
        PopKeepsGap(h.ring, slot);
      }
      SlotSurvives(Step(h, ops[0]), ops[1..], slot);
    }
  }

  /** The slot `dequeue` hands out keeps its message through the next `size - len - 1` enqueues, `len`
      being the number of messages left, whatever is dequeued in between; one enqueue more overwrites
      it. */
  lemma DequeuedSlotIsStable<T>(h: History<T>, ops: seq<Op<T>>, m: T)
    requires InBounds(h.ring) && 3 <= h.ring.size && h.ring.begin != h.ring.end
    requires Enqueues(ops) <= h.ring.size - |Contents(Step(h, Deliver).ring)| - 1
    ensures
      var slot, after := h.ring.begin, Exec(Step(h, Deliver), ops);
      && after.ring.data[slot] == h.ring.data[slot] == Contents(h.ring)[0]
      && (Enqueues(ops) == h.ring.size - |Contents(Step(h, Deliver).ring)| - 1 ==>
            Step(after, Enqueue(m)).ring.data[slot] == m)
  {
    hide Contents, Gap;
    PopContents(h.ring);
    GapAfterPop(h.ring);
    PopKeepsGap(h.ring, h.ring.begin);
    var after := Exec(Step(h, Deliver), ops);
    SlotSurvives(Step(h, Deliver), ops, h.ring.begin);
    PutMovesGap(after.ring, m, h.ring.begin);
  }

  // ----- the run that empties a queue -----

  function Puts<T>(ms: seq<T>): (ops: seq<Op<T>>) {
    if ms == [] then [] else [Enqueue(ms[0])] + Puts(ms[1..])
  }

  lemma {:induction false} ExecAppend<T>(h: History<T>, a: seq<Op<T>>, b: seq<Op<T>>)
    requires InBounds(h.ring) && 3 <= h.ring.size
    ensures Exec(h, a + b) == Exec(Exec(h, a), b)
    decreases |a|
  {
    hide Step;
    if a == [] {
      assert a + b == b;
    } else {
      assert (a + b)[1..] == a[1..] + b;
      ExecAppend(Step(h, a[0]), a[1..], b);
    }
  }

  lemma ExecNone<T>(h: History<T>)
    requires InBounds(h.ring) && 3 <= h.ring.size
    ensures Exec(h, []) == h
  {}

  lemma ExecFirst<T>(h: History<T>, op: Op<T>, ops: seq<Op<T>>)
    requires InBounds(h.ring) && 3 <= h.ring.size
    ensures Exec(h, [op] + ops) == Exec(Step(h, op), ops)
  {
    hide Step;
    assert ([op] + ops)[1..] == ops;
  }

  lemma ExecOne<T>(h: History<T>, op: Op<T>)
    requires InBounds(h.ring) && 3 <= h.ring.size
    ensures Exec(h, [op]) == Step(h, op)
  {
    hide Step;
    assert [op][1..] == [];
  }

  lemma PutAtFront<T>(r: Ring<T>, m: T)
    requires InBounds(r) && r.begin == 0 && r.end < r.size
    ensures InBounds(Put(r, m)) && Put(r, m).begin == 0 && Put(r, m).end == r.end + 1 && Put(r, m).size == r.size
    ensures 2 <= r.size ==> 0 < Headroom(r)
  {}

  lemma LosslessStep<T>(h: History<T>, m: T)
    requires InBounds(h.ring) && 3 <= h.ring.size && 0 < Headroom(h.ring)
    ensures Step(h, Enqueue(m)) == h.(ring := Put(h.ring, m), accepted := h.accepted + [m])
  {
    hide Contents, Headroom, Put, InBounds;
    HeadroomMeansLossless(h.ring, m);
    PutContents(h.ring, m);
    assert Contents(h.ring)[..0] == [] && h.lost + [] + [] == h.lost;
  }

  /** Filling up a queue whose oldest message is in its first slot loses nothing. */
  lemma {:induction false} ExecPuts<T>(h: History<T>, ms: seq<T>)
    requires InBounds(h.ring) && 3 <= h.ring.size && h.ring.begin == 0 && h.ring.end + |ms| <= h.ring.size
    ensures Exec(h, Puts(ms)) == h.(ring := PutAll(h.ring, ms), accepted := h.accepted + ms)
    decreases |ms|
  {
    hide Contents, Step, Exec, Put;
    if ms == [] {
      ExecNone(h);
      assert h.accepted + ms == h.accepted;
    } else {
      PutAtFront(h.ring, ms[0]);
      LosslessStep(h, ms[0]);
      var h' := h.(ring := Put(h.ring, ms[0]), accepted := h.accepted + [ms[0]]);
      ExecPuts(h', ms[1..]);
      ExecFirst(h, Enqueue(ms[0]), Puts(ms[1..]));
      assert h.accepted + [ms[0]] + ms[1..] == h.accepted + ms;
    }
  }

  /** Taking one message out of a full buffer, and enqueuing another. */
  lemma CollapseSteps<T>(h: History<T>, ms: seq<T>, m: T)
    requires InBounds(h.ring) && 3 <= h.ring.size == |ms| && h.ring.begin == 0 && h.ring.end == h.ring.size
    requires Contents(h.ring) == ms
    ensures
      var h' := Step(Step(h, Deliver), Enqueue(m));
      && Contents(h'.ring) == [] && h'.delivered == h.delivered + [ms[0]] && h'.dropped == h.dropped
      && h'.lost == h.lost + ms[1..] + [m]
  {
    hide Contents, InBounds;
    PopContents(h.ring);
    var taken := Step(h, Deliver);
    assert Collapses(taken.ring) && !Notifies(taken.ring);
    PutContents(taken.ring, m);
    assert ms[1..][..|ms| - 1] == ms[1..];
  }

  /** Fill a new queue, take one message out, enqueue one more: all stored messages and the new one are
      lost, and no drop is reported. */
  lemma CollapseRun<T>(data: seq<T>, ms: seq<T>, m: T)
    requires 3 <= |data| == |ms|
    ensures
      var h := Exec(Start(data), Puts(ms) + [Deliver, Enqueue(m)]);
      && Contents(h.ring) == [] && h.delivered == [ms[0]] && h.lost == ms[1..] + [m] && h.dropped == 0
  {
    hide Step, Exec, PutAll, Puts;
    var start := Start(data);
    ExecPuts(start, ms);
    PutAllContents(start.ring, ms);
    FillUp(start.ring, ms);
    var full := Exec(start, Puts(ms));
    assert Contents(start.ring) + ms == ms;
    CollapseSteps(full, ms, m);
    ExecAppend(start, Puts(ms), [Deliver, Enqueue(m)]);
    TwoSteps(full, Deliver, Enqueue(m));
    assert [] + [ms[0]] == [ms[0]] && [] + ms[1..] == ms[1..];
  }

  lemma TwoSteps<T>(h: History<T>, a: Op<T>, b: Op<T>)
    requires InBounds(h.ring) && 3 <= h.ring.size
    ensures Exec(h, [a, b]) == Step(Step(h, a), b)
  {
    hide Step, Exec;
    assert [a, b] == [a] + [b];
    ExecFirst(h, a, [b]);
    ExecOne(Step(h, a), b);
  }

  // ----- what a queue that nobody reads reports -----

  /** How many of `n` messages a new queue of `size` still holds. */
  function StoredOf(size: nat, n: nat): (k: nat)
    requires 3 <= size
  {
    if n < size then n else if n % size == 0 then size else size - 1
  }

  /** How many drops it has reported: in every round after the first, all but three enqueues. */
  function ReportedOf(size: nat, n: nat): (k: int)
    requires 3 <= size
  {
    if n < size then 0
    else (n / size - 1) * (size - 3) + Min(Max(n % size - 1, 0), size - 3)
  }

  /** Where its indices are. */
  function IndicesOf(size: nat, n: nat): (i: (int, int))
    requires 3 <= size
  {
    var r := n % size;
    if n < size then (0, n) else if r == 0 then (0, size) else if r == size - 1 then (0, r) else (r + 1, r)
  }

  lemma NextRound(size: nat, n: nat)
    requires 3 <= size
    ensures
      if n % size == size - 1 then (n + 1) % size == 0 && (n + 1) / size == n / size + 1
      else (n + 1) % size == n % size + 1 && (n + 1) / size == n / size
    ensures n < size ==> n % size == n && n / size == 0
    ensures 0 <= n / size && (size <= n ==> 1 <= n / size)
  {
    var q, r := n / size, n % size;
    DivShrinks(n, size);
    if r == size - 1 {
      assert n + 1 == (q + 1) * size;
      DivModUnique(n + 1, size, q + 1, 0);
    } else {
      DivModUnique(n + 1, size, q, r + 1);
    }
    if n < size {
      DivModUnique(n, size, 0, n);
    } else {
      DivMonotone(size, n, size);
    }
  }

  /** One more enqueue reports a drop exactly as often as the closed form says. */
  lemma ReportedStep<T>(r: Ring<T>, n: nat)
    requires 3 <= r.size && (r.begin, r.end) == IndicesOf(r.size, n) && |r.data| == r.size
    ensures InBounds(r) && |Contents(r)| == StoredOf(r.size, n)
    ensures forall m: T ::
      InBounds(Put(r, m)) && (Put(r, m).begin, Put(r, m).end) == IndicesOf(r.size, n + 1)
    ensures ReportedOf(r.size, n + 1) == ReportedOf(r.size, n) + if Notifies(r) then 1 else 0
  {
    NextRound(r.size, n);
    var q, s := n / r.size, r.size - 3;
    assert n % r.size == r.size - 1 && r.size <= n ==> (q + 1 - 1) * s == (q - 1) * s + s;
  }

  lemma {:induction false} PutsAppend<T>(ms: seq<T>, m: T)
    ensures Puts(ms + [m]) == Puts(ms) + [Enqueue(m)]
  {
    if ms == [] {
      assert (ms + [m])[1..] == [];
    } else {
      assert (ms + [m])[1..] == ms[1..] + [m];
      PutsAppend(ms[1..], m);
    }
  }

  lemma {:induction false} UnreadIndices<T>(data: seq<T>, ms: seq<T>)
    requires 3 <= |data|
    ensures
      var h := Exec(Start(data), Puts(ms));
      && |h.ring.data| == h.ring.size == |data| && (h.ring.begin, h.ring.end) == IndicesOf(|data|, |ms|)
      && |h.accepted| == |ms| && h.delivered == [] && h.stale == [] && h.dropped == ReportedOf(|data|, |ms|)
    decreases |ms|
  {
    hide Put, Contents, Exec, Puts, IndicesOf, ReportedOf;
    if ms == [] {
      ExecNone(Start(data));
      UnreadStart(|data|, data);
    } else {
      var before, m := ms[..|ms| - 1], ms[|ms| - 1];
      assert ms == before + [m];
      UnreadIndices(data, before);
      PutsAppend(before, m);
      ExecAppend(Start(data), Puts(before), [Enqueue(m)]);
      ExecOne(Exec(Start(data), Puts(before)), Enqueue(m));
      ReportedStep(Exec(Start(data), Puts(before)).ring, |before|);
    }
  }

  lemma UnreadStart<T>(size: nat, data: seq<T>)
    requires 3 <= size == |data|
    ensures IndicesOf(size, 0) == (0, 0) && ReportedOf(size, 0) == 0 && Puts<T>([]) == []
  {
  }

  /** After `n` enqueues into a new queue that nobody reads: what is stored, lost and reported. */
  lemma UnreadReports<T>(data: seq<T>, ms: seq<T>)
    requires 3 <= |data|
    ensures
      var h := Exec(Start(data), Puts(ms));
      && h.dropped == ReportedOf(|data|, |ms|) && |Contents(h.ring)| == StoredOf(|data|, |ms|)
      && |h.lost| == |ms| - StoredOf(|data|, |ms|)
  {
    hide Contents, Exec, Puts, IndicesOf, ReportedOf, StoredOf;
    UnreadIndices(data, ms);
    EveryRunAccounts(data, Puts(ms));
    ReportedStep(Exec(Start(data), Puts(ms)).ring, |ms|);
  }

  // ----- runs of the queue object -----

  /** The calls of clients and of the driver: `enqueue`, one round of `dequeue` after its wait, and
      `dequeue_noblock`, each with its latency limit and its readings of the clock. */
  datatype QueueCall =
    | Insert(m: CanMsg)
    | Round(limit: U32, now: U32)
    | Noblock(limit: U32, clock: nat -> U32)

  function Discards(n: nat): (ops: seq<Op<CanMsg>>) {
    if n == 0 then [] else [Discard] + Discards(n - 1)
  }

  /** The steps a call amounts to, with `stored` in the queue.  A round waits while the queue is empty. */
  ghost function StepsOf(call: QueueCall, stored: seq<CanMsg>): (ops: seq<Op<CanMsg>>) {
    match call
    case Insert(m) => [Enqueue(m)]
    case Round(limit, now) =>
      if stored == [] then [] else if Stale(stored[0], now, limit) then [Discard] else [Deliver]
    case Noblock(limit, clock) =>
      var n := StalePrefix(stored, clock, 0, limit);
      Discards(n) + if n < |stored| then [Deliver] else []
  }

  ghost function ExecCall(h: History<CanMsg>, call: QueueCall): (h': History<CanMsg>)
    requires InBounds(h.ring) && 3 <= h.ring.size
    ensures InBounds(h'.ring) && h'.ring.size == h.ring.size
  {
    Exec(h, StepsOf(call, Contents(h.ring)))
  }

  ghost function ExecCalls(h: History<CanMsg>, calls: seq<QueueCall>): (h': History<CanMsg>)
    requires InBounds(h.ring) && 3 <= h.ring.size
    ensures InBounds(h'.ring) && h'.ring.size == h.ring.size
    decreases |calls|
  {
    if calls == [] then h else ExecCall(ExecCalls(h, calls[..|calls| - 1]), calls[|calls| - 1])
  }

  lemma {:induction false} CallsAccount(h: History<CanMsg>, calls: seq<QueueCall>)
    requires Accounted(h)
    ensures Accounted(ExecCalls(h, calls))
    decreases |calls|
  {
    hide Contents, Subsequence, Exec, StepsOf;
    if calls != [] {
      var before := ExecCalls(h, calls[..|calls| - 1]);
      CallsAccount(h, calls[..|calls| - 1]);
      RunAccounts(before, StepsOf(calls[|calls| - 1], Contents(before.ring)));
    }
  }

  /** Discarding the first `n` messages. */
  lemma {:induction false} ExecDiscards(h: History<CanMsg>, n: nat)
    requires InBounds(h.ring) && 3 <= h.ring.size && n <= |Contents(h.ring)|
    ensures
      var h' := Exec(h, Discards(n));
      && h'.ring == PopAll(h.ring, n) && Contents(h'.ring) == Contents(h.ring)[n..]
      && h' == h.(ring := h'.ring, stale := h.stale + Contents(h.ring)[..n])
    decreases n
  {
    hide Contents, Pop;
    if n == 0 {
      assert h.stale + Contents(h.ring)[..0] == h.stale;
    } else {
      EmptyWhenIndicesMeet(h.ring);
      PopContents(h.ring);
      PopAllFirst(h.ring, n);
      var c := Contents(h.ring);
      assert Discards(n)[1..] == Discards(n - 1);
      ExecDiscards(Step(h, Discard), n - 1);
      assert h.stale + [c[0]] + c[1..][..n - 1] == h.stale + c[..n];
    }
  }

  /** A queue with its history so far: what the object holds, delivered and reported. */
  ghost predicate InStep(q: Queue, h: History<CanMsg>, delivered: seq<CanMsg>, dropped0: nat)
    reads q, q.data
  {
    && q.Valid() && q.sessionUp && q.size != 0 && InBounds(h.ring)
    && h.ring == q.View() && h.delivered == delivered && q.dropped == dropped0 + h.dropped
  }

  /** A history that begins with what the queue already holds. */
  ghost function Begin(r: Ring<CanMsg>): History<CanMsg>
    requires InBounds(r)
  {
    History(r, Contents(r), [], [], [], 0)
  }

  lemma {:induction false} SubsequenceSelf<T>(s: seq<T>)
    ensures Subsequence(s, s)
  {
    if s != [] { SubsequenceSelf(s[..|s| - 1]); }
  }

  lemma BeginAccounts(r: Ring<CanMsg>)
    requires InBounds(r) && 3 <= r.size
    ensures Accounted(Begin(r))
  {
    hide Contents, Subsequence;
    SubsequenceSelf(Contents(r));
    assert [] + Contents(r) == Contents(r);
  }

  /** The queue object follows the run, in what it stores, delivers and reports, through any calls; so it
      accounts for every message, delivers in order, and reports no more drops than messages it lost. */
  method Drive(q: Queue, calls: seq<QueueCall>) returns (delivered: seq<CanMsg>)
    requires q.Valid() && q.sessionUp && q.size != 0
    modifies q, q.data
    ensures q.Valid()
    ensures
      var h := ExecCalls(Begin(old(q.View())), calls);
      && q.View() == h.ring && delivered == h.delivered && q.dropped - old(q.dropped) == h.dropped
      && Accounted(h)
  {
    hide Contents, InBounds, ExecCall, Accounted;
    ghost var h0 := Begin(q.View());
    BeginAccounts(q.View());
    CallsAccount(h0, calls);
    delivered := [];
    assert InBounds(h0.ring) && 3 <= h0.ring.size;
    for i := 0 to |calls|
      invariant InStep(q, ExecCalls(h0, calls[..i]), delivered, old(q.dropped))
    {
      assert calls[..i + 1][..i] == calls[..i];
      ghost var h := ExecCalls(h0, calls[..i]);
      match calls[i]
      case Insert(m) => DriveInsert(q, m, h, delivered, old(q.dropped));
      case Round(limit, now) => delivered := DriveRound(q, limit, now, h, delivered, old(q.dropped));
      case Noblock(limit, clock) => delivered := DriveNoblock(q, limit, clock, h, delivered, old(q.dropped));
    }
    assert calls[..|calls|] == calls;
  }

  method DriveInsert(q: Queue, m: CanMsg, ghost h: History<CanMsg>, ghost delivered: seq<CanMsg>, ghost dropped0: nat)
    requires InStep(q, h, delivered, dropped0)
    modifies q, q.data
    ensures InStep(q, ExecCall(h, Insert(m)), delivered, dropped0)
  {
    hide Contents, Exec;
    ExecOne(h, Op.Enqueue(m));
    var ret := q.Enqueue(m);
  }

  method DriveRound(q: Queue, limit: U32, now: U32, ghost h: History<CanMsg>, delivered: seq<CanMsg>,
                    ghost dropped0: nat)
    returns (delivered': seq<CanMsg>)
    requires InStep(q, h, delivered, dropped0)
    modifies q
    ensures InStep(q, ExecCall(h, Round(limit, now)), delivered', dropped0)
  {
    hide Contents, Exec;
    EmptyWhenIndicesMeet(h.ring);
    ExecNone(h);
    delivered' := delivered;
    if q.begin != q.end {
      PopContents(h.ring);
      ExecOne(h, Deliver);
      ExecOne(h, Discard);
      var result := q.Dequeue(limit, now);
      if result.Some? {
        delivered' := delivered + [result.value];
      }
    }
  }

  method DriveNoblock(q: Queue, limit: U32, clock: nat -> U32, ghost h: History<CanMsg>, delivered: seq<CanMsg>,
                      ghost dropped0: nat)
    returns (delivered': seq<CanMsg>)
    requires InStep(q, h, delivered, dropped0)
    modifies q
    ensures InStep(q, ExecCall(h, Noblock(limit, clock)), delivered', dropped0)
  {
    hide Contents, Exec;
    ghost var stored := Contents(h.ring);
    ghost var n := StalePrefix(stored, clock, 0, limit);
    ExecDiscards(h, n);
    ghost var after := Exec(h, Discards(n));
    ExecAppend(h, Discards(n), if n < |stored| then [Deliver] else []);
    EmptyWhenIndicesMeet(after.ring);
    ExecNone(after);
    delivered' := delivered;
    var result := q.DequeueNoblock(limit, clock);
    if result.Some? {
      PopContents(after.ring);
      ExecOne(after, Deliver);
      delivered' := delivered + [result.value];
    }
  }
}
