/** The circular buffer of queue.c on values: `end` may equal `size` (the wrap is lazy), a full buffer
    overwrites its oldest messages, and `begin == end` always reads as empty. */
module Rings {

  datatype Ring<T> = Ring(size: nat, begin: int, end: int, data: seq<T>)

  /** Both indices where the code expects them. */
  predicate InBounds<T>(r: Ring<T>) {
    |r.data| == r.size && 0 <= r.begin < r.size && 0 <= r.end <= r.size
  }

  /** The stored messages, oldest first. */
  function Contents<T>(r: Ring<T>): (s: seq<T>)
    requires InBounds(r)
  {
    if r.begin <= r.end then r.data[r.begin..r.end] else r.data[r.begin..] + r.data[..r.end]
  }

  /** Where the next message goes. */
  function WriteIndex<T>(r: Ring<T>): int {
    if r.end == r.size then 0 else r.end
  }

  /** Lines 124 to 151 of queue.c. */
  function Put<T>(r: Ring<T>, m: T): (r': Ring<T>)
    requires |r.data| == r.size && 0 < r.size && 0 <= r.end <= r.size
  {
    var begin :=
      if r.end == r.size then
        (if r.begin == 0 then 2 else r.begin)
      else if r.begin == r.end + 1 then
        (if r.begin + 1 == r.size then 0 else r.begin + 1)
      else
        r.begin;
    r.(begin := begin, end := WriteIndex(r) + 1, data := r.data[WriteIndex(r) := m])
  }

  /** Whether that enqueue calls `dropped_packet`: only one of the lossy branches does. */
  predicate Notifies<T>(r: Ring<T>) {
    r.end != r.size && r.begin == r.end + 1 && r.begin + 1 != r.size
  }

  /** Lines 207 to 215 of queue.c. */
  function Pop<T>(r: Ring<T>): (r': Ring<T>)
  {
    if r.begin + 1 == r.size then
      r.(begin := 0, end := if r.end == r.size then 0 else r.end)
    else
      r.(begin := r.begin + 1)
  }

  function PopAll<T>(r: Ring<T>, n: nat): (r': Ring<T>) {
    if n == 0 then r else Pop(PopAll(r, n - 1))
  }

  lemma PopAllNext<T>(r: Ring<T>, n: nat)
    ensures PopAll(r, n + 1) == Pop(PopAll(r, n)) && PopAll(r, 0) == r
  {
    hide Pop;
  }

  lemma {:induction false} PopAllFirst<T>(r: Ring<T>, n: nat)
    requires 0 < n
    ensures PopAll(r, n) == PopAll(Pop(r), n - 1)
  {
    hide Pop;
    if 1 < n { PopAllFirst(r, n - 1); }
  }

  /** The one state from which an enqueue makes the indices meet: filled up to the end of the buffer
      with exactly one message taken out. */
  predicate Collapses<T>(r: Ring<T>) {
    r.begin == 1 && r.end == r.size
  }

  /** How many of the oldest messages the next enqueue drops. */
  function Overwritten<T>(r: Ring<T>): (n: nat)
    requires InBounds(r) && 3 <= r.size
  {
    if Collapses(r) then r.size - 1
    else if r.end == r.size && r.begin == 0 then 2
    else if r.begin == r.end + 1 then 1
    else 0
  }

  /** An enqueue drops none, one or two of the oldest messages and appends the new one, unless the ring
      collapses, when nothing at all is left. */
  lemma PutContents<T>(r: Ring<T>, m: T)
    requires InBounds(r) && 3 <= r.size
    ensures InBounds(Put(r, m))
    ensures Overwritten(r) <= |Contents(r)|
    ensures !Collapses(r) ==> Overwritten(r) <= 2
    ensures Notifies(r) ==> Overwritten(r) == 1
    ensures !Collapses(r) ==> Contents(Put(r, m)) == Contents(r)[Overwritten(r)..] + [m]
    ensures Collapses(r) ==> Contents(Put(r, m)) == [] && Overwritten(r) == |Contents(r)|
  {
    if r.end == r.size {
      PutWrapping(r, m);
    } else if r.begin == r.end + 1 {
      PutWhenFull(r, m);
    } else {
      PutWithRoom(r, m);
    }
  }

  lemma PutWrapping<T>(r: Ring<T>, m: T)
    requires InBounds(r) && 3 <= r.size && r.end == r.size
    ensures Contents(r) == r.data[r.begin..]
    ensures Contents(Put(r, m)) ==
      if r.begin == 0 then Contents(r)[2..] + [m] else if r.begin == 1 then [] else Contents(r) + [m]
  {
    var r' := Put(r, m);
    assert r'.data[..1] == [m];
    assert r.begin != 1 ==> Contents(r') == r.data[r'.begin..] + [m];
  }

  lemma PutWhenFull<T>(r: Ring<T>, m: T)
    requires InBounds(r) && 3 <= r.size && r.end != r.size && r.begin == r.end + 1
    ensures |Contents(r)| == r.size - 1 && Contents(Put(r, m)) == Contents(r)[1..] + [m]
  {
    var r' := Put(r, m);
    assert r'.data[..r.end + 1] == r.data[..r.end] + [m];
    assert Contents(r)[1..] == r.data[r.begin + 1..] + r.data[..r.end];
  }

  lemma PutWithRoom<T>(r: Ring<T>, m: T)
    requires InBounds(r) && 3 <= r.size && r.end != r.size && r.begin != r.end + 1
    ensures Contents(Put(r, m)) == Contents(r) + [m]
  {
    var r' := Put(r, m);
    assert r'.data[..r.end + 1] == r.data[..r.end] + [m];
    if r.begin <= r.end {
      assert r'.data[r.begin..r.end + 1] == r.data[r.begin..r.end] + [m];
    } else {
      assert r'.data[r.begin..] == r.data[r.begin..];
    }
  }

  /** Of the enqueues that lose messages, the reported ones are exactly those that lose as many as they store
      and do not put the oldest message into the first slot. */
  lemma NotifiesExactly<T>(r: Ring<T>, m: T)
    requires InBounds(r) && 3 <= r.size
    ensures InBounds(Put(r, m))
    ensures Notifies(r) <==> |Contents(Put(r, m))| == |Contents(r)| && Put(r, m).begin != 0
  {
    PutContents(r, m);
  }

  /** Collapsing is exactly what keeps an enqueue from appending. */
  lemma AppendsUnlessCollapsed<T>(r: Ring<T>, m: T)
    requires InBounds(r) && 3 <= r.size
    ensures InBounds(Put(r, m))
    ensures m in Contents(Put(r, m)) <==> !Collapses(r)
    ensures (exists k: nat :: k <= |Contents(r)| && Contents(Put(r, m)) == Contents(r)[k..] + [m]) <==> !Collapses(r)
  {
    PutContents(r, m);
    if !Collapses(r) {
      assert Contents(Put(r, m)) == Contents(r)[Overwritten(r)..] + [m];
      assert Contents(Put(r, m))[|Contents(Put(r, m))| - 1] == m;
    }
  }

  /** A dequeue removes exactly the oldest message. */
  lemma PopContents<T>(r: Ring<T>)
    requires InBounds(r) && r.begin != r.end
    ensures InBounds(Pop(r))
    ensures |Contents(r)| > 0 && r.data[r.begin] == Contents(r)[0]
    ensures Contents(Pop(r)) == Contents(r)[1..]
  {
    var head := r.data[r.begin];
    if r.begin < r.end {
      assert Contents(r) == [head] + r.data[r.begin + 1..r.end];
    } else {
      assert r.data[r.begin..] == [head] + r.data[r.begin + 1..];
      assert Contents(r) == [head] + (r.data[r.begin + 1..] + r.data[..r.end]);
      assert r.begin + 1 == r.size ==> r.data[r.begin + 1..] + r.data[..r.end] == r.data[..r.end];
    }
  }

  lemma EmptyWhenIndicesMeet<T>(r: Ring<T>)
    requires InBounds(r)
    ensures Contents(r) == [] <==> r.begin == r.end
  {
  }

  /** How many messages can be enqueued before one is lost.  It can fall short of the free slots: the wrap
      at `begin <= 1` loses messages although slots are free. */
  function Headroom<T>(r: Ring<T>): (n: int)
    requires InBounds(r)
    ensures 0 <= n
  {
    if r.end < r.begin then r.begin - 1 - r.end
    else r.size - r.end + if r.begin == 0 then 0 else r.begin - 1
  }

  /** An enqueue is lossless exactly with headroom, and takes one of it. */
  lemma HeadroomMeansLossless<T>(r: Ring<T>, m: T)
    requires InBounds(r) && 3 <= r.size
    ensures InBounds(Put(r, m)) && |Contents(Put(r, m))| <= |Contents(r)| + 1
    ensures 0 < Headroom(r) ==> Contents(Put(r, m)) == Contents(r) + [m] && Headroom(Put(r, m)) == Headroom(r) - 1
    ensures Headroom(r) == 0 ==> |Contents(Put(r, m))| < |Contents(r)| + 1
    ensures Headroom(r) == 0 <==> 0 < Overwritten(r) || Collapses(r)
  {
    PutContents(r, m);
    if 0 < Headroom(r) {
      assert Contents(r)[0..] == Contents(r);
    }
  }

  /** With two slots left over there is headroom in any position. */
  lemma RoomMeansHeadroom<T>(r: Ring<T>)
    requires InBounds(r) && 3 <= r.size
    ensures r.size - 1 - |Contents(r)| <= Headroom(r)
  {
  }

  // ----- which sizes work -----

  function Create<T>(data: seq<T>): (r: Ring<T>) {
    Ring(|data|, 0, 0, data)
  }

  function PutAll<T>(r: Ring<T>, ms: seq<T>): (r': Ring<T>)
    requires |r.data| == r.size && 0 < r.size && 0 <= r.end <= r.size
    ensures |r'.data| == r'.size == r.size && 0 <= r'.end <= r'.size
    decreases |ms|
  {
    if ms == [] then r else PutAll(Put(r, ms[0]), ms[1..])
  }

  lemma {:induction false} PutAllInBounds<T>(r: Ring<T>, ms: seq<T>)
    requires InBounds(r) && 3 <= r.size
    ensures InBounds(PutAll(r, ms))
    decreases |ms|
  {
    if ms != [] {
      PutContents(r, ms[0]);
      PutAllInBounds(Put(r, ms[0]), ms[1..]);
    }
  }

  lemma {:induction false} PutAllLength<T>(r: Ring<T>, ms: seq<T>)
    requires InBounds(r) && 3 <= r.size
    ensures InBounds(PutAll(r, ms)) && |Contents(PutAll(r, ms))| <= |Contents(r)| + |ms|
    ensures Headroom(r) < |ms| ==> |Contents(PutAll(r, ms))| < |Contents(r)| + |ms|
    decreases |ms|
  {
    hide Contents, Headroom;
    if ms != [] {
      HeadroomMeansLossless(r, ms[0]);
      PutAllLength(Put(r, ms[0]), ms[1..]);
    }
  }

  /** Messages all arrive, in order and after the ones already stored, exactly when there is headroom for
      them. */
  lemma {:induction false} PutAllContents<T>(r: Ring<T>, ms: seq<T>)
    requires InBounds(r) && 3 <= r.size
    ensures InBounds(PutAll(r, ms))
    ensures Contents(PutAll(r, ms)) == Contents(r) + ms <==> |ms| <= Headroom(r)
    decreases |ms|
  {
    hide Contents, Headroom;
    PutAllLength(r, ms);
    if ms == [] {
      assert Contents(r) + ms == Contents(r);
    } else if |ms| <= Headroom(r) {
      HeadroomMeansLossless(r, ms[0]);
      PutAllContents(Put(r, ms[0]), ms[1..]);
      assert ms == [ms[0]] + ms[1..];
      assert Contents(r) + ([ms[0]] + ms[1..]) == Contents(r) + [ms[0]] + ms[1..];
    }
  }

  /** Filling up a buffer whose oldest message is in its first slot. */
  lemma {:induction false} FillUp<T>(r: Ring<T>, ms: seq<T>)
    requires InBounds(r) && 3 <= r.size && r.begin == 0 && r.end + |ms| <= r.size
    ensures
      var full := PutAll(r, ms);
      InBounds(full) && full.begin == 0 && full.end == r.end + |ms| && full.size == r.size
    decreases |ms|
  {
    if ms != [] {
      FillUp(Put(r, ms[0]), ms[1..]);
    }
  }

  /** The collapsing state is reached from any new queue: fill it, and take one message out. */
  lemma FillThenPopCollapses<T>(data: seq<T>, ms: seq<T>)
    requires 3 <= |data| == |ms|
    ensures Collapses(Pop(PutAll(Create(data), ms)))
  {
    FillUp(Create(data), ms);
  }

  /** The indices stay in bounds on every sequence of enqueues exactly when the buffer has at least three
      slots: with fewer, `begin = 2` already lies outside. */
  lemma SafeSizes<T>(data: seq<T>, m: T)
    requires 0 < |data|
    ensures (forall ms: seq<T> :: InBounds(PutAll(Create(data), ms))) <==> 3 <= |data|
  {
    if 3 <= |data| {
      forall ms: seq<T>
        ensures InBounds(PutAll(Create(data), ms))
      {
        PutAllInBounds(Create(data), ms);
      }
    } else {
      var ms := if |data| == 1 then [m, m] else [m, m, m];
      Unfold(Create(data), ms);
      assert PutAll(Create(data), ms).begin == 2;
      assert !InBounds(PutAll(Create(data), ms));
    }
  }

  lemma Unfold<T>(r: Ring<T>, ms: seq<T>)
    requires |r.data| == r.size && 0 < r.size && 0 <= r.end <= r.size
    requires 2 <= |ms| <= 3
    ensures PutAll(r, ms) ==
      if |ms| == 2 then Put(Put(r, ms[0]), ms[1]) else Put(Put(Put(r, ms[0]), ms[1]), ms[2])
  {
    var r1 := Put(r, ms[0]);
    var r2 := Put(r1, ms[1]);
    assert PutAll(r, ms) == PutAll(r1, ms[1..]);
    assert PutAll(r1, ms[1..]) == PutAll(r2, ms[1..][1..]);
    if |ms| == 3 {
      assert PutAll(r2, ms[1..][1..]) == PutAll(Put(r2, ms[2]), ms[1..][1..][1..]);
    }
  }

  // ----- how long a slot stays readable -----

  /** How many enqueues go elsewhere before one writes `slot`. */
  function Gap<T>(r: Ring<T>, slot: int): int {
    if WriteIndex(r) <= slot then slot - WriteIndex(r) else slot - WriteIndex(r) + r.size
  }

  lemma PutMovesGap<T>(r: Ring<T>, m: T, slot: int)
    requires InBounds(r) && 3 <= r.size && 0 <= slot < r.size
    ensures 0 <= Gap(r, slot) < r.size
    ensures 0 < Gap(r, slot) ==> Put(r, m).data[slot] == r.data[slot] && Gap(Put(r, m), slot) == Gap(r, slot) - 1
    ensures Gap(r, slot) == 0 ==> Put(r, m).data[slot] == m
  {
  }

  lemma PopKeepsGap<T>(r: Ring<T>, slot: int)
    requires InBounds(r) && r.begin != r.end
    ensures Gap(Pop(r), slot) == Gap(r, slot) && Pop(r).data == r.data && Pop(r).size == r.size
  {
  }

  /** Right after a dequeue the slot just read is as far from being written as there is room: all of
      the buffer but the messages left and the slot itself. */
  lemma GapAfterPop<T>(r: Ring<T>)
    requires InBounds(r) && r.begin != r.end
    ensures InBounds(Pop(r))
    ensures Gap(Pop(r), r.begin) == r.size - |Contents(Pop(r))| - 1
  {
  }
}
