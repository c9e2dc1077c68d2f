/** Bytes to frames and back: the splitting loop of `io_write` and the reassembly loop of `io_read` in
    resmgr.c. */
module ByteStream {
  import opened Words
  import opened Rings
  import opened CanQueue

  // ----- io_write -----

  /** The value that `canmsg.len` gets for frame `i`, when its type counts modulo `width`. */
  function FrameLen(nbytes: nat, i: nat, width: nat): (len: int)
    requires 0 < width && 8 * i <= nbytes
    ensures 0 <= len <= 8 && 8 * i + len <= nbytes
  {
    Min(8, (nbytes - 8 * i) % width)
  }

  function FrameCount(nbytes: nat): nat {
    nbytes / 8 + if nbytes % 8 != 0 then 1 else 0
  }

  /** What frames `i` and later carry together. */
  function CarriedFrom(buf: seq<Byte>, i: nat, width: nat): (s: seq<Byte>)
    requires 0 < width && i <= FrameCount(|buf|)
    decreases FrameCount(|buf|) - i
  {
    if i == FrameCount(|buf|) then []
    else buf[8 * i..8 * i + FrameLen(|buf|, i, width)] + CarriedFrom(buf, i + 1, width)
  }

  lemma FrameLenFits(nbytes: nat, i: nat, width: nat)
    requires 0 < width && 8 * i <= nbytes
    ensures nbytes < width ==> FrameLen(nbytes, i, width) == Min(8, nbytes - 8 * i)
    ensures width <= nbytes - 8 * i < width + 8 && 8 < width ==> FrameLen(nbytes, i, width) < 8
  {
    var left := nbytes - 8 * i;
    if nbytes < width {
      DivModUnique(left, width, 0, left);
    } else if width <= left < width + 8 && 8 < width {
      DivModUnique(left, width, 1, left - width);
    }
  }

  lemma {:induction false} CarriesAll(buf: seq<Byte>, i: nat, width: nat)
    requires 0 < width && i <= FrameCount(|buf|) && |buf| < width && 8 * i <= |buf|
    ensures CarriedFrom(buf, i, width) == buf[8 * i..]
    decreases FrameCount(|buf|) - i
  {
    hide FrameLen;
    if i < FrameCount(|buf|) {
      var len := FrameLen(|buf|, i, width);
      FrameLenFits(|buf|, i, width);
      if 8 * (i + 1) <= |buf| {
        CarriesAll(buf, i + 1, width);
        assert buf[8 * i..] == buf[8 * i..8 * i + 8] + buf[8 * (i + 1)..];
      } else {
        assert i + 1 == FrameCount(|buf|);
        assert CarriedFrom(buf, i + 1, width) == [];
        assert buf[8 * i..8 * i + len] == buf[8 * i..];
      }
    }
  }

  lemma {:induction false} CarriesLess(buf: seq<Byte>, i: nat, width: nat)
    requires 8 < width && i <= FrameCount(|buf|) && 8 * i <= |buf|
    ensures |CarriedFrom(buf, i, width)| <= |buf| - 8 * i
    ensures width <= |buf| - 8 * i ==> |CarriedFrom(buf, i, width)| < |buf| - 8 * i
    decreases FrameCount(|buf|) - i
  {
    hide FrameLen;
    if i < FrameCount(|buf|) {
      var left := |buf| - 8 * i;
      if 8 <= left {
        CarriesLess(buf, i + 1, width);
        FrameLenFits(|buf|, i, width);
      } else {
        assert i + 1 == FrameCount(|buf|);
        assert CarriedFrom(buf, i + 1, width) == [];
      }
    }
  }

  /** The frames carry exactly what was written if and only if the length fits the `len` field, whatever
      the width of that field. */
  lemma WriteIsComplete(buf: seq<Byte>, width: nat)
    requires 8 < width
    ensures CarriedFrom(buf, 0, width) == buf <==> |buf| < width
  {
    if |buf| < width {
      CarriesAll(buf, 0, width);
    } else {
      CarriesLess(buf, 0, width);
    }
  }

  function Payload(m: CanMsg): (s: seq<Byte>) {
    if m.len <= |m.dat| then m.dat[..m.len] else m.dat
  }

  function Payloads(ms: seq<CanMsg>): (s: seq<Byte>) {
    if ms == [] then [] else Payload(ms[0]) + Payloads(ms[1..])
  }

  lemma {:induction false} PayloadsAppend(ms: seq<CanMsg>, m: CanMsg)
    ensures Payloads(ms + [m]) == Payloads(ms) + Payload(m)
  {
    if ms == [] {
      assert (ms + [m])[1..] == [];
    } else {
      assert (ms + [m])[1..] == ms[1..] + [m];
      PayloadsAppend(ms[1..], m);
    }
  }

  lemma {:induction false} PutAllAppend(r: Ring<CanMsg>, ms: seq<CanMsg>, m: CanMsg)
    requires |r.data| == r.size && 0 < r.size && 0 <= r.end <= r.size
    ensures PutAll(r, ms + [m]) == Put(PutAll(r, ms), m)
    decreases |ms|
  {
    if ms == [] {
      assert (ms + [m])[1..] == [];
      assert PutAll(r, [m]) == PutAll(Put(r, m), []);
    } else {
      assert (ms + [m])[1..] == ms[1..] + [m];
      PutAllAppend(Put(r, ms[0]), ms[1..], m);
    }
  }

  lemma {:induction false} PayloadsConcat(ms: seq<CanMsg>, more: seq<CanMsg>)
    ensures Payloads(ms + more) == Payloads(ms) + Payloads(more)
  {
    if ms == [] {
      assert ms + more == more;
    } else {
      assert (ms + more)[1..] == ms[1..] + more;
      PayloadsConcat(ms[1..], more);
    }
  }

  /** Frame `i` of a write: the identifier and all flags of the template, and the eighth part of the bytes
      that is its own; all of it if the length fits the field. */
  predicate IsFrame(m: CanMsg, buf: seq<Byte>, i: nat, template: CanMsg, width: nat) {
    && m == template.(len := m.len, dat := m.dat)
    && 8 * i < |buf| && m.len <= |m.dat| && m.dat[..m.len] <= buf[8 * i..] && m.len <= 8
    && (|buf| < width ==> m.dat[..m.len] == buf[8 * i..Min(8 * i + 8, |buf|)])
  }

  lemma FrameIs(m: CanMsg, buf: seq<Byte>, i: nat, template: CanMsg, width: nat)
    requires 0 < width && 8 * i < |buf| && m == template.(len := m.len, dat := m.dat)
    requires m.len == FrameLen(|buf|, i, width) && buf[8 * i..8 * i + m.len] <= m.dat
    ensures IsFrame(m, buf, i, template, width)
  {
    FrameLenFits(|buf|, i, width);
    hide FrameLen;
    assert m.dat[..m.len] == buf[8 * i..8 * i + m.len] == buf[8 * i..][..m.len];
  }

  /** No frame is empty, and no byte is without one. */
  lemma FrameCountIsLeast(nbytes: nat)
    ensures 8 * FrameCount(nbytes) - 8 < nbytes <= 8 * FrameCount(nbytes)
  {
  }

  /** The loop of `io_write`: every frame but the last holds eight bytes, and together they carry the
      written bytes, if their number fits the `len` field; each frame goes to the transmit queue in
      turn. */
  method IoWrite(queue: Queue, buf: seq<Byte>, template: CanMsg, width: nat) returns (ghost sent: seq<CanMsg>)
    requires queue.Valid() && queue.sessionUp && queue.size != 0
    requires |template.dat| == 8 && 8 < width
    modifies queue, queue.data
    ensures queue.Valid() && queue.sessionUp && queue.View() == PutAll(old(queue.View()), sent)
    ensures |sent| == FrameCount(|buf|) && Payloads(sent) == CarriedFrom(buf, 0, width) && WellFormed(sent)
    ensures |buf| < width ==> Payloads(sent) == buf && forall i :: 0 <= i < |sent| - 1 ==> sent[i].len == 8
    ensures 8 * |sent| - 8 < |buf| <= 8 * |sent|
    ensures forall i :: 0 <= i < |sent| ==> IsFrame(sent[i], buf, i, template, width)
    ensures TailsStay(template, sent)
  {
    FrameCountIsLeast(|buf|);
    var n, canmsg := FrameCount(|buf|), template;
    ghost var before := queue.View();
    assert |before.data| == before.size && 0 < before.size && 0 <= before.end <= before.size;
    hide PutAll, Put, Contents, InBounds, CarriedFrom, Payloads, FrameLen, SentSoFar, WellFormed, Queue.Valid,
         Overwritten, Collapses, Notifies, IsFrame, TailsStay;
    sent := [];
    PutNone(before);
    SentNothing(buf, width, template);
    for i := 0 to n
      invariant queue.Valid() && queue.sessionUp && |canmsg.dat| == 8
      invariant canmsg == template.(len := canmsg.len, dat := canmsg.dat)
      invariant queue.View() == PutAll(before, sent)
      invariant canmsg == Previous(template, sent)
      invariant SentSoFar(buf, width, template, i, sent)
    {
      canmsg := FillFrame(canmsg, buf, i, width);
      SentFrame(buf, width, template, i, sent, canmsg);
      PutAllAppend(before, sent, canmsg);
      sent := sent + [canmsg];
      var ret := queue.Enqueue(canmsg);
    }
    SentEverything(buf, width, template, sent);
  }

  /** Lines 973 to 979: length and bytes of frame `i`; the bytes behind them stay as they were. */
  function FillFrame(canmsg: CanMsg, buf: seq<Byte>, i: nat, width: nat): (m: CanMsg)
    requires 0 < width && 8 * i <= |buf| && |canmsg.dat| == 8
    ensures m == canmsg.(len := m.len, dat := m.dat) && |m.dat| == 8
    ensures m.len == FrameLen(|buf|, i, width) && buf[8 * i..8 * i + m.len] <= m.dat
    ensures m.dat[m.len..] == canmsg.dat[m.len..]
  {
    var len := FrameLen(|buf|, i, width);
    canmsg.(len := len, dat := buf[8 * i..8 * i + len] + canmsg.dat[len..])
  }

  /** After `i` frames, what they carry and what is still to come make up the whole. */
  ghost predicate SentSoFar(buf: seq<Byte>, width: nat, template: CanMsg, i: nat, sent: seq<CanMsg>)
    requires 0 < width && i <= FrameCount(|buf|)
  {
    && |sent| == i && WellFormed(sent) && TailsStay(template, sent)
    && Payloads(sent) + CarriedFrom(buf, i, width) == CarriedFrom(buf, 0, width)
    && forall k :: 0 <= k < |sent| ==> IsFrame(sent[k], buf, k, template, width)
  }

  function Previous(template: CanMsg, sent: seq<CanMsg>): (m: CanMsg) {
    if sent == [] then template else sent[|sent| - 1]
  }

  /** One buffer is filled again and again, so the bytes behind a short frame are those of the one before. */
  predicate TailsStay(template: CanMsg, sent: seq<CanMsg>) {
    forall i :: 0 <= i < |sent| ==>
      var before := Previous(template, sent[..i]);
      |sent[i].dat| == |before.dat| && sent[i].len <= |before.dat|
      && sent[i].dat[sent[i].len..] == before.dat[sent[i].len..]
  }

  lemma SentNothing(buf: seq<Byte>, width: nat, template: CanMsg)
    requires 0 < width
    ensures SentSoFar(buf, width, template, 0, [])
  {
  }

  lemma SentFrame(buf: seq<Byte>, width: nat, template: CanMsg, i: nat, sent: seq<CanMsg>, m: CanMsg)
    requires 0 < width && i < FrameCount(|buf|) && SentSoFar(buf, width, template, i, sent)
    requires m == template.(len := m.len, dat := m.dat)
    requires m.len == FrameLen(|buf|, i, width) && buf[8 * i..8 * i + m.len] <= m.dat
    requires |m.dat| == |Previous(template, sent).dat|
    requires m.dat[m.len..] == Previous(template, sent).dat[m.len..]
    ensures SentSoFar(buf, width, template, i + 1, sent + [m])
  {
    hide FrameLen, Payloads, CarriedFrom, IsFrame, Previous, TailsStay;
    TailsGrow(template, sent, m);
    CarriedStep(buf, i, width);
    FrameIs(m, buf, i, template, width);
    PayloadIs(m, buf[8 * i..8 * i + m.len]);
    PayloadsAppend(sent, m);
    Reassociate(Payloads(sent), Payload(m), CarriedFrom(buf, i + 1, width));
  }

  lemma TailsGrow(template: CanMsg, sent: seq<CanMsg>, m: CanMsg)
    requires TailsStay(template, sent) && m.len <= |m.dat| == |Previous(template, sent).dat|
    requires m.dat[m.len..] == Previous(template, sent).dat[m.len..]
    ensures TailsStay(template, sent + [m])
  {
    hide Previous;
    assert forall i :: 0 <= i <= |sent| ==> (sent + [m])[..i] == sent[..i];
    assert sent[..|sent|] == sent;
  }

  lemma CarriedStep(buf: seq<Byte>, i: nat, width: nat)
    requires 0 < width && i < FrameCount(|buf|)
    ensures CarriedFrom(buf, i, width) == buf[8 * i..8 * i + FrameLen(|buf|, i, width)] + CarriedFrom(buf, i + 1, width)
  {
    hide FrameLen;
  }

  lemma PayloadIs(m: CanMsg, chunk: seq<Byte>)
    requires m.len == |chunk| && chunk <= m.dat
    ensures Payload(m) == chunk
  {
  }

  lemma Reassociate<T>(a: seq<T>, b: seq<T>, c: seq<T>)
    ensures a + (b + c) == a + b + c
  {
  }

  lemma SentEverything(buf: seq<Byte>, width: nat, template: CanMsg, sent: seq<CanMsg>)
    requires 0 < width && SentSoFar(buf, width, template, FrameCount(|buf|), sent)
    ensures Payloads(sent) == CarriedFrom(buf, 0, width) && WellFormed(sent) && |sent| == FrameCount(|buf|)
    ensures TailsStay(template, sent)
    ensures forall k :: 0 <= k < |sent| ==> IsFrame(sent[k], buf, k, template, width)
    ensures |buf| < width ==> Payloads(sent) == buf && forall i :: 0 <= i < |sent| - 1 ==> sent[i].len == 8
  {
    assert Payloads(sent) + [] == Payloads(sent);
    hide Payloads, CarriedFrom;
    if |buf| < width {
      CarriesAll(buf, 0, width);
      forall i | 0 <= i < |sent| - 1
        ensures sent[i].len == 8
      {
        assert IsFrame(sent[i], buf, i, template, width);
      }
    }
  }

  lemma PutNone(r: Ring<CanMsg>)
    requires |r.data| == r.size && 0 < r.size && 0 <= r.end <= r.size
    ensures PutAll(r, []) == r
  {
  }

  // ----- io_read -----

  predicate WellFormed(ms: seq<CanMsg>) {
    forall i :: 0 <= i < |ms| ==> ms[i].len <= |ms[i].dat|
  }

  /** The buffer every readable descriptor is opened with. */
  const READ_SIZE: nat := 4096

  /** What a reader holds: the bytes gathered for a read that could not be answered yet, the capacity of
      its buffer, and the bytes still in the queue. */
  datatype Stream = Stream(filled: seq<Byte>, capacity: nat, rest: seq<Byte>)

  /** All bytes that arrived and were not yet returned to a client. */
  function PendingOf(s: Stream): (p: seq<Byte>) { s.filled + s.rest }

  /** What is left of the gathered bytes once a read of `want` has made sure of its buffer: a larger one is
      allocated without copying, so they become whatever the new memory holds. */
  function Kept(s: Stream, want: nat, garbage: nat -> Byte): (kept: seq<Byte>)
    ensures |kept| == |s.filled|
  {
    if s.capacity < want then seq(|s.filled|, i requires 0 <= i => garbage(i)) else s.filled
  }

  /** Lines 822 to 913: the answer, and what is held afterwards.  The client is left blocked when there are
      fewer bytes than it asked for; otherwise it gets as many as it asked for, or as were gathered. */
  function ReplyTo(s: Stream, want: nat, garbage: nat -> Byte): (reply: Option<seq<Byte>>) {
    var all := Kept(s, want, garbage) + s.rest;
    if |all| < want then None else Some(all[..Max(want, |s.filled|)])
  }

  function AfterRead(s: Stream, want: nat, garbage: nat -> Byte): (s': Stream) {
    var all := Kept(s, want, garbage) + s.rest;
    var capacity := if s.capacity < want then s.capacity + want else s.capacity;
    if |all| < want then Stream(all, capacity, []) else Stream([], capacity, all[Max(want, |s.filled|)..])
  }

  function Bytes(reply: Option<seq<Byte>>): (b: seq<Byte>) {
    if reply.Some? then reply.value else []
  }

  /** A read that does not have to replace a buffer with gathered bytes in it. */
  predicate KeepsBuffer(s: Stream, want: nat) {
    s.filled == [] || want <= s.capacity
  }

  lemma ReadConserves(s: Stream, want: nat, garbage: nat -> Byte)
    requires KeepsBuffer(s, want)
    ensures Bytes(ReplyTo(s, want, garbage)) + PendingOf(AfterRead(s, want, garbage)) == PendingOf(s)
  {
    assert Kept(s, want, garbage) == s.filled;
    var all, n := s.filled + s.rest, Max(want, |s.filled|);
    assert |all| >= want ==> all[..n] + all[n..] == all;
  }

  /** The stream is conserved, whatever is in newly allocated memory, if and only if the read keeps the
      buffer of an unanswered one. */
  lemma ReadConservesExactly(s: Stream, want: nat)
    ensures (forall garbage: nat -> Byte ::
               Bytes(ReplyTo(s, want, garbage)) + PendingOf(AfterRead(s, want, garbage)) == PendingOf(s))
            <==> KeepsBuffer(s, want)
  {
    if KeepsBuffer(s, want) {
      forall garbage: nat -> Byte
        ensures Bytes(ReplyTo(s, want, garbage)) + PendingOf(AfterRead(s, want, garbage)) == PendingOf(s)
      {
        ReadConserves(s, want, garbage);
      }
    } else {
      var other: Byte := if s.filled[0] == 0 then 1 else 0;
      var garbage: nat -> Byte := _ => other;
      var all, n := Kept(s, want, garbage) + s.rest, Max(want, |s.filled|);
      assert |all| >= want ==> all[..n] + all[n..] == all;
      assert Bytes(ReplyTo(s, want, garbage)) + PendingOf(AfterRead(s, want, garbage)) == all;
      assert all[0] == other;
    }
  }

  /** Buffers grow by what was asked for: once a read of `first` bytes has outgrown the buffer, what is
      gathered is kept by every later read of up to the two sizes together. */
  lemma BuffersAddUp(s: Stream, first: nat, next: nat, garbage: nat -> Byte)
    requires s.capacity < first && AfterRead(s, first, garbage).filled != []
    ensures KeepsBuffer(AfterRead(s, first, garbage), next) <==> next <= s.capacity + first
  {
  }

  /** A client that asks for less than was gathered gets more than it asked for. */
  lemma ReplyTooLong(s: Stream, want: nat, garbage: nat -> Byte)
    requires want < |s.filled| <= s.capacity
    ensures ReplyTo(s, want, garbage) == Some(s.filled) && |s.filled| > want
  {
    var all := s.filled + s.rest;
    assert all[..|s.filled|] == s.filled;
  }

  /** The reading side of one open descriptor: `rx.read_buffer`, `rx.nbytes` and `rx.offset` of its
      control block, and the receive queue of its session. */
  class Reader {
    const queue: Queue
    var buffer: array<Byte>
    var nbytes: nat
    var offset: nat

    ghost predicate Valid()
      reads this, queue, queue.data, buffer
    {
      && queue.Valid() && queue.sessionUp && nbytes <= buffer.Length
      && WellFormed(queue.Messages())
      && (if queue.Messages() == [] then offset == 0 else offset <= queue.Messages()[0].len)
    }

    ghost function Value(): Stream
      reads this, queue, queue.data, buffer
      requires Valid()
    {
      OffsetInPayloads(queue.Messages(), offset);
      Stream(buffer[..nbytes], buffer.Length, Payloads(queue.Messages())[offset..])
    }

    /** A read of `want` bytes takes part of the front frame and nothing else. */
    ghost predicate WithinFront(want: nat)
      reads this, queue, queue.data, buffer
      requires Valid()
    {
      nbytes == 0 && queue.Messages() != [] && offset + want < queue.Messages()[0].len
    }

    ghost function Pending(): seq<Byte>
      reads this, queue, queue.data, buffer
      requires Valid()
    {
      PendingOf(Value())
    }

    /** Lines 534 to 545, for a descriptor that can be read. */
    constructor (queue: Queue)
      requires queue.Valid() && queue.sessionUp && queue.Messages() == []
      ensures Valid() && this.queue == queue && Value() == Stream([], READ_SIZE, []) && fresh(buffer)
      ensures nbytes == 0 && offset == 0
    {
      this.queue := queue;
      buffer := new Byte[READ_SIZE];
      nbytes, offset := 0, 0;
    }

    /** A frame arrives.  It joins the stream if the queue has headroom for it. */
    method Receive(m: CanMsg)
      requires Valid() && m.len <= |m.dat| && queue.size != 0
      modifies queue, queue.data
      ensures queue.Valid() && queue.View() == Put(old(queue.View()), m)
      ensures queue.Messages() == old(queue.Messages()) + [m] <==> 0 < Headroom(old(queue.View()))
      ensures 0 < Headroom(old(queue.View())) ==>
        Valid() && Value() == old(Value()).(rest := old(Value()).rest + Payload(m))
      ensures Valid() <==>
        if queue.Messages() == [] then offset == 0 else offset <= queue.Messages()[0].len
    {
      hide Contents, InBounds, Payloads, Headroom;
      ghost var before := queue.Messages();
      HeadroomMeansLossless(queue.View(), m);
      var ret := queue.Enqueue(m);
      ArrivalExtends(before, offset, m);
    }

    /** `io_read` from the queue size check to the reply, for any number of bytes: a client that was
        interrupted leaves the bytes gathered for it behind, and its next read may ask for another
        number.  `garbage` is what newly allocated memory holds. */
    method IoRead(want: nat, garbage: nat -> Byte) returns (reply: Option<seq<Byte>>)
      requires Valid()
      modifies this, buffer, queue
      ensures Valid() && (buffer == old(buffer) || fresh(buffer))
      ensures queue.size == 0 ==> reply == Some([]) && Value() == old(Value())
      ensures queue.size != 0 ==>
        reply == ReplyTo(old(Value()), want, garbage) && Value() == AfterRead(old(Value()), want, garbage)
      ensures old(WithinFront(want)) ==> offset == old(offset) + want && queue.View() == old(queue.View())
    {
      hide Contents, InBounds, Payloads, WellFormed, Queue.Valid;
      if queue.size == 0 {
        return Some([]);
      }
      EnsureBuffer(want, garbage);
      Gather(want);
      if nbytes < want {
        return None;
      }
      reply := Some(buffer[..nbytes]);
      nbytes := 0;
    }

    /** Lines 822 to 838. */
    method EnsureBuffer(want: nat, garbage: nat -> Byte)
      requires Valid()
      modifies this`buffer
      ensures Valid() && want <= buffer.Length && (buffer == old(buffer) || fresh(buffer))
      ensures
        var s := old(Value());
        Value() == Stream(Kept(s, want, garbage), if s.capacity < want then s.capacity + want else s.capacity, s.rest)
    {
      hide Contents, InBounds, Payloads, WellFormed, Queue.Valid;
      ghost var s := Value();
      if buffer.Length < want {
        buffer := new Byte[buffer.Length + want](i requires 0 <= i => garbage(i));
      }
      assert buffer[..nbytes] == Kept(s, want, garbage);
    }

    /** The loop, lines 840 to 870: bytes move from the queue to the buffer until there are `want`, or the
        queue is empty. */
    method Gather(want: nat)
      requires Valid() && want <= buffer.Length && queue.size != 0
      modifies this`nbytes, this`offset, buffer, queue
      ensures Valid()
      ensures
        var s := old(Value());
        var all, n := s.filled + s.rest, Max(want, |s.filled|);
        Value() == if |all| < want then Stream(all, s.capacity, []) else Stream(all[..n], s.capacity, all[n..])
      ensures old(WithinFront(want)) ==> offset == old(offset) + want && queue.View() == old(queue.View())
    {
      hide Contents, InBounds, Payloads, WellFormed, Queue.Valid;
      ghost var s := Value();
      while nbytes < want
        invariant Valid() && |s.filled| <= nbytes <= Max(want, |s.filled|)
        invariant Pending() == PendingOf(s)
        invariant old(WithinFront(want)) ==>
          && queue.View() == old(queue.View()) && (nbytes == 0 || nbytes == want)
          && offset == old(offset) + nbytes
        decreases |queue.Messages()|, want - nbytes
      {
        var canmsg := queue.PeekNoblock();
        if canmsg == None {
          break;
        }
        CopyFront(canmsg.value, want);
      }
      StreamParts();
    }

    /** One round of the loop: the rest of the front frame, or as much of it as still fits. */
    method CopyFront(canmsg: CanMsg, want: nat)
      requires Valid() && queue.Messages() != [] && canmsg == queue.Messages()[0]
      requires nbytes < want <= buffer.Length
      modifies this`nbytes, this`offset, buffer, queue
      ensures Valid() && old(nbytes) <= nbytes <= want && Pending() == old(Pending())
      ensures |queue.Messages()| < |old(queue.Messages())| ||
              (queue.Messages() == old(queue.Messages()) && nbytes == want)
      ensures want < old(nbytes) + canmsg.len - old(offset) ==>
        nbytes == want && offset == old(offset) + want - old(nbytes) && queue.View() == old(queue.View())
    {
      hide Contents, InBounds, Payloads, Queue.Valid;
      FrontFrame(queue.Messages(), offset);
      if nbytes + canmsg.len - offset <= want {
        CopyRest(canmsg);
      } else {
        CopyPart(canmsg, want);
      }
    }

    /** The rest of the front frame fits; the frame is taken out of the queue. */
    method CopyRest(canmsg: CanMsg)
      requires Valid() && queue.Messages() != [] && canmsg == queue.Messages()[0]
      requires nbytes + canmsg.len - offset <= buffer.Length
      modifies this`nbytes, this`offset, buffer, queue
      ensures Valid() && nbytes == old(nbytes) + canmsg.len - old(offset) && Pending() == old(Pending())
      ensures |queue.Messages()| < |old(queue.Messages())|
    {
      hide Contents, InBounds, Payloads, Queue.Valid;
      ghost var ms, got, from := queue.Messages(), buffer[..nbytes], offset;
      FrontFrame(ms, offset);
      var count := canmsg.len - offset;
      Copy(canmsg, count);
      nbytes := nbytes + count;
      offset := 0;
      DropFront();
      FrontConsumed(got, ms, from, count);
    }

    /** `dequeue_noblock` without a latency limit. */
    method DropFront()
      requires queue.Valid() && queue.sessionUp && queue.Messages() != []
      modifies queue`begin, queue`end
      ensures queue.Valid() && queue.Messages() == old(queue.Messages())[1..]
    {
      hide Contents, InBounds, Queue.Valid;
      StalePrefixIsLongest(queue.Messages(), _ => 0, 0, 0);
      var front := queue.DequeueNoblock(0, _ => 0);
    }

    /** Only part of it fits; the frame stays. */
    method CopyPart(canmsg: CanMsg, want: nat)
      requires Valid() && queue.Messages() != [] && canmsg == queue.Messages()[0]
      requires nbytes < want <= buffer.Length && want < nbytes + canmsg.len - offset
      modifies this`nbytes, this`offset, buffer
      ensures Valid() && nbytes == want && Pending() == old(Pending())
      ensures offset == old(offset) + want - old(nbytes)
    {
      hide Contents, InBounds, Payloads, Queue.Valid;
      ghost var ms, got, from := queue.Messages(), buffer[..nbytes], offset;
      FrontFrame(ms, offset);
      var count := want - nbytes;
      Copy(canmsg, count);
      nbytes := want;
      offset := offset + count;
      FrontConsumed(got, ms, from, count);
    }

    /** The `memcpy` of the loop. */
    method Copy(canmsg: CanMsg, count: nat)
      requires offset + count <= |canmsg.dat| && nbytes + count <= buffer.Length
      modifies buffer
      ensures buffer[..nbytes + count] == old(buffer[..nbytes]) + canmsg.dat[offset..offset + count]
    {
      forall k | 0 <= k < count {
        buffer[nbytes + k] := canmsg.dat[offset + k];
      }
    }

    lemma StreamParts()
      requires Valid()
      ensures buffer[..nbytes] <= Pending()
      ensures queue.Messages() == [] ==> Pending() == buffer[..nbytes]
      ensures nbytes <= |Pending()| && buffer[..nbytes] == Pending()[..nbytes]
      ensures OffsetOk(queue.Messages(), offset) && Payloads(queue.Messages())[offset..] == Pending()[nbytes..]
    {
    }
  }

  // ----- runs -----

  /** What can happen to a reader: a frame arrives, or a client reads any number of bytes. */
  datatype StreamOp = Arrive(m: CanMsg) | Read(want: nat, garbage: nat -> Byte)

  function StreamStep(s: Stream, op: StreamOp): (s': Stream) {
    match op
    case Arrive(m) => s.(rest := s.rest + Payload(m))
    case Read(want, garbage) => AfterRead(s, want, garbage)
  }

  function StreamRun(s: Stream, ops: seq<StreamOp>): (s': Stream) {
    if ops == [] then s else StreamStep(StreamRun(s, ops[..|ops| - 1]), ops[|ops| - 1])
  }

  /** The answers to the reads of a run, in order. */
  function Replies(s: Stream, ops: seq<StreamOp>): (replies: seq<Option<seq<Byte>>>) {
    if ops == [] then []
    else
      var before, last := ops[..|ops| - 1], ops[|ops| - 1];
      Replies(s, before) + if last.Read? then [ReplyTo(StreamRun(s, before), last.want, last.garbage)] else []
  }

  function AllBytes(replies: seq<Option<seq<Byte>>>): (b: seq<Byte>) {
    if replies == [] then [] else AllBytes(replies[..|replies| - 1]) + Bytes(replies[|replies| - 1])
  }

  /** The bytes that arrive in a run. */
  function Arrived(ops: seq<StreamOp>): (b: seq<Byte>) {
    if ops == [] then []
    else Arrived(ops[..|ops| - 1]) + if ops[|ops| - 1].Arrive? then Payload(ops[|ops| - 1].m) else []
  }

  /** No read of the run replaces a buffer with gathered bytes in it. */
  ghost predicate AllKeepBuffer(s: Stream, ops: seq<StreamOp>) {
    forall i :: 0 <= i < |ops| && ops[i].Read? ==> KeepsBuffer(StreamRun(s, ops[..i]), ops[i].want)
  }

  /** Over every such run, the bytes returned to clients followed by the bytes still pending are the bytes
      that were pending followed by all bytes that arrived, in order. */
  lemma {:induction false} RunConserves(s: Stream, ops: seq<StreamOp>)
    requires AllKeepBuffer(s, ops)
    ensures AllBytes(Replies(s, ops)) + PendingOf(StreamRun(s, ops)) == PendingOf(s) + Arrived(ops)
    decreases |ops|
  {
    hide AfterRead, ReplyTo, KeepsBuffer, Payload;
    if ops == [] {
      assert [] + PendingOf(s) == PendingOf(s) + [];
    } else {
      var before, last := ops[..|ops| - 1], ops[|ops| - 1];
      assert forall i :: 0 <= i < |before| ==> before[..i] == ops[..i] && before[i] == ops[i];
      RunConserves(s, before);
      var mid, replies := StreamRun(s, before), Replies(s, before);
      if last.Arrive? {
        assert replies + [] == replies;
        Reassociate(AllBytes(replies), PendingOf(mid), Payload(last.m));
        Reassociate(mid.filled, mid.rest, Payload(last.m));
        Reassociate(PendingOf(s), Arrived(before), Payload(last.m));
      } else {
        var reply := ReplyTo(mid, last.want, last.garbage);
        assert (replies + [reply])[..|replies|] == replies;
        ReadConserves(mid, last.want, last.garbage);
        Reassociate(AllBytes(replies), Bytes(reply), PendingOf(AfterRead(mid, last.want, last.garbage)));
        assert Arrived(ops) == Arrived(before) + [];
      }
    }
  }

  /** A run of a newly opened descriptor that loses bytes: three arrive, a client that wants ten is
      interrupted, and the next read wants more than the buffer of 4096.  The buffer is replaced, and the
      three bytes with it. */
  lemma InterruptedReadLoses(m: CanMsg, garbage: nat -> Byte)
    requires m.len == 3 <= |m.dat|
    ensures
      var s, ops := Stream([], READ_SIZE, []), [Arrive(m), Read(10, garbage), Read(4097, garbage)];
      && PendingOf(StreamRun(s, ops[..2])) == Payload(m)
      && PendingOf(StreamRun(s, ops)) == [garbage(0), garbage(1), garbage(2)]
  {
    var s, ops := Stream([], READ_SIZE, []), [Arrive(m), Read(10, garbage), Read(4097, garbage)];
    var s1, s2 := Stream([], READ_SIZE, Payload(m)), Stream(Payload(m), READ_SIZE, []);
    assert ops[..2] == [Arrive(m)] + [Read(10, garbage)] && ops == ops[..2] + [Read(4097, garbage)];
    assert StreamRun(s, [Arrive(m)]) == s1 by {
      LastStep(s, [], Arrive(m));
      assert [] + Payload(m) == Payload(m);
    }
    assert StreamRun(s, ops[..2]) == s2 by {
      LastStep(s, [Arrive(m)], Read(10, garbage));
      assert Kept(s1, 10, garbage) + Payload(m) == Payload(m);
    }
    LastStep(s, ops[..2], Read(4097, garbage));
    assert Kept(s2, 4097, garbage) + [] == [garbage(0), garbage(1), garbage(2)];
  }

  lemma LastStep(s: Stream, ops: seq<StreamOp>, op: StreamOp)
    ensures StreamRun(s, ops + [op]) == StreamStep(StreamRun(s, ops), op)
  {
    assert (ops + [op])[..|ops|] == ops;
  }

  /** The reader follows the run: which read is answered with which bytes, and what is held at the end.
      The run is cut short before an arrival for which the queue has no headroom. */
  method RunStream(r: Reader, ops: seq<StreamOp>) returns (replies: seq<Option<seq<Byte>>>, done: nat)
    requires r.Valid() && r.queue.size != 0
    requires forall i :: 0 <= i < |ops| && ops[i].Arrive? ==> ops[i].m.len <= |ops[i].m.dat|
    modifies r, r.buffer, r.queue, r.queue.data
    ensures r.Valid() && done <= |ops|
    ensures replies == Replies(old(r.Value()), ops[..done]) && r.Value() == StreamRun(old(r.Value()), ops[..done])
    ensures done < |ops| ==> ops[done].Arrive? && Headroom(r.queue.View()) == 0
  {
    hide Contents, InBounds, Payloads, WellFormed, Queue.Valid, AfterRead, ReplyTo, Payload, Headroom;
    replies := [];
    ghost var s := r.Value();
    for i := 0 to |ops|
      invariant r.Valid() && (r.buffer == old(r.buffer) || fresh(r.buffer))
      invariant replies == Replies(s, ops[..i]) && r.Value() == StreamRun(s, ops[..i])
    {
      assert ops[..i + 1][..i] == ops[..i];
      match ops[i]
      case Arrive(m) =>
        var room := HasRoom(r.queue);
        if !room {
          return replies, i;
        }
        assert replies + [] == replies;
        r.Receive(m);
      case Read(want, garbage) =>
        var reply := r.IoRead(want, garbage);
        replies := replies + [reply];
    }
    assert ops[..|ops|] == ops;
    done := |ops|;
  }

  /** What lines 848 to 869 copy out of a frame of `len` bytes: where from, and how much, with `size_t`
      arithmetic modulo `word`. */
  function CopiedRange(len: nat, offset: nat, nbytes: nat, want: nat, word: nat): (r: (nat, nat))
    requires nbytes < want < word
  {
    if (nbytes + len - offset) % word <= want then (offset, (len - offset) % word) else (offset, want - nbytes)
  }

  /** The copy stays inside the frame if and only if the offset does.  Otherwise it is not even empty. */
  lemma CopyStaysInside(len: nat, offset: nat, nbytes: nat, want: nat, word: nat)
    requires nbytes < want < word && nbytes + len < word && offset < word
    ensures
      var (from, count) := CopiedRange(len, offset, nbytes, want, word);
      && (from + count <= len <==> offset <= len)
      && (len < offset ==> 0 < count)
  {
    if offset <= len {
      DivModUnique(nbytes + len - offset, word, 0, nbytes + len - offset);
      DivModUnique(len - offset, word, 0, len - offset);
    } else {
      DivModUnique(len - offset, word, -1, len - offset + word);
    }
  }

  /** The run that gets there: five of eight bytes are read, then three more frames arrive at a queue of
      three.  The first two frames are overwritten, and the offset of the first now applies to the third,
      which is shorter. */
  method OverflowMidFrame(a: CanMsg, b: CanMsg, c: CanMsg, d: CanMsg, garbage: nat -> Byte) returns (r: Reader)
    requires a.len == 8 == |a.dat| && b.len <= |b.dat| && c.len <= |c.dat| && d.len <= |d.dat|
    requires c.len < 5
    ensures r.queue.Valid() && r.queue.Messages() == [c, d] && r.offset == 5 && !r.Valid()
  {
    r := ReadFiveOfEight(a, garbage);
    OverflowBehind(r, a, b, c, d);
  }

  method ReadFiveOfEight(a: CanMsg, garbage: nat -> Byte) returns (r: Reader)
    requires a.len == 8 == |a.dat|
    ensures fresh(r) && fresh(r.queue) && fresh(r.queue.data)
    ensures r.Valid() && r.queue.size == 3 && r.offset == 5
    ensures r.queue.begin == 0 && r.queue.end == 1 && r.queue.data[..1] == [a]
  {
    hide Payloads, AfterRead, ReplyTo, WellFormed, Contents, InBounds, Reader.Value, Reader.WithinFront;
    r := OpenWithFrame(a);
    ghost var view := r.queue.View();
    var reply := r.IoRead(5, garbage);
    assert r.queue.View() == view;
    assert r.queue.data[..1] == view.data[..1];
  }

  method OpenWithFrame(a: CanMsg) returns (r: Reader)
    requires a.len == 8 == |a.dat|
    ensures fresh(r) && fresh(r.queue) && fresh(r.queue.data) && fresh(r.buffer)
    ensures r.Valid() && r.queue.size == 3 && r.offset == 0 && r.WithinFront(5)
    ensures r.queue.begin == 0 && r.queue.end == 1 && r.queue.data[..1] == [a]
  {
    hide Payloads, WellFormed, Reader.Value;
    var queue := new Queue(3);
    r := new Reader(queue);
    r.Receive(a);
    assert r.queue.View().begin == 0 && r.queue.View().end == 1 && r.queue.View().data[..1] == [a];
    assert r.queue.Messages() == [a];
  }

  method OverflowBehind(r: Reader, ghost a: CanMsg, b: CanMsg, c: CanMsg, d: CanMsg)
    requires r.Valid() && r.queue.size == 3 && r.offset == 5
    requires r.queue.begin == 0 && r.queue.end == 1 && r.queue.data[..1] == [a]
    requires b.len <= |b.dat| && c.len <= |c.dat| && d.len <= |d.dat| && c.len < 5
    modifies r.queue, r.queue.data
    ensures r.queue.Valid() && r.queue.Messages() == [c, d] && r.offset == 5 && !r.Valid()
  {
    hide Payloads, WellFormed, Reader.Value;
    r.Receive(b);
    assert r.queue.View().begin == 0 && r.queue.View().end == 2 && r.queue.View().data[..2] == [a, b];
    r.Receive(c);
    assert r.queue.View() == Ring(3, 0, 3, [a, b, c]);
    r.Receive(d);
    assert r.queue.View() == Ring(3, 2, 1, [d, b, c]);
  }

  method HasRoom(queue: Queue) returns (room: bool)
    requires queue.Valid() && queue.size != 0
    ensures room <==> 0 < Headroom(queue.View())
  {
    room := if queue.end < queue.begin then queue.begin != queue.end + 1 else queue.end < queue.size || queue.begin > 1;
  }

  /** Splitting and reassembly are inverse: bytes whose number fits the `len` field, written to a queue with
      headroom for their frames, are read back the same. */
  method WriteThenRead(r: Reader, buf: seq<Byte>, template: CanMsg, width: nat, garbage: nat -> Byte)
    returns (reply: Option<seq<Byte>>)
    requires r.Valid() && r.Pending() == [] && r.queue.size != 0
    requires |template.dat| == 8 && 8 < width
    modifies r, r.buffer, r.queue, r.queue.data
    ensures |buf| < width && FrameCount(|buf|) <= Headroom(old(r.queue.View())) ==>
      r.Valid() && reply == Some(buf) && r.Pending() == []
  {
    hide Contents, InBounds, PutAll, Payloads, WellFormed, Queue.Valid, Headroom, FrameCount;
    ghost var before := r.Value();
    var fits, sent := WriteInto(r, buf, template, width);
    reply := None;
    if fits {
      reply := r.IoRead(|buf|, garbage);
      EmptyThenRead(before, buf, garbage);
    }
  }

  lemma EmptyThenRead(s: Stream, buf: seq<Byte>, garbage: nat -> Byte)
    requires PendingOf(s) == []
    ensures
      var s' := s.(rest := s.rest + buf);
      ReplyTo(s', |buf|, garbage) == Some(buf) && PendingOf(AfterRead(s', |buf|, garbage)) == []
  {
    assert s.filled == [] && s.rest == [];
    var all := Kept(s.(rest := s.rest + buf), |buf|, garbage) + (s.rest + buf);
    assert all == buf && buf[..|buf|] == buf && buf[|buf|..] == [];
  }

  /** Writing to the queue of a reader appends to its stream, exactly as far as the queue has headroom. */
  method WriteInto(r: Reader, buf: seq<Byte>, template: CanMsg, width: nat)
    returns (fits: bool, ghost sent: seq<CanMsg>)
    requires r.Valid() && r.queue.size != 0
    requires |template.dat| == 8 && 8 < width
    modifies r.queue, r.queue.data
    ensures fits <==> |buf| < width && FrameCount(|buf|) <= Headroom(old(r.queue.View()))
    ensures r.queue.View() == PutAll(old(r.queue.View()), sent) && |sent| == FrameCount(|buf|)
    ensures forall i :: 0 <= i < |sent| ==> IsFrame(sent[i], buf, i, template, width)
    ensures fits ==> r.Valid() && r.Value() == old(r.Value()).(rest := old(r.Value()).rest + buf)
  {
    ghost var ms, view := r.queue.Messages(), r.queue.View();
    assert InBounds(view) && ms == Contents(view);
    var headroom := if r.queue.end < r.queue.begin then r.queue.begin - 1 - r.queue.end
      else r.queue.size - r.queue.end + if r.queue.begin == 0 then 0 else r.queue.begin - 1;
    assert headroom == Headroom(view);
    hide Contents, InBounds, PutAll, Payloads, WellFormed, Headroom, FrameCount, IsFrame;
    fits := |buf| < width && FrameCount(|buf|) <= headroom;
    sent := IoWrite(r.queue, buf, template, width);
    if fits {
      PutAllContents(view, sent);
      ArriveAll(ms, r.offset, sent);
      assert r.queue.Messages() == ms + sent;
    }
  }

  ghost predicate OffsetOk(ms: seq<CanMsg>, offset: nat) {
    offset <= |Payloads(ms)|
  }

  lemma OffsetInPayloads(ms: seq<CanMsg>, offset: nat)
    requires WellFormed(ms)
    requires if ms == [] then offset == 0 else offset <= ms[0].len
    ensures OffsetOk(ms, offset)
  {
  }

  lemma FrontFrame(ms: seq<CanMsg>, offset: nat)
    requires WellFormed(ms) && ms != [] && offset <= ms[0].len
    ensures ms[0].len <= |ms[0].dat| && WellFormed(ms[1..])
  {
  }

  lemma ArrivalExtends(ms: seq<CanMsg>, offset: nat, m: CanMsg)
    requires WellFormed(ms) && m.len <= |m.dat|
    requires if ms == [] then offset == 0 else offset <= ms[0].len
    ensures WellFormed(ms + [m]) && OffsetOk(ms, offset) && OffsetOk(ms + [m], offset)
    ensures Payloads(ms + [m])[offset..] == Payloads(ms)[offset..] + Payload(m)
  {
    PayloadsAppend(ms, m);
    OffsetInPayloads(ms, offset);
  }

  /** Moving `count` bytes of the front frame to the buffer leaves the stream as it was. */
  lemma FrontConsumed(got: seq<Byte>, ms: seq<CanMsg>, offset: nat, count: nat)
    requires WellFormed(ms) && ms != [] && offset + count <= ms[0].len
    ensures OffsetOk(ms, offset) && OffsetOk(ms, offset + count)
    ensures got + ms[0].dat[offset..offset + count] + Payloads(ms)[offset + count..] == got + Payloads(ms)[offset..]
    ensures offset + count == ms[0].len ==> Payloads(ms)[offset + count..] == Payloads(ms[1..])[0..]
  {
    var p := Payloads(ms);
    assert p[offset..offset + count] == ms[0].dat[offset..offset + count];
    assert p[offset..] == p[offset..offset + count] + p[offset + count..];
  }

  lemma ArriveAll(ms: seq<CanMsg>, offset: nat, more: seq<CanMsg>)
    requires WellFormed(ms) && WellFormed(more)
    requires if ms == [] then offset == 0 else offset <= ms[0].len
    ensures WellFormed(ms + more) && OffsetOk(ms, offset) && OffsetOk(ms + more, offset)
    ensures Payloads(ms + more)[offset..] == Payloads(ms)[offset..] + Payloads(more)
  {
    PayloadsConcat(ms, more);
    OffsetInPayloads(ms, offset);
  }
}
