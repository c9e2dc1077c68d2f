/** `queue_t` of queue.c.  Each method is the section the source runs with the mutex held; waiting on the
    condition variable is the precondition of `Dequeue`. */
module CanQueue {
  import opened Words
  import opened Rings

  const EOK: int := 0
  const EPIPE: int := 32
  const EDOM: int := 33

  /** QNX's `struct can_msg`, as far as the driver uses it. */
  datatype CanMsg = CanMsg(mid: U32, timestamp: U32, isExtendedMid: bool, isRemoteFrame: bool, len: nat, dat: seq<Byte>)

  /** Line 202: older than the limit on a 32-bit millisecond clock that wraps; a limit of zero is off. */
  predicate Stale(m: CanMsg, now: U32, limit: U32) {
    limit != 0 && Wrap32(now - m.timestamp) > limit
  }

  /** On a clock that does not wrap, `sent` and `read` being the times: a message is stale when it is older
      than the limit, as long as it is younger than 2^32 milliseconds.  From then on its age is counted
      modulo 2^32, so that it looks fresh again for a while every 49.7 days. */
  lemma StaleMeansOlder(m: CanMsg, sent: nat, read: nat, now: U32, limit: U32)
    requires sent <= read && m.timestamp == sent % 0x1_0000_0000 && now == read % 0x1_0000_0000
    ensures Stale(m, now, limit) <==> limit != 0 && (read - sent) % 0x1_0000_0000 > limit
    ensures read - sent < 0x1_0000_0000 ==> (Stale(m, now, limit) <==> limit != 0 && read - sent > limit)
  {
    var age := read - sent;
    assert Wrap32(now - m.timestamp) == age % 0x1_0000_0000;
  }

  /** The length of the longest stale prefix, where reading `i + k` of the clock judges message `k`. */
  function StalePrefix(s: seq<CanMsg>, clock: nat -> U32, i: nat, limit: U32): (n: nat)
    ensures n <= |s|
  {
    if s == [] || !Stale(s[0], clock(i), limit) then 0 else 1 + StalePrefix(s[1..], clock, i + 1, limit)
  }

  /** Everything before it is stale, what follows is fresh; without a limit nothing is stale. */
  lemma {:induction false} StalePrefixIsLongest(s: seq<CanMsg>, clock: nat -> U32, i: nat, limit: U32)
    ensures
      var n := StalePrefix(s, clock, i, limit);
      && (forall k: nat :: k < n ==> Stale(s[k], clock(i + k), limit))
      && (n < |s| ==> !Stale(s[n], clock(i + n), limit))
      && (limit == 0 ==> n == 0)
    decreases |s|
  {
    if s != [] && Stale(s[0], clock(i), limit) {
      StalePrefixIsLongest(s[1..], clock, i + 1, limit);
      var n := StalePrefix(s, clock, i, limit);
      forall k: nat | k < n
        ensures Stale(s[k], clock(i + k), limit)
      {
        if k != 0 {
          assert s[k] == s[1..][k - 1] && i + k == i + 1 + (k - 1);
        }
      }
    }
  }

  class Queue {
    const size: nat
    const data: array<CanMsg>
    var begin: int
    var end: int
    var sessionUp: bool
    /** How often the `dropped_packet` callback was called. */
    var dropped: nat

    ghost function View(): Ring<CanMsg>
      reads this, data
    {
      Ring(size, begin, end, data[..])
    }

    ghost predicate Valid()
      reads this, data
    {
      && data.Length == size
      && (size == 0 ==> begin == end == 0)
      && (size != 0 ==> 3 <= size && InBounds(View()))
    }

    ghost function Messages(): seq<CanMsg>
      reads this, data
      requires Valid()
    {
      if size == 0 then [] else Contents(View())
    }

    /** `create_queue`.  It accepts any size, but only zero and sizes from three on make a queue whose
        indices stay inside the buffer. */
    constructor (size: nat)
      ensures this.size == size && fresh(data) && data.Length == size
      ensures begin == 0 && end == 0 && sessionUp && dropped == 0
      ensures size == 0 || 3 <= size ==> Valid() && Messages() == []
    {
      this.size := size;
      data := new CanMsg[size];
      begin, end := 0, 0;
      sessionUp := true;
      dropped := 0;
    }

    /** `enqueue`. */
    method Enqueue(msg: CanMsg) returns (ret: int)
      requires Valid()
      modifies this`begin, this`end, this`dropped, data
      ensures Valid()
      ensures ret == if !sessionUp then EPIPE else if size == 0 then EDOM else EOK
      ensures ret != EOK ==> View() == old(View()) && dropped == old(dropped)
      ensures ret == EOK ==> View() == Put(old(View()), msg)
      ensures ret == EOK ==> dropped == old(dropped) + if old(Notifies(View())) then 1 else 0
      ensures ret == EOK && !old(Collapses(View())) ==>
        Messages() == old(Messages())[old(Overwritten(View()))..] + [msg]
      ensures ret == EOK && old(Collapses(View())) ==> Messages() == []
    {
      if !sessionUp { return EPIPE; }
      if size == 0 { return EDOM; }
      hide Contents;
      ghost var before := View();
      PutContents(before, msg);
      MakeRoom(msg);
      data[end] := msg;
      end := end + 1;
      assert View().data == before.data[WriteIndex(before) := msg];
      ret := EOK;
    }

    /** Lines 124 to 148: the indices move, possibly over messages that are thereby lost. */
    method MakeRoom(ghost msg: CanMsg)
      requires Valid() && size != 0
      modifies this`begin, this`end, this`dropped
      ensures begin == Put(old(View()), msg).begin && end == WriteIndex(old(View()))
      ensures dropped == old(dropped) + if old(Notifies(View())) then 1 else 0
    {
      if end == size {
        end := 0;
        if begin == 0 {
          begin := 2;
        }
      } else if begin == end + 1 {
        if begin + 1 == size {
          begin := 0;
        } else {
          begin := begin + 1;
          dropped := dropped + 1;
        }
      }
    }

    lemma EmptyMeans()
      requires Valid()
      ensures Messages() == [] <==> size == 0 || begin == end
    {
      if size != 0 { EmptyWhenIndicesMeet(View()); }
    }

    /** Lines 197 to 215: the oldest message is taken out. */
    method TakeOldest() returns (head: CanMsg)
      requires Valid() && size != 0 && begin != end
      modifies this`begin, this`end
      ensures Valid() && View() == Pop(old(View()))
      ensures |old(Messages())| > 0 && head == old(Messages())[0] && Messages() == old(Messages())[1..]
    {
      PopContents(View());
      head := data[begin];
      begin := begin + 1;
      if begin == size {
        begin := 0;
        if end == size {
          end := 0;
        }
      }
    }

    /** One round of `dequeue` after its wait has ended: the oldest message, unless it is stale. */
    method Dequeue(limit: U32, now: U32) returns (result: Option<CanMsg>)
      requires Valid() && (sessionUp && size != 0 ==> begin != end)
      modifies this`begin, this`end
      ensures Valid()
      ensures !sessionUp || size == 0 ==> result == None && View() == old(View())
      ensures sessionUp && size != 0 ==>
        && View() == Pop(old(View())) && |old(Messages())| > 0 && Messages() == old(Messages())[1..]
        && result == if Stale(old(Messages())[0], now, limit) then None else Some(old(Messages())[0])
    {
      if !sessionUp { return None; }
      if size == 0 { return None; }
      var head := TakeOldest();
      result := if Stale(head, now, limit) then None else Some(head);
    }

    /** `dequeue_noblock`: throws away the stale messages at the front and returns the first fresh one;
        `clock(i)` is the time read in round `i`. */
    method DequeueNoblock(limit: U32, clock: nat -> U32) returns (result: Option<CanMsg>)
      requires Valid()
      modifies this`begin, this`end
      ensures Valid()
      ensures !sessionUp ==> result == None && View() == old(View())
      ensures sessionUp ==>
        var before := old(Messages());
        var n := StalePrefix(before, clock, 0, limit);
        && View() == PopAll(old(View()), if n == |before| then n else n + 1)
        && (result == None <==> n == |before|)
        && (n == |before| ==> Messages() == [])
        && (n < |before| ==> result == Some(before[n]) && Messages() == before[n + 1..])
    {
      hide Contents, Stale, InBounds, PopAll, Pop;
      if !sessionUp { return None; }
      PopAllNext(View(), 0);
      ghost var before := Messages();
      ghost var n := StalePrefix(before, clock, 0, limit);
      var i: nat := 0;
      while true
        invariant Valid()
        invariant i <= n && Messages() == before[i..] && View() == PopAll(old(View()), i)
        invariant StalePrefix(before[i..], clock, i, limit) == n - i
        decreases |Messages()|
      {
        EmptyMeans();
        if size == 0 || begin == end {
          return None;
        }
        PopAllNext(old(View()), i);
        var head := TakeOldest();
        assert before[i..][1..] == before[i + 1..];
        if !Stale(head, clock(i), limit) {
          return Some(head);
        }
        i := i + 1;
      }
    }

    /** `dequeue_peek_noblock`. */
    method PeekNoblock() returns (result: Option<CanMsg>)
      requires Valid()
      ensures result == if !sessionUp || Messages() == [] then None else Some(Messages()[0])
    {
      if !sessionUp { return None; }
      if size == 0 || begin == end { return None; }
      PopContents(View());
      result := Some(data[begin]);
    }
  }
}
