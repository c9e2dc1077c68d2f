/** Socket buffers of one CAN device: allocation, the local echo slots of skb.c, reception in netif.c and
    bus-off recovery in dev.c, all on the block pool.

    `bufs` is the memory of the buffers in use; a buffer that is not in an echo slot belongs to whoever
    called the method.  `serial`, `issued` and `freed` number the buffers ever allocated, so that freed
    exactly once can be stated. */
module Device {
  import opened Words
  import opened Pool

  const EBUSY: int := 16
  const EINVAL: int := 22
  const EOPNOTSUPP: int := 95

  const CAN_ERR_FLAG: U32 := 0x2000_0000
  const CAN_ERR_RESTARTED: U32 := 0x100

  datatype CanState = ErrorActive | ErrorWarning | ErrorPassive | BusOff | Stopped | Sleeping

  /** Bits 29 and 30 of a frame's identifier. */
  predicate IsError(canId: U32) { canId / 0x2000_0000 % 2 == 1 }
  predicate IsRemote(canId: U32) { canId / 0x4000_0000 % 2 == 1 }

  /** Lines 163 to 206 of netif.c: whether an error frame seen in `state` restarts the controller, for
      the error count given with option -R (zero switches it off). */
  predicate Triggers(state: CanState, count: int) {
    && count != 0
    && match state
       case ErrorActive => count < 96
       case ErrorWarning => count < 128
       case ErrorPassive => count < 256
       case BusOff => count >= 256
       case Stopped => true
       case Sleeping => true
  }

  const CAN_RTR_FLAG: U32 := 0x4000_0000

  /** They are what the source tests with its flags. */
  lemma FlagsAreBits(canId: U32)
    ensures IsError(canId) <==> And(canId, CAN_ERR_FLAG) != 0
    ensures IsRemote(canId) <==> And(canId, CAN_RTR_FLAG) != 0
  {
    hide And;
    assert Pow2(29) == CAN_ERR_FLAG && Pow2(30) == CAN_RTR_FLAG by {
      Pow2Square(7, 128);
      Pow2Add(14, 14);
      assert Pow2(29) == 2 * Pow2(28) && Pow2(30) == 2 * Pow2(29);
    }
    hide Pow2;
    AndBit(canId, 29);
    AndBit(canId, 30);
  }

  /** The state a controller is in with so many errors, as the comments of the source give it. */
  function StateFor(errors: nat): (s: CanState) {
    if errors < 96 then ErrorActive
    else if errors < 128 then ErrorWarning
    else if errors < 256 then ErrorPassive
    else BusOff
  }

  /** When option -R with this count asks for a restart.  A controller on the bus: when the errors it can
      have in its state may have reached the count.  One that is bus-off: when the count lies in that
      range itself.  One that is stopped or sleeping: always. */
  ghost predicate Due(state: CanState, count: int) {
    && count != 0
    && match state
       case BusOff => 0 <= count && StateFor(count) == BusOff
       case Stopped => true
       case Sleeping => true
       case _ => exists errors: nat :: errors >= count && StateFor(errors) == state
  }

  /** The source's thresholds say exactly that. */
  lemma TriggersExactly(state: CanState, count: int)
    ensures Triggers(state, count) <==> Due(state, count)
  {
    var low := if count < 0 then 0 else count;
    match state
    case ErrorActive =>
      assert count < 96 ==> StateFor(low) == ErrorActive;
    case ErrorWarning =>
      assert count < 128 ==> StateFor(if low < 96 then 96 else low) == ErrorWarning;
    case ErrorPassive =>
      assert count < 256 ==> StateFor(if low < 128 then 128 else low) == ErrorPassive;
    case BusOff =>
    case Stopped =>
    case Sleeping =>
  }

  /** Every buffer number issued so far is in use exactly once or was freed exactly once. */
  ghost predicate Ledger(issued: nat, serial: map<Block, nat>, freed: seq<nat>, live: set<Block>) {
    && serial.Keys == live && NoRepeats(freed)
    && (forall n :: n in freed ==> n < issued)
    && (forall b :: b in serial ==> serial[b] < issued && serial[b] !in freed)
    && (forall b, c :: b in serial && c in serial && b != c ==> serial[b] != serial[c])
    && (forall n: nat :: n < issued ==> n in freed || n in serial.Values)
  }

  lemma LedgerAlloc(issued: nat, serial: map<Block, nat>, freed: seq<nat>, live: set<Block>, b: Block)
    requires Ledger(issued, serial, freed, live) && b !in live
    ensures Ledger(issued + 1, serial[b := issued], freed, live + {b})
  {
    var serial' := serial[b := issued];
    forall n: nat | n < issued + 1
      ensures n in freed || n in serial'.Values
    {
      if n == issued {
        assert serial'[b] == n;
      } else if n !in freed {
        var c :| c in serial && serial[c] == n;
        assert serial'[c] == n;
      }
    }
  }

  lemma LedgerFree(issued: nat, serial: map<Block, nat>, freed: seq<nat>, live: set<Block>, b: Block)
    requires Ledger(issued, serial, freed, live) && b in live
    ensures b in serial
    ensures Ledger(issued, serial - {b}, freed + [serial[b]], live - {b})
  {
    var serial', freed' := serial - {b}, freed + [serial[b]];
    assert serial'.Keys == live - {b};
    forall n: nat | n < issued
      ensures n in freed' || n in serial'.Values
    {
      if n !in freed' {
        assert n !in freed;
        var c :| c in serial && serial[c] == n;
        assert freed'[|freed|] == serial[b];
        assert c != b;
        assert serial'[c] == n;
      }
    }
  }

  // ----- how deep recovery nests -----

  /** How many further error frames are received below one that is received in `state`, when `room`
      blocks are free or can be flushed from echo slots. */
  function RxDepth(room: nat, state: CanState, count: int, hasSetMode: bool): (d: nat)
    decreases room, 1
  {
    if Triggers(state, count) then RestartDepth(room, BusOff, count, hasSetMode) else 0
  }

  /** The same below a restart begun in `state`: a restart that finds two free blocks reports itself
      with an error frame. */
  function RestartDepth(room: nat, state: CanState, count: int, hasSetMode: bool): (d: nat)
    decreases room, 0
  {
    if !hasSetMode || room < 2 then 0 else 1 + RxDepth(room - 2, state, count, hasSetMode)
  }

  /** How often `do_set_mode` is called by the reception of an error frame, and by a restart. */
  function RxStarts(room: nat, state: CanState, count: int): (n: nat)
    decreases room, 1
  {
    if Triggers(state, count) then RestartStarts(room, BusOff, count) else 0
  }

  function RestartStarts(room: nat, state: CanState, count: int): (n: nat)
    decreases room, 0
  {
    1 + if room < 2 then 0 else RxStarts(room - 2, state, count)
  }

  lemma StartsWhenDue(room: nat, state: CanState, count: int)
    ensures 0 < RxStarts(room, state, count) <==> Due(state, count)
  {
    hide Due;
    TriggersExactly(state, count);
  }

  /** One start per error frame below 256; from 256 on, one for every two free blocks and one more. */
  lemma {:induction false} StartsPerFrame(room: nat, state: CanState, count: int)
    requires Triggers(state, count)
    ensures count < 256 ==> RxStarts(room, state, count) == 1
    ensures count >= 256 ==> RxStarts(room, state, count) == 1 + room / 2
    decreases room
  {
    if room >= 2 {
      assert RxStarts(room, state, count) == 1 + RxStarts(room - 2, BusOff, count);
      if count >= 256 {
        StartsPerFrame(room - 2, BusOff, count);
      }
    }
  }

  /** With an error count below 256 the recursion nests at most once; from 256 on it only ends when the
      pool is empty. */
  lemma {:induction false} NestingDepth(room: nat, state: CanState, count: int)
    requires Triggers(state, count)
    ensures RxDepth(room, state, count, false) == 0
    ensures count < 256 ==> RxDepth(room, state, count, true) == Min(1, room / 2)
    ensures count >= 256 ==> RxDepth(room, state, count, true) == room / 2
    decreases room
  {
    if room >= 2 {
      assert RxDepth(room, state, count, true) == 1 + RxDepth(room - 2, BusOff, count, true);
      if count >= 256 {
        NestingDepth(room - 2, BusOff, count);
      }
    }
  }

  /** The buffers in the first `n` slots. */
  ghost function BlocksIn(slots: seq<Option<Block>>, n: nat): set<Block>
    requires n <= |slots|
  {
    if n == 0 then {}
    else BlocksIn(slots, n - 1) + SlotBlock(slots[n - 1])
  }

  ghost function SlotBlock(slot: Option<Block>): set<Block> {
    if slot.Some? then {slot.value} else {}
  }

  lemma {:induction false} InBlocks(slots: seq<Option<Block>>, n: nat, b: Block)
    requires n <= |slots|
    ensures b in BlocksIn(slots, n) <==> exists i :: 0 <= i < n && slots[i] == Some(b)
  {
    if n != 0 { InBlocks(slots, n - 1, b); }
  }

  /** Echo slots hold different buffers in use, all marked as echoes. */
  ghost predicate EchoesOk(slots: seq<Option<Block>>, bufs: map<Block, Skb>) {
    && (forall i :: 0 <= i < |slots| && slots[i].Some? ==> slots[i].value in bufs && bufs[slots[i].value].isEcho)
    && (forall i, j :: 0 <= i < j < |slots| && slots[i].Some? && slots[j].Some? ==> slots[i].value != slots[j].value)
  }

  /** Nobody but the caller holds `b`. */
  ghost predicate HeldByCaller(slots: seq<Option<Block>>, bufs: map<Block, Skb>, b: Block) {
    b in bufs && forall i :: 0 <= i < |slots| ==> slots[i] != Some(b)
  }

  ghost function Occupied(slots: seq<Option<Block>>): set<int> {
    set i | 0 <= i < |slots| && slots[i].Some?
  }

  lemma DropHeld(slots: seq<Option<Block>>, bufs: map<Block, Skb>, b: Block)
    requires EchoesOk(slots, bufs) && HeldByCaller(slots, bufs, b)
    ensures EchoesOk(slots, bufs - {b})
  {
  }

  lemma FillSlot(slots: seq<Option<Block>>, bufs: map<Block, Skb>, b: Block, idx: nat)
    requires EchoesOk(slots, bufs) && HeldByCaller(slots, bufs, b) && idx < |slots| && slots[idx] == None
    ensures EchoesOk(slots[idx := Some(b)], bufs[b := bufs[b].(isEcho := true)])
  {
  }

  lemma ClearSlot(slots: seq<Option<Block>>, bufs: map<Block, Skb>, idx: nat)
    requires EchoesOk(slots, bufs) && idx < |slots| && slots[idx].Some?
    ensures EchoesOk(slots[idx := None], bufs - {slots[idx].value})
    ensures HeldByCaller(slots[idx := None], bufs, slots[idx].value)
    ensures EchoesOk(slots[idx := None], bufs)
    ensures |Occupied(slots[idx := None])| == |Occupied(slots)| - 1
  {
    assert Occupied(slots[idx := None]) == Occupied(slots) - {idx};
    assert idx in Occupied(slots);
  }

  /** The slots after the first `i` were flushed. */
  ghost function Flushed(slots: seq<Option<Block>>, i: nat): (r: seq<Option<Block>>)
    requires i <= |slots|
    ensures |r| == |slots|
  {
    seq(i, _ => None) + slots[i..]
  }

  lemma BlocksUpTo(slots: seq<Option<Block>>, n: nat)
    requires n <= |slots|
    ensures BlocksIn(slots, n) == if n == 0 then {} else BlocksIn(slots, n - 1) + SlotBlock(slots[n - 1])
  {
  }

  lemma FlushStep(slots: seq<Option<Block>>, i: nat)
    requires i < |slots|
    ensures Flushed(slots, i)[i] == slots[i]
    ensures Flushed(slots, i)[i := None] == Flushed(slots, i + 1)
    ensures slots[i] == None ==> Flushed(slots, i) == Flushed(slots, i + 1)
  {
  }

  lemma FlushEnds(slots: seq<Option<Block>>)
    ensures Flushed(slots, 0) == slots
    ensures forall k :: 0 <= k < |slots| ==> Flushed(slots, |slots|)[k] == None
    ensures Occupied(Flushed(slots, |slots|)) == {}
  {
  }

  lemma RemoveMore<K, V>(m: map<K, V>, a: set<K>, b: set<K>)
    ensures m - a - b == m - (a + b)
  {
  }

  /** Allocating a buffer, on values. */
  lemma AllocStep(free: seq<Block>, bufs: map<Block, Skb>, issued: nat, serial: map<Block, nat>, freed: seq<nat>,
                  skb: Skb)
    requires Partition(free, bufs) && Ledger(issued, serial, freed, bufs.Keys)
    requires 2 <= |free| && skb.head == free[1]
    ensures free[0] !in bufs && |bufs[free[0] := skb]| == |bufs| + 1
    ensures Partition(free[2..], bufs[free[0] := skb])
    ensures Ledger(issued + 1, serial[free[0] := issued], freed, bufs[free[0] := skb].Keys)
  {
    hide Partition, Ledger;
    TakeTwo(free, bufs, skb.isEcho, skb.canId);
    LedgerAlloc(issued, serial, freed, bufs.Keys, free[0]);
    assert bufs.Keys + {free[0]} == bufs[free[0] := skb].Keys;
  }

  /** Freeing a buffer, on values. */
  lemma FreeStep(free: seq<Block>, bufs: map<Block, Skb>, issued: nat, serial: map<Block, nat>, freed: seq<nat>,
                 b: Block)
    requires Partition(free, bufs) && b in bufs && Ledger(issued, serial, freed, bufs.Keys)
    ensures Partition([b] + ([bufs[b].head] + free), bufs - {b})
    ensures 1 <= |bufs| && |bufs - {b}| == |bufs| - 1
    ensures b in serial && Ledger(issued, serial - {b}, freed + [serial[b]], (bufs - {b}).Keys)
  {
    hide Partition, Ledger;
    GiveBack(free, bufs, b);
    RemoveOne(bufs, b);
    LedgerFree(issued, serial, freed, bufs.Keys, b);
    assert bufs.Keys - {b} == (bufs - {b}).Keys;
  }

  /** What the reception of a frame that is no error frame hands to the client sessions. */
  function Forwards(skb: Skb, echoWanted: bool): (ids: seq<U32>) {
    if IsRemote(skb.canId) || (!echoWanted && skb.isEcho) then [] else [skb.canId]
  }

  /** The buffers in use, and the echo slots, after the reception of error frame `b`. */
  ghost function AfterError(bufs: map<Block, Skb>, slots: seq<Option<Block>>, b: Block, state: CanState,
                            count: int, hasSetMode: bool): (r: map<Block, Skb>)
  {
    if Triggers(state, count) && hasSetMode then bufs - BlocksIn(slots, |slots|) - {b} else bufs - {b}
  }

  ghost function EchoesAfterError(slots: seq<Option<Block>>, state: CanState, count: int, hasSetMode: bool)
    : (r: seq<Option<Block>>)
  {
    if Triggers(state, count) && hasSetMode then Flushed(slots, |slots|) else slots
  }

  lemma AllFlushed(slots: seq<Option<Block>>)
    requires forall i :: 0 <= i < |slots| ==> slots[i] == None
    ensures forall other: seq<Option<Block>> :: |other| == |slots| ==> Flushed(other, |other|) == slots
  {
  }

  class NetDevice {
    const pool: BlockPool
    const echo: array<Option<Block>>
    /** `optR_error_count`, `optE`, whether `do_set_mode` is set, and the IFF_ECHO flag. */
    const errorCount: int
    const echoWanted: bool
    const hasSetMode: bool
    const ifEcho: bool

    var bufs: map<Block, Skb>
    var state: CanState
    var restartMs: int
    var carrierOk: bool
    var txDropped: nat
    var txAborted: nat
    var restarts: nat
    /** Identifiers of the frames handed to the client sessions. */
    var forwarded: seq<U32>

    /** How often `do_set_mode` was called, and succeeded. */
    ghost var starts: nat
    ghost var started: nat

    ghost var issued: nat
    ghost var serial: map<Block, nat>
    ghost var freed: seq<nat>

    /** No block is in two places and no buffer was freed twice, but blocks may have been lost. */
    ghost predicate Separate()
      reads this`bufs, this`issued, this`serial, this`freed, pool, pool.slots
    {
      && pool.Valid() && Partition(pool.FreeList(), bufs)
      && issued == |freed| + |bufs| && Ledger(issued, serial, freed, bufs.Keys)
    }

    /** And none was lost. */
    ghost predicate MemoryOk()
      reads this`bufs, this`issued, this`serial, this`freed, pool, pool.slots
    {
      Separate() && pool.index == 2 * |bufs|
    }

    ghost predicate Valid()
      reads this`bufs, this`issued, this`serial, this`freed, pool, pool.slots, echo
    {
      MemoryOk() && EchoesOk(echo[..], bufs)
    }

    ghost predicate Held(b: Block)
      reads this`bufs, echo
    {
      HeldByCaller(echo[..], bufs, b)
    }

    constructor (pool: BlockPool, slots: nat, errorCount: int, echoWanted: bool, hasSetMode: bool, ifEcho: bool)
      requires pool.Valid() && pool.index == 0 && NoRepeats(pool.FreeList())
      ensures Valid() && this.pool == pool && fresh(echo) && echo.Length == slots
      ensures bufs == map[] && issued == 0 && freed == []
      ensures this.errorCount == errorCount && this.hasSetMode == hasSetMode && this.ifEcho == ifEcho
    {
      this.pool := pool;
      this.errorCount, this.echoWanted, this.hasSetMode, this.ifEcho := errorCount, echoWanted, hasSetMode, ifEcho;
      echo := new Option<Block>[slots](_ => None);
      bufs, state, restartMs, carrierOk := map[], Stopped, 0, false;
      txDropped, txAborted, restarts, forwarded := 0, 0, 0, [];
      starts, started, issued, serial, freed := 0, 0, 0, map[], [];
    }

    // ----- buffers -----

    /** `alloc_can_skb`.  With exactly one free block it takes that block and loses it.  An intact pool
        never gets there: it has an even number of blocks and buffers take two. */
    method AllocCanSkb(canId: U32) returns (skb: Option<Block>)
      requires Separate()
      modifies this`bufs, this`issued, this`serial, pool`index
      ensures Separate() && (old(MemoryOk()) ==> MemoryOk())
      ensures skb.Some? <==> 2 <= |old(pool.FreeList())|
      ensures skb.None? ==> bufs == old(bufs) && issued == old(issued) && pool.FreeList() == []
      ensures skb.None? ==> pool.index == old(pool.index) + |old(pool.FreeList())|
      ensures skb.Some? ==>
        var free := old(pool.FreeList());
        && skb.value == free[0] && free[0] !in old(bufs) && pool.FreeList() == free[2..]
        && bufs == old(bufs)[free[0] := Skb(free[1], false, canId)]
        && issued == old(issued) + 1 && pool.index == old(pool.index) + 2
      ensures old(MemoryOk()) && skb.None? ==> pool.index == old(pool.index) == FIXED_MAX_NUM_BLOCKS
    {
      hide Partition, Ledger;
      ghost var free := pool.FreeList();
      var first := pool.Malloc();
      if first == None {
        return None;
      }
      var second := pool.Malloc();
      if second == None {
        ShortenFree(free, bufs);
        return None;
      }
      AllocStep(free, bufs, issued, serial, freed, Skb(second.value, false, canId));
      assert free[1..][1..] == free[2..];
      serial := serial[first.value := issued];
      issued := issued + 1;
      bufs := bufs[first.value := Skb(second.value, false, canId)];
      skb := first;
    }

    /** `alloc_can_err_skb`, on an intact pool: an error frame, unless no block is left. */
    method AllocCanErrSkb(flags: U32) returns (skb: Option<Block>)
      requires MemoryOk()
      modifies this`bufs, this`issued, this`serial, pool`index
      ensures MemoryOk()
      ensures skb.None? <==> old(pool.index) == FIXED_MAX_NUM_BLOCKS
      ensures skb.None? ==> bufs == old(bufs) && issued == old(issued) && pool.index == old(pool.index)
      ensures skb.Some? ==>
        && skb.value !in old(bufs) && skb.value in bufs
        && bufs == old(bufs)[skb.value := bufs[skb.value]]
        && !bufs[skb.value].isEcho && bufs[skb.value].canId == Wrap32(CAN_ERR_FLAG + flags)
        && issued == old(issued) + 1 && pool.index == old(pool.index) + 2
    {
      hide Partition, Ledger;
      skb := AllocCanSkb(Wrap32(CAN_ERR_FLAG + flags));
    }

    /** The two calls of `kfree_skb`: the block of the data, then the block of the buffer. */
    method FreeBlocks(b: Block, head: Block)
      requires pool.Valid()
      modifies pool`index, pool.slots
      ensures pool.index == old(pool.index) - 2
      ensures 2 <= old(pool.index) ==> pool.Valid() && pool.FreeList() == [b] + ([head] + old(pool.FreeList()))
    {
      pool.Free(head);
      pool.Free(b);
    }

    /** `kfree_skb` of a buffer in use. */
    method KfreeSkb(b: Block)
      requires MemoryOk() && b in bufs
      modifies this`bufs, this`serial, this`freed, pool`index, pool.slots
      ensures MemoryOk() && bufs == old(bufs) - {b}
      ensures b in old(serial) && freed == old(freed) + [old(serial)[b]]
      ensures pool.index == old(pool.index) - 2
      ensures Released(b, old(bufs)[b].head)
    {
      hide Partition, Ledger, NoRepeats;
      FreeStep(pool.FreeList(), bufs, issued, serial, freed, b);
      FreeBlocks(b, bufs[b].head);
      freed := freed + [serial[b]];
      serial := serial - {b};
      bufs := bufs - {b};
    }

    /** `kfree_skb` of a buffer that is not in use any more; its block still holds the address `head`. */
    method KfreeAgain(b: Block, head: Block)
      requires MemoryOk()
      modifies pool`index, pool.slots
      ensures pool.index == old(pool.index) - 2
      ensures bufs != map[] ==> pool.Valid() && pool.FreeList() == [b] + ([head] + old(pool.FreeList()))
    {
      assert bufs != map[] ==> 1 <= |bufs|;
      FreeBlocks(b, head);
    }

    // ----- local echo -----

    ghost function EchoBlocks(): set<Block>
      reads echo
    {
      BlocksIn(echo[..], echo.Length)
    }

    /** Free blocks, counting the buffers that a flush of the echo slots would give back. */
    ghost function Room(): int
      reads pool, echo
    {
      FIXED_MAX_NUM_BLOCKS - pool.index + 2 * |Occupied(echo[..])|
    }

    /** `can_put_echo_skb`: the buffer ends up in the slot, or is freed. */
    method PutEchoSkb(b: Block, idx: nat) returns (ret: int)
      requires Valid() && Held(b) && b in bufs
      modifies this`bufs, this`serial, this`freed, pool`index, pool.slots, echo
      ensures Valid()
      ensures ret ==
        if idx >= echo.Length then -EINVAL
        else if ifEcho && old(idx < echo.Length && echo[idx].Some?) then -EBUSY else 0
      ensures ret == 0 && ifEcho ==>
        && bufs == old(bufs)[b := old(bufs)[b].(isEcho := true)]
        && echo[..] == old(echo[..])[idx := Some(b)] && freed == old(freed)
      ensures ret != 0 || !ifEcho ==> bufs == old(bufs) - {b} && echo[..] == old(echo[..])
      ensures old(freed) <= freed
    {
      hide Partition, Ledger, EchoesOk, HeldByCaller;
      DropHeld(echo[..], bufs, b);
      if idx >= echo.Length {
        KfreeSkb(b);
        return -EINVAL;
      }
      if !ifEcho {
        KfreeSkb(b);
        return 0;
      }
      if echo[idx] == None {
        FillSlot(echo[..], bufs, b, idx);
        MarkEcho(b);
        echo[idx] := Some(b);
        ret := 0;
      } else {
        KfreeSkb(b);
        return -EBUSY;
      }
    }

    /** `can_create_echo_skb`. */
    method MarkEcho(b: Block)
      requires MemoryOk() && b in bufs
      modifies this`bufs
      ensures MemoryOk() && bufs == old(bufs)[b := old(bufs)[b].(isEcho := true)]
    {
      hide Partition, Ledger;
      Relabel(pool.FreeList(), bufs, b, bufs[b].(isEcho := true));
      assert bufs[b := bufs[b].(isEcho := true)].Keys == bufs.Keys;
      bufs := bufs[b := bufs[b].(isEcho := true)];
    }

    /** `can_free_echo_skb`. */
    method FreeEchoSkb(idx: nat)
      requires Valid()
      modifies this`bufs, this`serial, this`freed, pool`index, pool.slots, echo
      ensures Valid()
      ensures old(idx < echo.Length && echo[idx].Some?) ==>
        && bufs == old(bufs) - {old(echo[idx]).value}
        && echo[..] == old(echo[..])[idx := None] && Room() == old(Room())
        && |Occupied(echo[..])| == |old(Occupied(echo[..]))| - 1
      ensures !old(idx < echo.Length && echo[idx].Some?) ==> bufs == old(bufs) && echo[..] == old(echo[..])
      ensures old(freed) <= freed
    {
      hide Partition, Ledger, EchoesOk, HeldByCaller, Occupied;
      if idx >= echo.Length {
        return;
      }
      if echo[idx].Some? {
        ClearSlot(echo[..], bufs, idx);
        SlotInUse(idx);
        KfreeSkb(echo[idx].value);
        echo[idx] := None;
        assert echo[..] == old(echo[..])[idx := None];
      }
    }

    lemma SlotInUse(idx: nat)
      requires Valid() && idx < echo.Length && echo[idx].Some?
      ensures echo[idx].value in bufs && bufs[echo[idx].value].isEcho
    {
    }

    /** `can_flush_echo_skb`. */
    method FlushEchoSkb()
      requires Valid()
      modifies this`bufs, this`serial, this`freed, this`txDropped, this`txAborted, pool`index, pool.slots, echo
      ensures Valid() && Room() == old(Room())
      ensures forall i :: 0 <= i < echo.Length ==> echo[i] == None
      ensures bufs == old(bufs) - old(EchoBlocks())
      ensures txDropped - old(txDropped) == txAborted - old(txAborted) == |old(Occupied(echo[..]))|
      ensures old(freed) <= freed
    {
      hide Partition, Ledger, EchoesOk, HeldByCaller, Occupied, Flushed, NetDevice.MemoryOk, BlocksIn;
      ghost var slots := echo[..];
      FlushEnds(slots);
      BlocksUpTo(slots, 0);
      for i := 0 to echo.Length
        invariant Valid() && Room() == old(Room())
        invariant echo[..] == Flushed(slots, i)
        invariant bufs == old(bufs) - BlocksIn(slots, i)
        invariant txDropped - old(txDropped) == txAborted - old(txAborted) && old(freed) <= freed
        invariant txDropped - old(txDropped) + |Occupied(echo[..])| == |Occupied(slots)|
      {
        FlushStep(slots, i);
        BlocksUpTo(slots, i + 1);
        RemoveMore(old(bufs), BlocksIn(slots, i), SlotBlock(slots[i]));
        FlushSlot(i, slots[i]);
      }
      assert forall k :: 0 <= k < echo.Length ==> echo[k] == echo[..][k];
    }

    /** One round of the flush. */
    method FlushSlot(i: nat, ghost slot: Option<Block>)
      requires Valid() && i < echo.Length && slot == echo[..][i]
      modifies this`bufs, this`serial, this`freed, this`txDropped, this`txAborted, pool`index, pool.slots, echo
      ensures Valid() && Room() == old(Room()) && echo[..] == old(echo[..])[i := None]
      ensures bufs == old(bufs) - SlotBlock(slot)
      ensures txDropped - old(txDropped) == txAborted - old(txAborted)
      ensures txDropped - old(txDropped) + |Occupied(echo[..])| == |old(Occupied(echo[..]))|
      ensures old(freed) <= freed
    {
      hide Partition, Ledger, EchoesOk, HeldByCaller, Occupied, NetDevice.MemoryOk;
      assert old(echo[..])[i] == echo[i];
      if echo[i].Some? {
        FreeEchoSkb(i);
        txDropped := txDropped + 1;
        txAborted := txAborted + 1;
      } else {
        assert echo[..] == old(echo[..])[i := None];
      }
    }

    // ----- reception and recovery -----

    /** The driver's `do_set_mode(CAN_MODE_START)`: any callback that leaves the buffers and the restart
        delay alone. */
    method SetModeStart() returns (err: int)
      modifies this`state, this`starts, this`started
      ensures starts == old(starts) + 1
      ensures started == old(started) + if err == 0 then 1 else 0
    {
      state := *;
      err := *;
      starts := starts + 1;
      started := if err == 0 then started + 1 else started;
    }

    /** `netif_rx`.  `depth` counts the error frames received below this one. */
    method NetifRx(b: Block) returns (ghost depth: nat)
      requires Valid() && Held(b) && b in bufs
      modifies this, pool, pool.slots, echo
      ensures Valid() && restartMs == old(restartMs) && old(Room()) >= 0
      ensures issued == old(issued) + depth && old(freed) <= freed
      ensures !IsError(old(bufs)[b].canId) ==>
        && depth == 0 && state == old(state) && echo[..] == old(echo[..])
        && bufs == (if old(bufs)[b].isEcho then old(bufs) else old(bufs) - {b})
        && starts == old(starts) && txDropped == old(txDropped) && txAborted == old(txAborted)
        && forwarded == old(forwarded) + Forwards(old(bufs)[b], echoWanted)
      ensures IsError(old(bufs)[b].canId) ==>
        && depth == RxDepth(old(Room()), old(state), errorCount, hasSetMode)
        && starts == old(starts) + (if hasSetMode then RxStarts(old(Room()), old(state), errorCount) else 0)
        && forwarded == old(forwarded) && Released(b, old(bufs)[b].head) && b !in bufs
        && bufs == AfterError(old(bufs), old(echo[..]), b, old(state), errorCount, hasSetMode)
        && echo[..] == EchoesAfterError(old(echo[..]), old(state), errorCount, hasSetMode)
      ensures restarts - old(restarts) == started - old(started)
      ensures txDropped - old(txDropped) == txAborted - old(txAborted) ==
        if IsError(old(bufs)[b].canId) && old(Triggers(state, errorCount)) && hasSetMode
        then |old(Occupied(echo[..]))| else 0
      ensures IsError(old(bufs)[b].canId) && hasSetMode ==>
        (old(starts) < starts <==> Due(old(state), errorCount))
      ensures !IsError(old(bufs)[b].canId) ==>
        if !IsRemote(old(bufs)[b].canId) && (echoWanted || !old(bufs)[b].isEcho)
        then forwarded == old(forwarded) + [old(bufs)[b].canId] else forwarded == old(forwarded)
      ensures IsError(old(bufs)[b].canId) && !old(Triggers(state, errorCount)) ==> state == old(state)
      ensures IsError(old(bufs)[b].canId) && old(Triggers(state, errorCount)) && !hasSetMode ==> state == BusOff
      decreases Room(), 2
    {
      hide Partition, Ledger, EchoesOk, HeldByCaller, Occupied, AfterError, EchoesAfterError, NetDevice.MemoryOk,
           NetDevice.Released, RxDepth, RxStarts, Due;
      RoomIsNatural();
      DropHeld(echo[..], bufs, b);
      var skb := bufs[b];
      depth := 0;
      if IsError(skb.canId) {
        StartsWhenDue(Room(), state, errorCount);
        depth := RxError(b);
        return;
      }
      if IsRemote(skb.canId) {
        if !skb.isEcho {
          KfreeSkb(b);
        }
        return;
      }
      if !echoWanted && skb.isEcho {
        return;
      }
      forwarded := forwarded + [skb.canId];
      if !skb.isEcho {
        KfreeSkb(b);
      }
    }

    /** Lines 163 to 229 of netif.c: the recovery that an error frame may set off, and its release. */
    method RxError(b: Block) returns (ghost depth: nat)
      requires Valid() && Held(b) && b in bufs
      modifies this, pool, pool.slots, echo
      ensures Valid() && restartMs == old(restartMs) && old(Room()) >= 0
      ensures issued == old(issued) + depth && old(freed) <= freed
      ensures depth == RxDepth(old(Room()), old(state), errorCount, hasSetMode)
      ensures starts == old(starts) + (if hasSetMode then RxStarts(old(Room()), old(state), errorCount) else 0)
      ensures forwarded == old(forwarded) && Released(b, old(bufs)[b].head) && b !in bufs
      ensures bufs == AfterError(old(bufs), old(echo[..]), b, old(state), errorCount, hasSetMode)
      ensures echo[..] == EchoesAfterError(old(echo[..]), old(state), errorCount, hasSetMode)
      ensures restarts - old(restarts) == started - old(started)
      ensures txDropped - old(txDropped) == txAborted - old(txAborted) ==
        if old(Triggers(state, errorCount)) && hasSetMode then |old(Occupied(echo[..]))| else 0
      ensures !old(Triggers(state, errorCount)) ==> state == old(state)
      ensures old(Triggers(state, errorCount)) && !hasSetMode ==> state == BusOff
      decreases Room(), 2, 1
    {
      hide Partition, Ledger, EchoesOk, HeldByCaller, Occupied, NetDevice.MemoryOk;
      RoomIsNatural();
      DropHeld(echo[..], bufs, b);
      StaysHeld(echo[..], bufs, b);
      depth := 0;
      if Triggers(state, errorCount) {
        depth := Recover(b);
        if hasSetMode {
          assert forall i :: 0 <= i < echo.Length ==> echo[..][i] == echo[i];
          AllFlushed(echo[..]);
        }
      }
      assert bufs[b] == old(bufs)[b];
      KfreeSkb(b);
    }

    /** The two blocks of a buffer freed last are on top of the free stack. */
    ghost predicate Released(b: Block, head: Block)
      reads pool, pool.slots
    {
      pool.Valid() && [b, head] <= pool.FreeList()
    }

    /** A restart counts itself when it succeeds, and counts every flushed echo as dropped. */
    ghost predicate Counted(restarts0: nat, started0: nat, dropped0: nat, aborted0: nat, occupied: set<int>)
      reads this
    {
      && restarts - restarts0 == started - started0
      && txDropped - dropped0 == txAborted - aborted0 == if hasSetMode then |occupied| else 0
    }

    /** Lines 208 to 224 of netif.c: a forced restart, with automatic restart switched off meanwhile. */
    method Recover(ghost b: Block) returns (ghost depth: nat)
      requires Valid() && Held(b) && b in bufs
      modifies this, pool, pool.slots, echo
      ensures MemoryOk() && restartMs == old(restartMs) && old(Room()) >= 0
      ensures b in bufs && EchoesOk(echo[..], bufs - {b})
      ensures depth == RestartDepth(old(Room()), BusOff, errorCount, hasSetMode)
      ensures hasSetMode ==>
        && bufs == old(bufs) - old(EchoBlocks())
        && forall i :: 0 <= i < echo.Length ==> echo[i] == None
      ensures !hasSetMode ==> bufs == old(bufs) && echo[..] == old(echo[..]) && state == BusOff
      ensures Counted(old(restarts), old(started), old(txDropped), old(txAborted), old(Occupied(echo[..])))
      ensures starts == old(starts) + (if hasSetMode then RestartStarts(old(Room()), BusOff, errorCount) else 0)
      ensures forwarded == old(forwarded)
      ensures issued == old(issued) + depth && old(freed) <= freed
      decreases Room(), 2, 0
    {
      hide Partition, Ledger, EchoesOk, HeldByCaller, Occupied, NetDevice.MemoryOk,
           RestartDepth, RestartStarts, BlocksIn;
      DropHeld(echo[..], bufs, b);
      StaysHeld(echo[..], bufs, b);
      var backup := restartMs;
      restartMs := 0;
      state := BusOff;
      var err;
      err, depth := CanRestartNow();
      restartMs := backup;
      NoEchoes(echo[..], bufs - {b});
    }

    /** `can_restart_now`. */
    method CanRestartNow() returns (err: int, ghost depth: nat)
      requires Valid()
      modifies this, pool, pool.slots, echo
      ensures Valid() && restartMs == old(restartMs) && old(Room()) >= 0
      ensures old(restartMs) != 0 ==> err == -EINVAL
      ensures old(restartMs) == 0 && old(state) != BusOff ==> err == -EBUSY
      ensures old(restartMs) == 0 && old(state) == BusOff ==>
        depth == RestartDepth(old(Room()), BusOff, errorCount, hasSetMode)
      ensures old(restartMs) == 0 && old(state) == BusOff && hasSetMode ==>
        && bufs == old(bufs) - old(EchoBlocks())
        && forall i :: 0 <= i < echo.Length ==> echo[i] == None
      ensures old(restartMs) != 0 || old(state) != BusOff || !hasSetMode ==>
        bufs == old(bufs) && echo[..] == old(echo[..]) && state == old(state)
      ensures old(restartMs) == 0 && old(state) == BusOff ==>
        && Counted(old(restarts), old(started), old(txDropped), old(txAborted), old(Occupied(echo[..])))
        && starts == old(starts) + (if hasSetMode then RestartStarts(old(Room()), BusOff, errorCount) else 0)
      ensures old(restartMs) == 0 && old(state) == BusOff ==>
        if hasSetMode then carrierOk == (err == 0) else err == -EOPNOTSUPP
      ensures forwarded == old(forwarded)
      ensures issued == old(issued) + depth && old(freed) <= freed
      decreases Room(), 1
    {
      RoomIsNatural();
      depth := 0;
      if restartMs != 0 { return -EINVAL, 0; }
      if state != BusOff { return -EBUSY, 0; }
      err, depth := CanRestart();
    }

    /** `can_restart`: flush, report the restart with an error frame, start the controller. */
    method CanRestart() returns (err: int, ghost depth: nat)
      requires Valid()
      modifies this, pool, pool.slots, echo
      ensures Valid() && restartMs == old(restartMs) && old(Room()) >= 0
      ensures depth == RestartDepth(old(Room()), old(state), errorCount, hasSetMode)
      ensures !hasSetMode ==>
        err == -EOPNOTSUPP && bufs == old(bufs) && echo[..] == old(echo[..]) && state == old(state)
      ensures hasSetMode ==>
        && bufs == old(bufs) - old(EchoBlocks())
        && forall i :: 0 <= i < echo.Length ==> echo[i] == None
      ensures hasSetMode ==> carrierOk == (err == 0)
      ensures Counted(old(restarts), old(started), old(txDropped), old(txAborted), old(Occupied(echo[..])))
      ensures starts == old(starts) + (if hasSetMode then RestartStarts(old(Room()), old(state), errorCount) else 0)
      ensures forwarded == old(forwarded)
      ensures issued == old(issued) + depth && old(freed) <= freed
      decreases Room(), 0
    {
      hide Partition, Ledger, EchoesOk, HeldByCaller, Occupied, RxDepth, NetDevice.MemoryOk;
      RoomIsNatural();
      depth := 0;
      if !hasSetMode { return -EOPNOTSUPP, 0; }
      FlushEchoSkb();
      depth := ReportRestart();
      carrierOk := true;
      err := SetModeStart();
      if err != 0 {
        carrierOk := false;
      } else {
        restarts := restarts + 1;
      }
    }

    /** Lines 211 to 216 of dev.c. */
    method ReportRestart() returns (ghost depth: nat)
      requires Valid() && hasSetMode && forall i :: 0 <= i < echo.Length ==> echo[i] == None
      modifies this, pool, pool.slots, echo
      ensures Valid() && restartMs == old(restartMs) && old(Room()) >= 0
      ensures depth == RestartDepth(old(Room()), old(state), errorCount, hasSetMode)
      ensures bufs == old(bufs) && forall i :: 0 <= i < echo.Length ==> echo[i] == None
      ensures restarts - old(restarts) == started - old(started) && forwarded == old(forwarded)
      ensures txDropped == old(txDropped) && txAborted == old(txAborted)
      ensures starts == old(starts) + RestartStarts(old(Room()), old(state), errorCount) - 1
      ensures issued == old(issued) + depth && old(freed) <= freed
      decreases Room(), 0, 0
    {
      hide Partition, Ledger, EchoesOk, HeldByCaller, Occupied, BlocksIn, RxDepth, Triggers, NetDevice.MemoryOk;
      RoomIsNatural();
      ghost var room := Room();
      NoEchoes(echo[..], bufs);
      depth := 0;
      ghost var before := bufs;
      var skb := AllocCanErrSkb(CAN_ERR_RESTARTED);
      if skb.Some? {
        NoEchoes(echo[..], bufs);
        NoneHeld(echo[..], bufs, skb.value);
        AddThenRemove(before, skb.value, bufs[skb.value]);
        assert Room() == room - 2;
        depth := NetifRx(skb.value);
        depth := depth + 1;
        assert bufs == before;
      }
    }

    /** `can_get_echo_skb`: the looped-back frame is received and freed.  If it is an error frame,
        `netif_rx` has freed it already: the pool stays intact exactly if it is not.  Otherwise the index
        is two short, and the two blocks are on the free stack twice, or, if no other buffer is in use, in
        front of the array. */
    method GetEchoSkb(idx: nat) returns (got: bool, ghost depth: nat)
      requires Valid()
      modifies this, pool, pool.slots, echo
      ensures restartMs == old(restartMs) && old(freed) <= freed && old(Room()) >= 0
      ensures got <==> old(idx < echo.Length && echo[idx].Some?)
      ensures got ==> old(echo[idx]).value in old(bufs)
      ensures got && !IsError(old(bufs)[old(echo[idx]).value].canId) ==>
        && Valid() && issued == old(issued) && state == old(state)
        && bufs == old(bufs) - {old(echo[idx]).value} && echo[..] == old(echo[..])[idx := None]
        && forwarded == old(forwarded) + Forwards(old(bufs)[old(echo[idx]).value], echoWanted)
      ensures got && IsError(old(bufs)[old(echo[idx]).value].canId) ==>
        && !MemoryOk() && pool.index == 2 * |bufs| - 2
        && bufs == AfterError(old(bufs), old(echo[..])[idx := None], old(echo[idx]).value, old(state),
                              errorCount, hasSetMode)
        && issued == old(issued) + depth && forwarded == old(forwarded)
        && (bufs == map[] ==> pool.index == -2)
        && (bufs != map[] ==> FreedTwice(old(echo[idx]).value, old(bufs)[old(echo[idx]).value].head))
      ensures !got ==>
        Valid() && bufs == old(bufs) && echo[..] == old(echo[..]) && issued == old(issued)
        && state == old(state) && forwarded == old(forwarded)
    {
      hide Partition, Ledger, EchoesOk, HeldByCaller, Occupied, BlocksIn, RxDepth, AfterError, EchoesAfterError,
           NetDevice.MemoryOk, NetDevice.Released;
      RoomIsNatural();
      got, depth := false, 0;
      if idx >= echo.Length {
        return;
      }
      if echo[idx].Some? {
        ClearSlot(echo[..], bufs, idx);
        SlotInUse(idx);
        var b := echo[idx].value;
        var skb := bufs[b];
        echo[idx] := None;
        assert echo[..] == old(echo[..])[idx := None];
        depth := NetifRx(b);
        ConsumeSkb(b, skb);
        got := true;
      }
    }

    /** The second half of `can_get_echo_skb`: `b` was received and is freed, once more if it was an error
        frame. */
    method ConsumeSkb(b: Block, skb: Skb)
      requires Valid() && (!IsError(skb.canId) ==> Held(b) && b in bufs)
      requires IsError(skb.canId) ==> b !in bufs && Released(b, skb.head)
      modifies this`bufs, this`serial, this`freed, pool`index, pool.slots
      ensures old(freed) <= freed
      ensures !IsError(skb.canId) ==> Valid() && bufs == old(bufs) - {b}
      ensures IsError(skb.canId) ==> !MemoryOk() && bufs == old(bufs) && pool.index == 2 * |bufs| - 2
      ensures IsError(skb.canId) && bufs != map[] ==> FreedTwice(b, skb.head)
    {
      hide Partition, Ledger, EchoesOk, HeldByCaller;
      if b in bufs {
        DropHeld(echo[..], bufs, b);
        KfreeSkb(b);
      } else {
        KfreeAgain(b, skb.head);
      }
    }

    /** The next two allocations are handed the same two blocks. */
    ghost predicate FreedTwice(b: Block, head: Block)
      reads pool, pool.slots
    {
      pool.Valid() && [b, head, b, head] <= pool.FreeList()
    }

    ghost function Snap(): Snapshot
      reads this, pool, pool.slots, echo
      requires Valid()
    {
      Snapshot(bufs, echo[..], pool.FreeList(), issued, serial, freed, state, forwarded)
    }

    lemma ValidIsSound()
      requires Valid()
      ensures Sound(Snap())
    {
      hide Partition, Ledger, EchoesOk;
    }

    lemma RoomIsNatural()
      requires MemoryOk()
      ensures 0 <= Room() && Room() % 2 == 0
    {
      hide Partition, Ledger, Occupied;
      assert Room() == 2 * (128 - |bufs| + |Occupied(echo[..])|);
    }
  }

  // ----- runs -----

  /** What can happen to the buffers of a device. */
  datatype Op =
    | Allocate(canId: U32)
    | Receive(b: Block)
    | PutEcho(b: Block, idx: nat)
    | GetEcho(idx: nat)
    | FreeEcho(idx: nat)
    | Flush

  /** All that a device owns at one moment. */
  datatype Snapshot = Snapshot(
    bufs: map<Block, Skb>, slots: seq<Option<Block>>, free: seq<Block>, issued: nat, serial: map<Block, nat>,
    freed: seq<nat>, state: CanState, forwarded: seq<U32>)

  /** Each buffer ever allocated is either in use or was freed exactly once, the blocks of all buffers in
      use are different from each other and from the free ones, and none is lost. */
  ghost predicate Sound(s: Snapshot) {
    && Partition(s.free, s.bufs) && |s.free| == FIXED_MAX_NUM_BLOCKS - 2 * |s.bufs|
    && s.issued == |s.freed| + |s.bufs| && Ledger(s.issued, s.serial, s.freed, s.bufs.Keys)
    && EchoesOk(s.slots, s.bufs)
  }

  /** The operation is the reception of a looped-back error frame. */
  predicate LoopsErrorBack(op: Op, s: Snapshot) {
    && op.GetEcho? && op.idx < |s.slots| && s.slots[op.idx].Some?
    && s.slots[op.idx].value in s.bufs && IsError(s.bufs[s.slots[op.idx].value].canId)
  }

  /** Nothing is received or restarted, and no buffer is allocated. */
  predicate Quiet(s: Snapshot, t: Snapshot) {
    t.issued == s.issued && t.state == s.state && t.forwarded == s.forwarded
  }

  /** What one operation does.  Operations on a buffer that the caller does not hold do nothing. */
  ghost predicate Effect(op: Op, count: int, echoWanted: bool, hasSetMode: bool, ifEcho: bool,
                         s: Snapshot, t: Snapshot)
  {
    && s.freed <= t.freed
    && match op
       case Allocate(canId) =>
         && t.slots == s.slots && t.freed == s.freed && t.state == s.state && t.forwarded == s.forwarded
         && (|s.free| < 2 ==> t.bufs == s.bufs && t.issued == s.issued)
         && (2 <= |s.free| ==>
               && t.bufs == s.bufs[s.free[0] := Skb(s.free[1], false, canId)]
               && t.free == s.free[2..] && t.issued == s.issued + 1)
       case Receive(b) =>
         if !HeldByCaller(s.slots, s.bufs, b) then t == s
         else if IsError(s.bufs[b].canId) then
           && t.bufs == AfterError(s.bufs, s.slots, b, s.state, count, hasSetMode)
           && t.slots == EchoesAfterError(s.slots, s.state, count, hasSetMode)
           && t.issued == s.issued + RxDepth(|s.free| + 2 * |Occupied(s.slots)|, s.state, count, hasSetMode)
           && t.forwarded == s.forwarded
         else
           && t.bufs == (if s.bufs[b].isEcho then s.bufs else s.bufs - {b})
           && t.slots == s.slots && t.issued == s.issued && t.state == s.state
           && t.forwarded == s.forwarded + Forwards(s.bufs[b], echoWanted)
       case PutEcho(b, idx) =>
         if !HeldByCaller(s.slots, s.bufs, b) then t == s
         else if idx < |s.slots| && ifEcho && s.slots[idx] == None then
           && t.bufs == s.bufs[b := s.bufs[b].(isEcho := true)] && t.slots == s.slots[idx := Some(b)]
           && t.freed == s.freed && Quiet(s, t)
         else
           t.bufs == s.bufs - {b} && t.slots == s.slots && Quiet(s, t)
       case GetEcho(idx) =>
         if idx < |s.slots| && s.slots[idx].Some? && s.slots[idx].value in s.bufs then
           && t.bufs == s.bufs - {s.slots[idx].value} && t.slots == s.slots[idx := None]
           && t.issued == s.issued && t.state == s.state
           && t.forwarded == s.forwarded + Forwards(s.bufs[s.slots[idx].value], echoWanted)
         else
           t.bufs == s.bufs && t.slots == s.slots && Quiet(s, t)
       case FreeEcho(idx) =>
         && Quiet(s, t)
         && if idx < |s.slots| && s.slots[idx].Some? then
              t.bufs == s.bufs - {s.slots[idx].value} && t.slots == s.slots[idx := None]
            else
              t.bufs == s.bufs && t.slots == s.slots
       case Flush =>
         t.bufs == s.bufs - BlocksIn(s.slots, |s.slots|) && t.slots == Flushed(s.slots, |s.slots|) && Quiet(s, t)
  }

  ghost predicate Follows(dev: NetDevice, op: Op, s: Snapshot, t: Snapshot) {
    Effect(op, dev.errorCount, dev.echoWanted, dev.hasSetMode, dev.ifEcho, s, t)
  }

  /** Over any sequence of operations, up to the first that loops an error frame back: every step has its
      effect, and every state on the way is sound. */
  method RunAny(dev: NetDevice, ops: seq<Op>) returns (ghost trace: seq<Snapshot>)
    requires dev.Valid()
    modifies dev, dev.pool, dev.pool.slots, dev.echo
    ensures dev.Valid() && dev.restartMs == old(dev.restartMs)
    ensures 1 <= |trace| <= |ops| + 1 && trace[0] == old(dev.Snap()) && trace[|trace| - 1] == dev.Snap()
    ensures forall i :: 0 <= i < |trace| - 1 ==> Follows(dev, ops[i], trace[i], trace[i + 1])
    ensures forall i :: 0 <= i < |trace| ==> Sound(trace[i])
    ensures |trace| <= |ops| ==> LoopsErrorBack(ops[|trace| - 1], trace[|trace| - 1])
  {
    hide Follows, Sound, LoopsErrorBack, NetDevice.Valid, NetDevice.Snap;
    dev.ValidIsSound();
    trace := [dev.Snap()];
    for i := 0 to |ops|
      invariant dev.Valid() && dev.restartMs == old(dev.restartMs)
      invariant |trace| == i + 1 && trace[0] == old(dev.Snap()) && trace[i] == dev.Snap()
      invariant forall k :: 0 <= k < i ==> Follows(dev, ops[k], trace[k], trace[k + 1])
      invariant forall k :: 0 <= k <= i ==> Sound(trace[k])
    {
      var stop := RunOne(dev, ops[i]);
      if stop {
        return;
      }
      dev.ValidIsSound();
      trace := trace + [dev.Snap()];
    }
  }

  /** One operation, unless it loops an error frame back. */
  method RunOne(dev: NetDevice, op: Op) returns (stop: bool)
    requires dev.Valid()
    modifies dev, dev.pool, dev.pool.slots, dev.echo
    ensures dev.Valid() && dev.restartMs == old(dev.restartMs)
    ensures stop <==> LoopsErrorBack(op, old(dev.Snap()))
    ensures stop ==> dev.Snap() == old(dev.Snap())
    ensures !stop ==> Follows(dev, op, old(dev.Snap()), dev.Snap())
  {
    hide Follows, NetDevice.Valid, NetDevice.Snap;
    stop := false;
    match op
    case Allocate(canId) => RunAllocate(dev, canId);
    case Receive(b) => RunReceive(dev, b);
    case PutEcho(b, idx) => RunPutEcho(dev, b, idx);
    case GetEcho(idx) => stop := RunGetEcho(dev, idx);
    case FreeEcho(idx) => RunFreeEcho(dev, idx);
    case Flush => RunFlush(dev);
  }

  method RunAllocate(dev: NetDevice, canId: U32)
    requires dev.Valid()
    modifies dev, dev.pool, dev.pool.slots, dev.echo
    ensures dev.Valid() && dev.restartMs == old(dev.restartMs)
    ensures Follows(dev, Allocate(canId), old(dev.Snap()), dev.Snap())
  {
    hide Partition, Ledger, EchoesOk, Occupied, BlocksIn, RxDepth, AfterError, EchoesAfterError, NetDevice.Separate;
    ghost var before := dev.bufs;
    var skb := dev.AllocCanSkb(canId);
    if skb.Some? {
      GrowKeepsEchoes(dev.echo[..], before, skb.value, dev.bufs[skb.value]);
    }
  }

  method RunReceive(dev: NetDevice, b: Block)
    requires dev.Valid()
    modifies dev, dev.pool, dev.pool.slots, dev.echo
    ensures dev.Valid() && dev.restartMs == old(dev.restartMs)
    ensures Follows(dev, Receive(b), old(dev.Snap()), dev.Snap())
  {
    hide Partition, Ledger, EchoesOk, Occupied, BlocksIn, RxDepth, AfterError, EchoesAfterError;
    var held := Holds(dev, b);
    if held {
      var depth := dev.NetifRx(b);
    }
  }

  method RunPutEcho(dev: NetDevice, b: Block, idx: nat)
    requires dev.Valid()
    modifies dev, dev.pool, dev.pool.slots, dev.echo
    ensures dev.Valid() && dev.restartMs == old(dev.restartMs)
    ensures Follows(dev, PutEcho(b, idx), old(dev.Snap()), dev.Snap())
  {
    hide Partition, Ledger, EchoesOk, Occupied, BlocksIn, RxDepth, AfterError, EchoesAfterError, NetDevice.Separate;
    var held := Holds(dev, b);
    if held {
      var ret := dev.PutEchoSkb(b, idx);
    }
  }

  method RunGetEcho(dev: NetDevice, idx: nat) returns (stop: bool)
    requires dev.Valid()
    modifies dev, dev.pool, dev.pool.slots, dev.echo
    ensures dev.Valid() && dev.restartMs == old(dev.restartMs)
    ensures stop <==> LoopsErrorBack(GetEcho(idx), old(dev.Snap()))
    ensures stop ==> dev.Snap() == old(dev.Snap())
    ensures !stop ==> Follows(dev, GetEcho(idx), old(dev.Snap()), dev.Snap())
  {
    hide Partition, Ledger, EchoesOk, Occupied, BlocksIn, RxDepth, AfterError, EchoesAfterError, NetDevice.Separate;
    stop := false;
    if idx < dev.echo.Length && dev.echo[idx].Some? {
      dev.SlotInUse(idx);
      stop := IsError(dev.bufs[dev.echo[idx].value].canId);
    }
    if !stop {
      var got, depth := dev.GetEchoSkb(idx);
    }
  }

  method RunFreeEcho(dev: NetDevice, idx: nat)
    requires dev.Valid()
    modifies dev, dev.pool, dev.pool.slots, dev.echo
    ensures dev.Valid() && dev.restartMs == old(dev.restartMs)
    ensures Follows(dev, FreeEcho(idx), old(dev.Snap()), dev.Snap())
  {
    hide Partition, Ledger, EchoesOk, Occupied, BlocksIn, RxDepth, AfterError, EchoesAfterError, NetDevice.Separate;
    dev.FreeEchoSkb(idx);
  }

  method RunFlush(dev: NetDevice)
    requires dev.Valid()
    modifies dev, dev.pool, dev.pool.slots, dev.echo
    ensures dev.Valid() && dev.restartMs == old(dev.restartMs)
    ensures Follows(dev, Flush, old(dev.Snap()), dev.Snap())
  {
    hide Partition, Ledger, EchoesOk, Occupied, BlocksIn, RxDepth, AfterError, EchoesAfterError, NetDevice.Separate;
    dev.FlushEchoSkb();
    assert forall i :: 0 <= i < dev.echo.Length ==> dev.echo[..][i] == dev.echo[i];
    AllFlushed(dev.echo[..]);
  }

  /** The double free happens: on a new device, an error frame is put into the echo slot and looped back.
      If it is the only buffer in use the index ends at -2; with another one in use, its two blocks are
      on the free stack twice. */
  method LoopErrorBack(pool: BlockPool, canId: U32, another: bool)
    requires pool.Valid() && pool.index == 0 && NoRepeats(pool.FreeList()) && IsError(canId)
    modifies pool, pool.slots
    ensures !another ==> pool.index == -2
    ensures another ==> pool.Valid() && pool.index == 0 && TwiceOnTop(pool.FreeList())
  {
    hide Partition, Ledger, TwiceOnTop;
    var dev := new NetDevice(pool, 1, 0, false, true, true);
    if another {
      var other := dev.AllocCanSkb(0);
    }
    LoopBackOn(dev, canId);
  }

  ghost predicate TwiceOnTop(free: seq<Block>) {
    4 <= |free| && free[0] == free[2] && free[1] == free[3]
  }

  /** The same on any device with a free echo slot and no restart option. */
  method LoopBackOn(dev: NetDevice, canId: U32)
    requires dev.Valid() && dev.ifEcho && dev.errorCount == 0 && IsError(canId)
    requires dev.echo.Length == 1 && dev.echo[0] == None && 2 <= |dev.pool.FreeList()|
    modifies dev, dev.pool, dev.pool.slots, dev.echo
    ensures dev.bufs == old(dev.bufs) && dev.pool.index == 2 * |dev.bufs| - 2
    ensures dev.bufs != map[] ==> dev.pool.Valid() && TwiceOnTop(dev.pool.FreeList())
  {
    hide Partition, Ledger, EchoesOk, HeldByCaller, Occupied, BlocksIn, RxDepth, Flushed, NetDevice.Valid,
         NetDevice.MemoryOk;
    ghost var before := dev.bufs;
    var b := EchoNew(dev, canId);
    AddThenRemove(before, b, dev.bufs[b]);
    assert dev.echo[0] == dev.echo[..][0];
    var got, depth := dev.GetEchoSkb(0);
  }

  /** A new buffer goes to the echo slot. */
  method EchoNew(dev: NetDevice, canId: U32) returns (b: Block)
    requires dev.Valid() && dev.ifEcho && dev.echo.Length == 1 && dev.echo[0] == None
    requires 2 <= |dev.pool.FreeList()|
    modifies dev, dev.pool, dev.pool.slots, dev.echo
    ensures dev.Valid() && dev.echo[..] == [Some(b)] && b !in old(dev.bufs) && b in dev.bufs
    ensures dev.bufs == old(dev.bufs)[b := dev.bufs[b]] && dev.bufs[b].canId == canId && dev.state == old(dev.state)
  {
    hide Partition, Ledger, EchoesOk, Occupied, BlocksIn;
    ghost var before := dev.bufs;
    var skb := dev.AllocCanSkb(canId);
    b := skb.value;
    GrowKeepsEchoes(dev.echo[..], before, b, dev.bufs[b]);
    NoneHeld(dev.echo[..], dev.bufs, b);
    var ret := dev.PutEchoSkb(b, 0);
  }

  /** Whether `b` is a buffer in use that no echo slot holds. */
  method Holds(dev: NetDevice, b: Block) returns (held: bool)
    ensures held <==> dev.Held(b)
    ensures held ==> b in dev.bufs
  {
    held := b in dev.bufs;
    for i := 0 to dev.echo.Length
      invariant held <==> b in dev.bufs && forall k :: 0 <= k < i ==> dev.echo[k] != Some(b)
    {
      if dev.echo[i] == Some(b) { held := false; }
    }
  }

  lemma GrowKeepsEchoes(slots: seq<Option<Block>>, bufs: map<Block, Skb>, b: Block, s: Skb)
    requires EchoesOk(slots, bufs) && b !in bufs
    ensures EchoesOk(slots, bufs[b := s])
  {
  }

  lemma AddThenRemove<K, V>(m: map<K, V>, k: K, v: V)
    requires k !in m
    ensures m[k := v] - {k} == m && m[k := v] - {} - {k} == m
  {
  }

  lemma StaysHeld(slots: seq<Option<Block>>, bufs: map<Block, Skb>, b: Block)
    requires HeldByCaller(slots, bufs, b)
    ensures b !in BlocksIn(slots, |slots|)
  {
    InBlocks(slots, |slots|, b);
  }

  lemma NoEchoes(slots: seq<Option<Block>>, bufs: map<Block, Skb>)
    ensures (forall i :: 0 <= i < |slots| ==> slots[i] == None) ==>
      EchoesOk(slots, bufs) && BlocksIn(slots, |slots|) == {} && Occupied(slots) == {}
  {
    if forall i :: 0 <= i < |slots| ==> slots[i] == None {
      forall b ensures b !in BlocksIn(slots, |slots|) { InBlocks(slots, |slots|, b); }
    }
  }

  lemma NoneHeld(slots: seq<Option<Block>>, bufs: map<Block, Skb>, b: Block)
    requires b in bufs && forall i :: 0 <= i < |slots| ==> slots[i] == None
    ensures HeldByCaller(slots, bufs, b)
  {
  }
}
