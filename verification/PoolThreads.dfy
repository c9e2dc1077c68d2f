/** The block pool under several threads.  The pool's mutex protects one `fixed_malloc` or `fixed_free` at
    a time, while a buffer takes two calls to allocate and two to free; so the steps of different threads
    interleave between the two. */
module PoolThreads {
  import opened Pool

  /** The free stack; complete buffers as (sk_buff, data) pairs; blocks of allocations that still lack
      their second block; sk_buff blocks whose data block was already freed; and blocks lost because
      the second allocation failed. */
  datatype Shared = Shared(
    free: seq<Block>, whole: seq<(Block, Block)>, half: seq<Block>, leaving: seq<Block>, leaked: seq<Block>)

  /** One mutex-protected call of some thread. */
  datatype Call =
    | AllocFirst
    | AllocSecond(i: nat)
    | FreeData(i: nat)
    | FreeSkb(i: nat)

  function Without<T>(s: seq<T>, i: nat): (r: seq<T>)
    requires i < |s|
    ensures |r| == |s| - 1
  {
    s[..i] + s[i + 1..]
  }

  /** A call that no thread is in a position to make changes nothing. */
  function Next(s: Shared, c: Call): (s': Shared) {
    match c
    case AllocFirst =>
      if s.free == [] then s else s.(free := s.free[1..], half := [s.free[0]] + s.half)
    case AllocSecond(i) =>
      if i >= |s.half| then s
      else if s.free == [] then s.(half := Without(s.half, i), leaked := [s.half[i]] + s.leaked)
      else s.(free := s.free[1..], half := Without(s.half, i), whole := [(s.half[i], s.free[0])] + s.whole)
    case FreeData(i) =>
      if i >= |s.whole| then s
      else s.(free := [s.whole[i].1] + s.free, whole := Without(s.whole, i), leaving := [s.whole[i].0] + s.leaving)
    case FreeSkb(i) =>
      if i >= |s.leaving| then s
      else s.(free := [s.leaving[i]] + s.free, leaving := Without(s.leaving, i))
  }

  function Run(s: Shared, calls: seq<Call>): (s': Shared)
    decreases |calls|
  {
    if calls == [] then s else Run(Next(s, calls[0]), calls[1..])
  }

  /** How often `x` occurs in a list of blocks, and in a list of buffers. */
  ghost function Count(s: seq<Block>, x: Block): nat {
    if s == [] then 0 else (if s[0] == x then 1 else 0) + Count(s[1..], x)
  }

  ghost function CountPair(p: (Block, Block), x: Block): nat {
    (if p.0 == x then 1 else 0) + (if p.1 == x then 1 else 0)
  }

  ghost function CountPairs(s: seq<(Block, Block)>, x: Block): nat {
    if s == [] then 0 else CountPair(s[0], x) + CountPairs(s[1..], x)
  }

  /** In how many places block `x` is. */
  ghost function Places(s: Shared, x: Block): nat {
    Count(s.free, x) + CountPairs(s.whole, x) + Count(s.half, x) + Count(s.leaving, x) + Count(s.leaked, x)
  }

  function Size(s: Shared): nat {
    |s.free| + 2 * |s.whole| + |s.half| + |s.leaving| + |s.leaked|
  }

  lemma {:induction false} CountWithout(s: seq<Block>, i: nat, x: Block)
    requires i < |s|
    ensures Count(s, x) == Count(Without(s, i), x) + if s[i] == x then 1 else 0
  {
    if i == 0 {
      assert Without(s, 0) == s[1..];
    } else {
      CountWithout(s[1..], i - 1, x);
      assert Without(s, i)[1..] == Without(s[1..], i - 1) && Without(s, i)[0] == s[0];
    }
  }

  lemma {:induction false} CountPairsWithout(s: seq<(Block, Block)>, i: nat, x: Block)
    requires i < |s|
    ensures CountPairs(s, x) == CountPairs(Without(s, i), x) + CountPair(s[i], x)
  {
    if i == 0 {
      assert Without(s, 0) == s[1..];
    } else {
      CountPairsWithout(s[1..], i - 1, x);
      assert Without(s, i)[1..] == Without(s[1..], i - 1) && Without(s, i)[0] == s[0];
    }
  }

  lemma CountPush(b: Block, s: seq<Block>, x: Block)
    ensures Count([b] + s, x) == (if b == x then 1 else 0) + Count(s, x)
  {
    assert ([b] + s)[1..] == s;
  }

  lemma CountPairsPush(p: (Block, Block), s: seq<(Block, Block)>, x: Block)
    ensures CountPairs([p] + s, x) == CountPair(p, x) + CountPairs(s, x)
  {
    assert ([p] + s)[1..] == s;
  }

  lemma SecondConserves(s: Shared, i: nat, x: Block)
    ensures Places(Next(s, AllocSecond(i)), x) == Places(s, x) && Size(Next(s, AllocSecond(i))) == Size(s)
  {
    hide Without, CountPairs;
    if i < |s.half| {
      CountWithout(s.half, i, x);
      if s.free == [] {
        CountPush(s.half[i], s.leaked, x);
      } else {
        CountPairsPush((s.half[i], s.free[0]), s.whole, x);
      }
    }
  }

  /** No call creates, destroys or duplicates a block. */
  lemma NextConserves(s: Shared, c: Call, x: Block)
    ensures Places(Next(s, c), x) == Places(s, x) && Size(Next(s, c)) == Size(s)
  {
    hide Without, CountPairs;
    match c
    case AllocFirst =>
      if s.free != [] { CountPush(s.free[0], s.half, x); }
    case AllocSecond(i) =>
      SecondConserves(s, i, x);
    case FreeData(i) =>
      if i < |s.whole| {
        CountPairsWithout(s.whole, i, x);
        CountPush(s.whole[i].1, s.free, x);
        CountPush(s.whole[i].0, s.leaving, x);
      }
    case FreeSkb(i) =>
      if i < |s.leaving| {
        CountWithout(s.leaving, i, x);
        CountPush(s.leaving[i], s.free, x);
      }
  }

  lemma {:induction false} RunConserves(s: Shared, calls: seq<Call>, x: Block)
    ensures Places(Run(s, calls), x) == Places(s, x) && Size(Run(s, calls)) == Size(s)
    decreases |calls|
  {
    hide Next, Places, Size;
    if calls != [] {
      NextConserves(s, calls[0], x);
      RunConserves(Next(s, calls[0]), calls[1..], x);
    }
  }

  lemma {:induction false} CountHas(s: seq<Block>, x: Block)
    ensures x in s ==> 1 <= Count(s, x)
  {
    if s != [] {
      CountHas(s[1..], x);
      assert s == [s[0]] + s[1..];
    }
  }

  lemma {:induction false} CountOnce(s: seq<Block>, x: Block)
    requires NoRepeats(s)
    ensures Count(s, x) <= 1 && (x !in s ==> Count(s, x) == 0)
  {
    if s != [] {
      CountOnce(s[1..], x);
      assert s == [s[0]] + s[1..];
      assert forall j :: 0 < j < |s| ==> s[j] != s[0];
    }
  }

  /** Two complete buffers that share a block make it occur twice. */
  lemma PairsApart(s: seq<(Block, Block)>, i: nat, j: nat, x: Block)
    requires i < j < |s|
    ensures CountPair(s[i], x) + CountPair(s[j], x) <= CountPairs(s, x)
  {
    CountPairsWithout(s, j, x);
    assert Without(s, j)[i] == s[i];
    CountPairsWithout(Without(s, j), i, x);
  }

  /** Safety of every interleaving, from a pool of distinct blocks: the number of blocks taken is two per
      complete buffer and one for each allocation or release under way and each leak; no block is in
      two places; so a buffer in use has its blocks to itself. */
  lemma EveryInterleaving(all: seq<Block>, calls: seq<Call>)
    requires NoRepeats(all)
    ensures
      var s := Run(Shared(all, [], [], [], []), calls);
      && |all| - |s.free| == 2 * |s.whole| + |s.half| + |s.leaving| + |s.leaked|
      && (forall x :: Places(s, x) <= 1)
  {
    var start := Shared(all, [], [], [], []);
    RunConserves(start, calls, 0);
    forall x
      ensures Places(Run(start, calls), x) <= 1
    {
      RunConserves(start, calls, x);
      CountOnce(all, x);
    }
  }

  /** What that means for buffers: different buffers have different blocks, and none of them is free. */
  lemma BuffersApart(s: Shared, i: nat, j: nat)
    requires forall x :: Places(s, x) <= 1
    requires i < j < |s.whole|
    ensures s.whole[i].0 != s.whole[i].1
    ensures {s.whole[i].0, s.whole[i].1} !! {s.whole[j].0, s.whole[j].1}
    ensures s.whole[i].0 !in s.free && s.whole[i].1 !in s.free
  {
    var a, b := s.whole[i].0, s.whole[i].1;
    PairsApart(s.whole, i, j, a);
    PairsApart(s.whole, i, j, b);
    CountHas(s.free, a);
    CountHas(s.free, b);
    assert Places(s, a) <= 1 && Places(s, b) <= 1;
  }

  /** Leaks are for good. */
  lemma {:induction false} LeaksStay(s: Shared, calls: seq<Call>, x: Block)
    ensures Count(s.leaked, x) <= Count(Run(s, calls).leaked, x)
    decreases |calls|
  {
    if calls != [] {
      var s' := Next(s, calls[0]);
      assert s'.leaked == s.leaked || (|s'.leaked| > 0 && s'.leaked[1..] == s.leaked);
      LeaksStay(s', calls[1..], x);
    }
  }

  /** Two overlapping allocations over the last two free blocks lose both, whatever happened before;
      one after the other, the first would have succeeded. */
  lemma OverlapLeaks(s: Shared)
    requires |s.free| == 2 && s.half == []
    ensures Run(s, [AllocFirst, AllocFirst, AllocSecond(0), AllocSecond(0)]) ==
            s.(free := [], leaked := [s.free[0]] + ([s.free[1]] + s.leaked))
    ensures Run(s, [AllocFirst, AllocSecond(0), AllocFirst, AllocSecond(0)]) ==
            s.(free := [], whole := [(s.free[0], s.free[1])] + s.whole)
  {
    var a, b := s.free[0], s.free[1];
    var s1 := Next(s, AllocFirst);
    assert s1 == s.(free := [b], half := [a]);
    var s2 := Next(s1, AllocFirst);
    assert s2 == s.(free := [], half := [b, a]);
    var s3 := Next(s2, AllocSecond(0));
    assert Without([b, a], 0) == [a] && Without([a], 0) == [];
    assert s3 == s.(free := [], half := [a], leaked := [b] + s.leaked);
    FourCalls(s, AllocFirst, AllocFirst, AllocSecond(0), AllocSecond(0));
    var t2 := Next(s1, AllocSecond(0));
    assert t2 == s.(free := [], half := [], whole := [(a, b)] + s.whole);
    FourCalls(s, AllocFirst, AllocSecond(0), AllocFirst, AllocSecond(0));
  }

  /** A pool that never lost a block loses its first one only to an overlap: another allocation or release
      is under way. */
  lemma FirstLeakNeedsOverlap(all: seq<Block>, calls: seq<Call>, i: nat)
    requires NoRepeats(all) && |all| % 2 == 0
    requires
      var s := Run(Shared(all, [], [], [], []), calls);
      s.leaked == [] && Next(s, AllocSecond(i)).leaked != []
    ensures
      var s := Run(Shared(all, [], [], [], []), calls);
      i < |s.half| && s.free == [] && 2 <= |s.half| + |s.leaving|
  {
    EveryInterleaving(all, calls);
  }

  /** An allocation with no other call between its two leaks exactly when one block is free. */
  lemma LoneAllocation(s: Shared)
    requires s.half == []
    ensures
      var t := Run(s, [AllocFirst, AllocSecond(0)]);
      && (|s.free| == 0 ==> t == s)
      && (|s.free| == 1 ==> t == s.(free := [], leaked := [s.free[0]] + s.leaked))
      && (|s.free| >= 2 ==> t == s.(free := s.free[2..], whole := [(s.free[0], s.free[1])] + s.whole))
  {
    TwoCalls(s, AllocFirst, AllocSecond(0));
    if 1 <= |s.free| {
      var s1 := Next(s, AllocFirst);
      assert s1 == s.(free := s.free[1..], half := [s.free[0]]);
      assert Without([s.free[0]], 0) == [];
      assert 2 <= |s.free| ==> s.free[1..][1..] == s.free[2..];
    }
  }

  /** Between calls, an odd number of blocks is free exactly when an odd number was lost; so an allocation
      on its own can lose the last block only after others were lost. */
  lemma QuietParity(all: seq<Block>, calls: seq<Call>)
    requires NoRepeats(all) && |all| % 2 == 0
    ensures
      var s := Run(Shared(all, [], [], [], []), calls);
      s.half == [] && s.leaving == [] ==> |s.free| % 2 == |s.leaked| % 2
  {
    EveryInterleaving(all, calls);
  }

  /** A release is enough of an overlap: between its two calls, an allocation takes the one block given
      back and loses it. */
  lemma ReleaseOverlapLeaks(s: Shared)
    requires s.free == [] && s.half == [] && s.whole != []
    ensures Run(s, [FreeData(0), AllocFirst, AllocSecond(0), FreeSkb(0)]) ==
            s.(free := [s.whole[0].0], whole := s.whole[1..], leaked := [s.whole[0].1] + s.leaked)
  {
    var (skb, data) := s.whole[0];
    assert Without(s.whole, 0) == s.whole[1..] && Without([data], 0) == [];
    var s1 := Next(s, FreeData(0));
    assert s1 == s.(free := [data], whole := s.whole[1..], leaving := [skb] + s.leaving);
    var s2 := Next(s1, AllocFirst);
    assert s2 == s1.(free := [], half := [data]);
    var s3 := Next(s2, AllocSecond(0));
    assert s3 == s2.(half := [], leaked := [data] + s.leaked);
    assert Without([skb] + s.leaving, 0) == s.leaving;
    FourCalls(s, FreeData(0), AllocFirst, AllocSecond(0), FreeSkb(0));
  }

  lemma TwoCalls(s: Shared, a: Call, b: Call)
    ensures Run(s, [a, b]) == Next(Next(s, a), b)
  {
    RunOne(s, a, [b]);
    RunOne(Next(s, a), b, []);
  }

  /** The allocator of the source follows the calls: whoever holds the blocks, its free stack is the one of
      the run. */
  method DrivePool(pool: BlockPool, calls: seq<Call>) returns (s: Shared)
    requires pool.Valid() && pool.index == 0
    modifies pool`index, pool.slots
    ensures pool.Valid() && pool.FreeList() == s.free
    ensures s == Run(Shared(old(pool.FreeList()), [], [], [], []), calls)
  {
    hide Next;
    s := Shared(pool.slots[..], [], [], [], []);
    ghost var start := s;
    assert pool.FreeList() == s.free;
    for i := 0 to |calls|
      invariant pool.Valid() && pool.FreeList() == s.free && Size(s) == FIXED_MAX_NUM_BLOCKS
      invariant Run(start, calls) == Run(s, calls[i..])
    {
      assert calls[i..] == [calls[i]] + calls[i + 1..];
      RunOne(s, calls[i], calls[i + 1..]);
      NextConserves(s, calls[i], 0);
      s := DriveCall(pool, s, calls[i]);
    }
  }

  method DriveCall(pool: BlockPool, s: Shared, c: Call) returns (s': Shared)
    requires pool.Valid() && pool.FreeList() == s.free && Size(s) == FIXED_MAX_NUM_BLOCKS
    modifies pool`index, pool.slots
    ensures pool.Valid() && s' == Next(s, c) && pool.FreeList() == s'.free
  {
    s' := s;
    match c
    case AllocFirst =>
      var b := pool.Malloc();
      if b.Some? {
        s' := s.(free := s.free[1..], half := [b.value] + s.half);
      }
    case AllocSecond(i) =>
      if i < |s.half| {
        var b := pool.Malloc();
        s' := if b.None? then s.(half := Without(s.half, i), leaked := [s.half[i]] + s.leaked)
          else s.(free := s.free[1..], half := Without(s.half, i), whole := [(s.half[i], b.value)] + s.whole);
      }
    case FreeData(i) =>
      if i < |s.whole| {
        var (skb, data) := s.whole[i];
        pool.Free(data);
        s' := s.(free := [data] + s.free, whole := Without(s.whole, i), leaving := [skb] + s.leaving);
      }
    case FreeSkb(i) =>
      if i < |s.leaving| {
        pool.Free(s.leaving[i]);
        s' := s.(free := [s.leaving[i]] + s.free, leaving := Without(s.leaving, i));
      }
  }

  lemma FourCalls(s: Shared, a: Call, b: Call, c: Call, d: Call)
    ensures Run(s, [a, b, c, d]) == Next(Next(Next(Next(s, a), b), c), d)
  {
    RunOne(s, a, [b, c, d]);
    RunOne(Next(s, a), b, [c, d]);
    RunOne(Next(Next(s, a), b), c, [d]);
    RunOne(Next(Next(Next(s, a), b), c), d, []);
  }

  lemma RunOne(s: Shared, c: Call, rest: seq<Call>)
    ensures Run(s, [c] + rest) == Run(Next(s, c), rest)
  {
    assert ([c] + rest)[1..] == rest;
  }
}
