/** The fixed-block allocator of fixed.c and the ownership of socket buffers made of two blocks. */
module Pool {
  import opened Words

  const FIXED_MAX_NUM_BLOCKS: nat := 256

  /** The address of a block. */
  type Block = nat

  /** `FixedArray` and `FixedArrayIndex`: the blocks from `index` on are free, and are handed out and
      taken back like a stack. */
  class BlockPool {
    const slots: array<Block>
    var index: int

    ghost predicate Valid()
      reads this
    {
      slots.Length == FIXED_MAX_NUM_BLOCKS && 0 <= index <= FIXED_MAX_NUM_BLOCKS
    }

    ghost function FreeList(): seq<Block>
      reads this, slots
      requires Valid()
    {
      slots[index..]
    }

    /** `fixed_memory_init`, given the addresses the system hands out. */
    constructor (blocks: seq<Block>)
      requires |blocks| == FIXED_MAX_NUM_BLOCKS
      ensures Valid() && fresh(slots) && index == 0 && FreeList() == blocks
    {
      slots := new Block[FIXED_MAX_NUM_BLOCKS](i requires 0 <= i < |blocks| => blocks[i]);
      index := 0;
      new;
      assert slots[..] == blocks;
    }

    /** `fixed_malloc`. */
    method Malloc() returns (result: Option<Block>)
      requires Valid()
      modifies this`index
      ensures Valid()
      ensures old(FreeList()) == [] ==> result == None && index == old(index)
      ensures old(FreeList()) != [] ==>
        result == Some(old(FreeList())[0]) && FreeList() == old(FreeList())[1..] && index == old(index) + 1
    {
      result := None;
      if index < FIXED_MAX_NUM_BLOCKS {
        result := Some(slots[index]);
        index := index + 1;
      }
    }

    /** `fixed_free`.  The source checks neither its argument nor the index: without an outstanding block
        the index becomes negative and the block is written in front of the array. */
    method Free(b: Block)
      requires slots.Length == FIXED_MAX_NUM_BLOCKS && index <= FIXED_MAX_NUM_BLOCKS
      modifies this`index, slots
      ensures index == old(index) - 1
      ensures 0 < old(index) ==> Valid() && FreeList() == [b] + old(FreeList())
      ensures old(index) <= 0 ==> index < 0 && slots[..] == old(slots[..])
    {
      index := index - 1;
      if 0 <= index {
        slots[index] := b;
      }
    }
  }

  /** A `struct sk_buff` in use, known by the address of its block: the block of its data, whether it is
      a local echo, and the identifier (with flag bits) of its frame. */
  datatype Skb = Skb(head: Block, isEcho: bool, canId: U32)

  ghost predicate NoRepeats<T>(s: seq<T>) {
    forall i, j :: 0 <= i < j < |s| ==> s[i] != s[j]
  }

  lemma PushKeepsNoRepeats<T>(x: T, s: seq<T>)
    requires NoRepeats(s) && x !in s
    ensures NoRepeats([x] + s)
  {
  }

  /** Free blocks are pairwise different, blocks in use are pairwise different, and no block is both. */
  ghost predicate Partition(free: seq<Block>, bufs: map<Block, Skb>) {
    && NoRepeats(free)
    && (forall b :: b in bufs ==> b !in free && bufs[b].head !in free && b != bufs[b].head)
    && (forall b, c :: b in bufs && c in bufs && b != c ==> b != bufs[c].head && bufs[b].head != bufs[c].head)
  }

  /** Taking two free blocks makes a new buffer. */
  lemma TakeTwo(free: seq<Block>, bufs: map<Block, Skb>, isEcho: bool, canId: U32)
    requires Partition(free, bufs) && 2 <= |free|
    ensures free[0] !in bufs
    ensures Partition(free[2..], bufs[free[0] := Skb(free[1], isEcho, canId)])
  {
    var rest := free[2..];
    assert free[0] !in rest && free[1] !in rest;
    assert forall x :: x in rest ==> x in free;
    assert free[0] in free && free[1] in free;
  }

  /** Losing the last free block keeps the rest apart. */
  lemma ShortenFree(free: seq<Block>, bufs: map<Block, Skb>)
    requires Partition(free, bufs) && 1 <= |free|
    ensures Partition(free[1..], bufs)
  {
    assert forall x :: x in free[1..] ==> x in free;
  }

  /** Giving both blocks of a buffer back. */
  lemma GiveBack(free: seq<Block>, bufs: map<Block, Skb>, b: Block)
    requires Partition(free, bufs) && b in bufs
    ensures Partition([b] + ([bufs[b].head] + free), bufs - {b})
  {
    var head := bufs[b].head;
    PushKeepsNoRepeats(head, free);
    PushKeepsNoRepeats(b, [head] + free);
    forall c | c in bufs - {b}
      ensures c !in [b] + ([head] + free) && bufs[c].head !in [b] + ([head] + free)
    {
      assert b != c && b in bufs && c in bufs;
    }
  }

  lemma RemoveOne<K, V>(m: map<K, V>, k: K)
    requires k in m
    ensures |m - {k}| == |m| - 1
  {
    assert (m - {k}).Keys == m.Keys - {k};
  }

  /** Changing what a buffer carries does not touch its blocks. */
  lemma Relabel(free: seq<Block>, bufs: map<Block, Skb>, b: Block, s: Skb)
    requires Partition(free, bufs) && b in bufs && s.head == bufs[b].head
    ensures Partition(free, bufs[b := s])
  {
  }
}
