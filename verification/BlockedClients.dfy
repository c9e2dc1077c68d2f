/** The doubly linked list of blocked clients: `store_blocked_client`, `get_blocked_client` and
    `remove_blocked_client` of resmgr.h. */
module BlockedClients {

  /** `blocked_client_t`. */
  class Client {
    var prev: Client?
    var next: Client?
    const rcvid: int

    constructor (rcvid: int)
      ensures this.rcvid == rcvid && prev == null && next == null
    {
      this.rcvid := rcvid;
      prev, next := null, null;
    }
  }

  ghost function Before(nodes: seq<Client>, i: int): Client?
    requires 0 <= i < |nodes|
  {
    if i == 0 then null else nodes[i - 1]
  }

  ghost function After(nodes: seq<Client>, i: int): Client?
    requires 0 <= i < |nodes|
  {
    if i == |nodes| - 1 then null else nodes[i + 1]
  }

  ghost predicate Distinct(nodes: seq<Client>) {
    forall i, j :: 0 <= i < j < |nodes| ==> nodes[i] != nodes[j]
  }

  ghost function Cut(nodes: seq<Client>, k: int): (r: seq<Client>)
    requires 0 <= k < |nodes|
    ensures |r| == |nodes| - 1
  {
    nodes[..k] + nodes[k + 1..]
  }

  /** Neighbours after a cut: unchanged, except across the gap. */
  lemma CutNeighbours(nodes: seq<Client>, k: int, i: int)
    requires 0 <= k < |nodes| && 0 <= i < |nodes| - 1
    ensures Cut(nodes, k)[i] == nodes[if i < k then i else i + 1]
    ensures Before(Cut(nodes, k), i) == if i == k then Before(nodes, k) else Before(nodes, if i < k then i else i + 1)
    ensures After(Cut(nodes, k), i) == if i == k - 1 then After(nodes, k) else After(nodes, if i < k then i else i + 1)
  {
  }

  lemma CutFirst(nodes: seq<Client>, k: int)
    requires 0 <= k < |nodes|
    ensures Cut(nodes, k) == [] ==> k == 0 && After(nodes, 0) == null
    ensures Cut(nodes, k) != [] ==> Cut(nodes, k)[0] == if k == 0 then After(nodes, 0) else nodes[0]
  {
  }

  lemma CutDistinct(nodes: seq<Client>, k: int)
    requires Distinct(nodes) && 0 <= k < |nodes|
    ensures Distinct(Cut(nodes, k)) && nodes[k] !in Cut(nodes, k)
    ensures forall c :: c in Cut(nodes, k) ==> c in nodes
  {
  }

  lemma AppendNeighbours(nodes: seq<Client>, r: Client, i: int)
    requires 0 <= i <= |nodes|
    ensures (nodes + [r])[i] == if i == |nodes| then r else nodes[i]
    ensures Before(nodes + [r], i) == (if i < |nodes| then Before(nodes, i) else if i == 0 then null else nodes[i - 1])
    ensures After(nodes + [r], i) == (if i == |nodes| then null else if i == |nodes| - 1 then r else After(nodes, i))
  {
  }

  /** The clients waiting with another identifier, in order. */
  ghost function Others(nodes: seq<Client>, rcvid: int): seq<Client> {
    if nodes == [] then []
    else (if nodes[0].rcvid == rcvid then [] else [nodes[0]]) + Others(nodes[1..], rcvid)
  }

  lemma {:induction false} OthersAppend(nodes: seq<Client>, c: Client, rcvid: int)
    ensures Others(nodes + [c], rcvid) == Others(nodes, rcvid) + if c.rcvid == rcvid then [] else [c]
  {
    if nodes == [] {
      assert (nodes + [c])[1..] == [];
    } else {
      assert (nodes + [c])[1..] == nodes[1..] + [c];
      OthersAppend(nodes[1..], c, rcvid);
    }
  }

  class ClientList {
    var root: Client?
    /** The nodes reachable from the root. */
    ghost var nodes: seq<Client>
    /** All nodes ever stored. */
    ghost var repr: set<Client>

    ghost predicate Valid()
      reads this, repr
    {
      && (forall c :: c in nodes ==> c in repr)
      && Distinct(nodes)
      && root == (if nodes == [] then null else nodes[0])
      && forall i :: 0 <= i < |nodes| ==> nodes[i].prev == Before(nodes, i) && nodes[i].next == After(nodes, i)
    }

    constructor ()
      ensures Valid() && nodes == [] && repr == {}
    {
      root := null;
      nodes := [];
      repr := {};
    }

    /** `store_blocked_client`: appends. */
    method Store(r: Client)
      requires Valid() && r !in nodes
      modifies this, repr, r
      ensures Valid() && nodes == old(nodes) + [r] && repr == old(repr) + {r}
    {
      if root == null {
        root := r;
        r.prev, r.next := null, null;
        nodes, repr := [r], repr + {r};
        return;
      }
      var last := Last();
      ghost var n := nodes;
      last.next := r;
      r.prev := last;
      r.next := null;
      forall o | 0 <= o < |n|
        ensures n[o].prev == Before(n, o) && n[o].next == (if o == |n| - 1 then r else After(n, o))
      {
        assert n[o] in n;
        assert o != |n| - 1 ==> n[o] != last;
      }
      Appended(n, r);
    }

    /** The chain with `r` at its end is whole. */
    ghost method Appended(n: seq<Client>, r: Client)
      requires n == nodes != [] && Distinct(n) && r !in n && root == n[0] && forall c :: c in n ==> c in repr
      requires r.prev == n[|n| - 1] && r.next == null
      requires forall o :: 0 <= o < |n| ==>
        n[o].prev == Before(n, o) && n[o].next == (if o == |n| - 1 then r else After(n, o))
      modifies this`nodes, this`repr
      ensures Valid() && nodes == n + [r] && repr == old(repr) + {r}
    {
      nodes, repr := n + [r], repr + {r};
      hide Before, After;
      forall i | 0 <= i < |nodes|
        ensures nodes[i].prev == Before(nodes, i) && nodes[i].next == After(nodes, i)
      {
        AppendNeighbours(n, r, i);
      }
    }

    /** The walk to the end of the chain. */
    method Last() returns (last: Client)
      requires Valid() && root != null
      ensures nodes != [] && last == nodes[|nodes| - 1]
    {
      last := root;
      ghost var k := 0;
      while last.next != null
        invariant 0 <= k < |nodes| && last == nodes[k]
        decreases |nodes| - k
      {
        last := last.next;
        k := k + 1;
      }
    }

    /** `get_blocked_client`: the first client with the identifier. */
    method Get(rcvid: int) returns (location: Client?)
      requires Valid()
      ensures location == null ==> forall c :: c in nodes ==> c.rcvid != rcvid
      ensures location != null ==>
        exists k :: 0 <= k < |nodes| && location == nodes[k] && location.rcvid == rcvid
          && forall c :: c in nodes[..k] ==> c.rcvid != rcvid
    {
      location := root;
      ghost var k := 0;
      while location != null
        invariant 0 <= k <= |nodes| && location == (if k < |nodes| then nodes[k] else null)
        invariant forall c :: c in nodes[..k] ==> c.rcvid != rcvid
        decreases |nodes| - k
      {
        if location.rcvid == rcvid {
          return;
        }
        location := location.next;
        k := k + 1;
      }
      assert nodes[..k] == nodes;
    }

    /** Lines 256 to 268: takes one node out of the chain. */
    method Unlink(location: Client, ghost k: nat)
      requires Valid() && k < |nodes| && location == nodes[k]
      modifies this`root, this`nodes, repr
      ensures Valid() && nodes == Cut(old(nodes), k)
      ensures location.next == old(location.next)
    {
      if location.prev == null {
        UnlinkFirst(location);
      } else {
        UnlinkInner(location, k);
      }
    }

    method UnlinkFirst(location: Client)
      requires Valid() && nodes != [] && location == nodes[0]
      modifies this`root, this`nodes, repr
      ensures Valid() && nodes == Cut(old(nodes), 0)
      ensures location.next == old(location.next)
    {
      ghost var n := nodes;
      root := location.next;
      if root != null {
        assert root == n[1];
        root.prev := null;
      }
      Relinked(n, 0);
    }

    method UnlinkInner(location: Client, ghost k: nat)
      requires Valid() && 0 < k < |nodes| && location == nodes[k]
      modifies this`nodes, repr
      ensures Valid() && nodes == Cut(old(nodes), k)
      ensures location.next == old(location.next)
    {
      ghost var n := nodes;
      assert location.prev == n[k - 1] && location.next == After(n, k);
      location.prev.next := location.next;
      if location.next != null {
        location.next.prev := location.prev;
      }
      forall o | 0 <= o < |n| && o != k
        ensures n[o].prev == (if o == k + 1 then Before(n, k) else Before(n, o))
        ensures n[o].next == (if o == k - 1 then After(n, k) else After(n, o))
      {
        assert n[o] != n[k];
        assert o != k - 1 ==> n[o] != n[k - 1];
        assert o != k + 1 && k + 1 < |n| ==> n[o] != n[k + 1];
      }
      Relinked(n, k);
    }

    /** The chain is whole again around a node whose neighbours now point past it. */
    ghost method Relinked(n: seq<Client>, k: nat)
      requires k < |n| && Distinct(n) && n == nodes && forall c :: c in n ==> c in repr
      requires root == (if k == 0 then After(n, 0) else n[0])
      requires forall o :: 0 <= o < |n| && o != k ==>
        && n[o].prev == (if o == k + 1 then Before(n, k) else Before(n, o))
        && n[o].next == (if o == k - 1 then After(n, k) else After(n, o))
      modifies this`nodes
      ensures Valid() && nodes == Cut(n, k)
    {
      nodes := Cut(n, k);
      CutDistinct(n, k);
      CutFirst(n, k);
      hide Before, After, Cut, Distinct;
      forall i | 0 <= i < |nodes|
        ensures nodes[i].prev == Before(nodes, i) && nodes[i].next == After(nodes, i)
      {
        CutNeighbours(n, k, i);
      }
    }

    /** `remove_blocked_client`: removes every client with the identifier and no other, and keeps the order
        and all links of the rest. */
    method Remove(rcvid: int)
      requires Valid()
      modifies this`root, this`nodes, repr
      ensures Valid() && nodes == Others(old(nodes), rcvid)
    {
      ghost var all, j := nodes, 0;
      var location := root;
      RemovalEnds(all, rcvid);
      while location != null
        invariant Valid() && 0 <= j <= |all| && nodes == Partly(all, j, rcvid)
        invariant location == (if j < |all| then all[j] else null)
        decreases |all| - j
      {
        hide Before, Cut, Distinct, Partly;
        ghost var k := RemovalStep(all, j, rcvid);
        var next := location.next;
        if location.rcvid == rcvid {
          Unlink(location, k);
        }
        location := next;
        j := j + 1;
      }
    }
  }

  /** The list when the first `j` of its nodes were looked at. */
  ghost function Partly(all: seq<Client>, j: nat, rcvid: int): (r: seq<Client>)
    requires j <= |all|
  {
    Others(all[..j], rcvid) + all[j..]
  }

  lemma RemovalStep(all: seq<Client>, j: nat, rcvid: int) returns (k: nat)
    requires j < |all|
    ensures
      var now := Partly(all, j, rcvid);
      && k < |now| && now[k] == all[j]
      && After(now, k) == (if j + 1 < |all| then all[j + 1] else null)
      && Partly(all, j + 1, rcvid) == (if all[j].rcvid == rcvid then Cut(now, k) else now)
  {
    var done := Others(all[..j], rcvid);
    k := |done|;
    assert all[..j + 1] == all[..j] + [all[j]];
    OthersAppend(all[..j], all[j], rcvid);
    assert all[j..] == [all[j]] + all[j + 1..];
    var now := Partly(all, j, rcvid);
    assert Cut(now, k) == done + all[j + 1..];
  }

  lemma RemovalEnds(all: seq<Client>, rcvid: int)
    ensures Partly(all, 0, rcvid) == all && Partly(all, |all|, rcvid) == Others(all, rcvid)
  {
    assert all[..|all|] == all;
  }

  // ----- runs -----

  datatype Op = Block(rcvid: int) | Unblock(rcvid: int)

  function Ids(nodes: seq<Client>): seq<int> {
    if nodes == [] then [] else [nodes[0].rcvid] + Ids(nodes[1..])
  }

  /** The same list, as a plain sequence of identifiers. */
  function Apply(ids: seq<int>, op: Op): seq<int> {
    match op
    case Block(rcvid) => ids + [rcvid]
    case Unblock(rcvid) => Drop(ids, rcvid)
  }

  function Drop(ids: seq<int>, rcvid: int): seq<int> {
    if ids == [] then [] else (if ids[0] == rcvid then [] else [ids[0]]) + Drop(ids[1..], rcvid)
  }

  function ApplyAll(ids: seq<int>, ops: seq<Op>): seq<int>
    decreases |ops|
  {
    if ops == [] then ids else ApplyAll(Apply(ids, ops[0]), ops[1..])
  }

  lemma {:induction false} IdsAppend(nodes: seq<Client>, c: Client)
    ensures Ids(nodes + [c]) == Ids(nodes) + [c.rcvid]
  {
    if nodes == [] {
      assert (nodes + [c])[1..] == [];
    } else {
      assert (nodes + [c])[1..] == nodes[1..] + [c];
      IdsAppend(nodes[1..], c);
    }
  }

  lemma {:induction false} IdsOthers(nodes: seq<Client>, rcvid: int)
    ensures Ids(Others(nodes, rcvid)) == Drop(Ids(nodes), rcvid)
  {
    if nodes != [] {
      var rest := Others(nodes[1..], rcvid);
      IdsOthers(nodes[1..], rcvid);
      assert ([nodes[0]] + rest)[1..] == rest && [] + rest == rest;
      assert ([nodes[0].rcvid] + Ids(nodes[1..]))[1..] == Ids(nodes[1..]);
    }
  }

  /** Every sequence of stores and removals refines appending to and filtering a plain sequence. */
  method Run(list: ClientList, ops: seq<Op>)
    requires list.Valid()
    modifies list, list.repr
    ensures list.Valid() && Ids(list.nodes) == ApplyAll(old(Ids(list.nodes)), ops)
  {
    hide Ids, Apply;
    ghost var start := Ids(list.nodes);
    for i := 0 to |ops|
      invariant list.Valid() && fresh(list.repr - old(list.repr))
      invariant ApplyAll(start, ops) == ApplyAll(Ids(list.nodes), ops[i..])
    {
      hide Distinct, Before, After;
      assert ops[i..][1..] == ops[i + 1..];
      RunOne(list, ops[i]);
    }
  }

  method RunOne(list: ClientList, op: Op)
    requires list.Valid()
    modifies list, list.repr
    ensures list.Valid() && Ids(list.nodes) == Apply(old(Ids(list.nodes)), op)
    ensures fresh(list.repr - old(list.repr))
  {
    hide Distinct, Before, After, Others;
    match op
    case Block(rcvid) =>
      var c := new Client(rcvid);
      IdsAppend(list.nodes, c);
      list.Store(c);
    case Unblock(rcvid) =>
      IdsOthers(list.nodes, rcvid);
      list.Remove(rcvid);
  }
}
