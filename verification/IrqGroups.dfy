/** Interrupt groups and the map from interrupt numbers to groups: `irq_group_add` and
    `irq_to_group_add` of config.c.  The group array is reallocated on every addition, so every pointer
    into it has to be redirected. */
module IrqGroups {

  /** `irq_group_t`. */
  datatype Group = Group(irqs: seq<nat>, hdl: int, msiCap: int, isMsi: bool, isMsix: bool)

  /** `irq_group_t*`: null, or the address of an element of some array, current or freed. */
  datatype Pointer = Null | At(base: array<Group>, index: nat)

  /** The last group that lists `irq`, or -1. */
  ghost function LastListing(groups: seq<Group>, irq: nat): (j: int)
    ensures -1 <= j < |groups|
  {
    if groups == [] then -1
    else if irq in groups[|groups| - 1].irqs then |groups| - 1
    else LastListing(groups[..|groups| - 1], irq)
  }

  lemma {:induction false} LastListingIsLast(groups: seq<Group>, irq: nat)
    ensures
      var j := LastListing(groups, irq);
      && (j == -1 <==> forall k :: 0 <= k < |groups| ==> irq !in groups[k].irqs)
      && (j != -1 ==> irq in groups[j].irqs && forall k :: j < k < |groups| ==> irq !in groups[k].irqs)
  {
    if groups != [] && irq !in groups[|groups| - 1].irqs {
      var front := groups[..|groups| - 1];
      LastListingIsLast(front, irq);
      assert forall k :: 0 <= k < |front| ==> front[k] == groups[k];
    }
  }

  lemma LastListingAppend(groups: seq<Group>, g: Group, irq: nat)
    ensures LastListing(groups + [g], irq) == if irq in g.irqs then |groups| else LastListing(groups, irq)
  {
    assert (groups + [g])[..|groups|] == groups;
  }

  /** What the map must hold for `irq`. */
  ghost function Expected(groups: array<Group>, contents: seq<Group>, irq: nat): Pointer {
    var j := LastListing(contents, irq);
    if j == -1 then Null else At(groups, j)
  }

  class IrqTable {
    /** `irq_group` and `irq_to_group_map`; an empty array stands for the null pointer they start as. */
    var groups: array<Group>
    var table: array<Pointer>

    ghost predicate Valid()
      reads this, groups, table
    {
      && (forall irq :: 0 <= irq < table.Length ==> table[irq] == Expected(groups, groups[..], irq))
      && Covered(groups[..], table.Length)
    }

    constructor ()
      ensures Valid() && groups[..] == [] && fresh(groups) && fresh(table)
    {
      groups := new Group[0];
      table := new Pointer[0];
    }

    /** `irq_group_add`: afterwards every entry points into the current array, at the most recently added
        group that lists its interrupt, and is null if there is none. */
    method Add(irqs: seq<nat>, hdl: int, msiCap: int, isMsi: bool, isMsix: bool)
      requires Valid()
      modifies this, table
      ensures Valid() && fresh(groups) && (table == old(table) || fresh(table))
      ensures groups[..] == old(groups[..]) + [Group(irqs, hdl, msiCap, isMsi, isMsix)]
    {
      hide LastListing;
      var n := groups.Length;
      ghost var contents := groups[..];
      var g := Group(irqs, hdl, msiCap, isMsi, isMsix);
      var newGroups := new Group[n + 1];
      for i := 0 to n
        modifies newGroups
        invariant newGroups[..i] == contents[..i]
      {
        newGroups[i] := groups[i];
      }
      newGroups[n] := g;
      assert newGroups[..] == contents + [g];
      Redirect(newGroups);
      groups := newGroups;
      PointTo(irqs, n, contents, g);
    }

    /** Lines 154 to 164: pointers into the old array become pointers to the same element of the new one. */
    method Redirect(newGroups: array<Group>)
      requires Valid() && newGroups != groups
      modifies table
      ensures forall irq :: 0 <= irq < table.Length ==> table[irq] == Expected(newGroups, groups[..], irq)
    {
      hide LastListing;
      for i := 0 to table.Length
        invariant forall irq :: 0 <= irq < i ==> table[irq] == Expected(newGroups, groups[..], irq)
        invariant forall irq :: i <= irq < table.Length ==> table[irq] == Expected(groups, groups[..], irq)
      {
        if table[i] != Null {
          ghost var target := table[i];
          for j := 0 to groups.Length
            invariant table[i] == target && target == Expected(groups, groups[..], i)
            invariant target.index >= j
            invariant forall irq :: 0 <= irq < i ==> table[irq] == Expected(newGroups, groups[..], irq)
            invariant forall irq :: i < irq < table.Length ==> table[irq] == Expected(groups, groups[..], irq)
          {
            if table[i] == At(groups, j) {
              table[i] := At(newGroups, j);
              break;
            }
          }
        }
      }
    }

    /** `irq_to_group_add`: grows the map if needed and enters the new group. */
    method PointTo(irqs: seq<nat>, id: nat, ghost contents: seq<Group>, ghost g: Group)
      requires groups[..] == contents + [g] && id == |contents| && g.irqs == irqs
      requires Covered(contents, table.Length)
      requires forall irq :: 0 <= irq < table.Length ==> table[irq] == Expected(groups, contents, irq)
      modifies this`table, table
      ensures Valid() && (table == old(table) || fresh(table))
    {
      hide LastListing;
      var size := MapSize(irqs);
      Grow(size, contents);
      for i := 0 to |irqs|
        invariant table == old(table) || fresh(table)
        invariant table.Length >= size && Covered(contents, table.Length)
        invariant forall irq :: 0 <= irq < table.Length ==>
          table[irq] == if irq in irqs[..i] then At(groups, id) else Expected(groups, contents, irq)
      {
        assert irqs[..i + 1] == irqs[..i] + [irqs[i]];
        table[irqs[i]] := At(groups, id);
      }
      assert irqs[..|irqs|] == irqs;
      forall irq: nat | irq < table.Length
        ensures table[irq] == Expected(groups, groups[..], irq)
      {
        LastListingAppend(contents, g, irq);
      }
    }

    /** Lines 98 to 104. */
    method MapSize(irqs: seq<nat>) returns (size: nat)
      ensures forall i :: 0 <= i < |irqs| ==> irqs[i] < size
      ensures size == 0 || exists i :: 0 <= i < |irqs| && size == irqs[i] + 1
    {
      size := 0;
      for i := 0 to |irqs|
        invariant forall k :: 0 <= k < i ==> irqs[k] < size
        invariant size == 0 || exists k :: 0 <= k < i && size == irqs[k] + 1
      {
        if size < irqs[i] + 1 {
          size := irqs[i] + 1;
        }
      }
    }

    /** Lines 106 to 123. */
    method Grow(size: nat, ghost contents: seq<Group>)
      requires Covered(contents, table.Length)
      requires forall irq :: 0 <= irq < table.Length ==> table[irq] == Expected(groups, contents, irq)
      modifies this`table
      ensures table.Length == if old(table.Length) < size then size else old(table.Length)
      ensures Covered(contents, table.Length)
      ensures forall irq :: 0 <= irq < table.Length ==> table[irq] == Expected(groups, contents, irq)
      ensures table == old(table) || fresh(table)
    {
      hide LastListing;
      if table.Length < size {
        var newTable := new Pointer[size](_ => Null);
        for i := 0 to table.Length
          modifies newTable
          invariant forall irq :: 0 <= irq < i ==> newTable[irq] == table[irq]
          invariant forall irq :: i <= irq < size ==> newTable[irq] == Null
        {
          newTable[i] := table[i];
        }
        forall irq: nat | table.Length <= irq < size
          ensures Expected(groups, contents, irq) == Null
        {
          LastListingIsLast(contents, irq);
        }
        table := newTable;
      }
    }
  }

  /** Every listed interrupt has an entry. */
  ghost predicate Covered(groups: seq<Group>, size: nat) {
    forall k, i :: 0 <= k < |groups| && 0 <= i < |groups[k].irqs| ==> groups[k].irqs[i] < size
  }

  /** Over every sequence of additions: no entry ever points into a freed array, and each names the most
      recently added group that lists its interrupt. */
  method AddAll(t: IrqTable, added: seq<Group>)
    requires t.Valid()
    modifies t, t.table
    ensures t.Valid() && t.groups[..] == old(t.groups[..]) + added
    ensures forall irq: nat :: irq < t.table.Length && t.table[irq] != Null ==>
      && t.table[irq].base == t.groups && t.table[irq].index < t.groups.Length
      && irq in t.groups[t.table[irq].index].irqs
      && forall k :: t.table[irq].index < k < t.groups.Length ==> irq !in t.groups[k].irqs
    ensures forall irq: nat :: irq >= t.table.Length || t.table[irq] == Null ==>
      forall k :: 0 <= k < t.groups.Length ==> irq !in t.groups[k].irqs
  {
    hide LastListing;
    ghost var start := t.groups[..];
    for i := 0 to |added|
      invariant t.Valid() && (t.table == old(t.table) || fresh(t.table))
      invariant t.groups[..] == start + added[..i]
    {
      var g := added[i];
      t.Add(g.irqs, g.hdl, g.msiCap, g.isMsi, g.isMsix);
      assert added[..i + 1] == added[..i] + [g];
    }
    assert added[..|added|] == added;
    forall irq: nat
      ensures
        var j := LastListing(t.groups[..], irq);
        && (j == -1 <==> forall k :: 0 <= k < t.groups.Length ==> irq !in t.groups[k].irqs)
        && (j != -1 ==> irq in t.groups[j].irqs && forall k :: j < k < t.groups.Length ==> irq !in t.groups[k].irqs)
    {
      LastListingIsLast(t.groups[..], irq);
      assert forall k :: 0 <= k < t.groups.Length ==> t.groups[..][k] == t.groups[k];
    }
  }
}
