/** The pools as the firmware keeps them: list heads, totals, and list nodes in allocator slots. */
module MemPools {
  import opened Basics
  import opened SlotBits
  import opened SlotArray
  import opened M = MemInfo

  class Pools {
    const slots: Slots
    const nodes: array<Node>
    var heads: seq<int>
    var totals: seq<int>
    ghost var chains: seq<seq<nat>>

    ghost predicate Valid()
      reads this, slots, slots.words, nodes
    {
      && slots.Valid() && nodes.Length == SLOTS
      && Sound(nodes[..], heads, totals, chains, slots.InUse())
    }

    /** The blocks accounted for in pool `t`, oldest first. */
    ghost function Recorded(t: nat): seq<Block>
      requires t < POOLS && Valid()
      reads this, slots, slots.words, nodes
    {
      Blocks(nodes[..], chains[t])
    }

    constructor ()
      ensures Valid() && fresh(slots) && fresh(slots.words) && fresh(nodes)
      ensures forall t :: 0 <= t < POOLS ==> Recorded(t) == []
    {
      slots := new Slots();
      nodes := new Node[SLOTS](_ => Node(0, 0, -1));
      heads, totals, chains := [-1, -1, -1], [0, 0, 0], [[], [], []];
      new;
      hide Words, Taken;
      assert forall t :: 0 <= t < POOLS ==> chains[t] == [];
    }

    /**
      _add_mem_info: account for a block at the end of its list.  When no slot is
      left the block goes unrecorded and the total does not count it.
    */
    method AddMemInfo(t: nat, b: Block) returns (ok: bool)
      requires Valid() && t < POOLS
      modifies this, slots, slots.words, nodes
      ensures Valid()
      ensures ok <==> !AllBelow(old(slots.InUse()), SLOTS)
      ensures Recorded(t) == old(Recorded(t)) + (if ok then [b] else [])
      ensures forall u :: 0 <= u < POOLS && u != t ==> Recorded(u) == old(Recorded(u))
      ensures totals[t] == Sum(Recorded(t)) && slots.items == old(slots.items) + (if ok then 1 else 0)
    {
      hide Words, Taken, AllBelow, Blocks, Linked, Apart, Take;
      ghost var ns := nodes[..];
      var p;
      ok, p := slots.Alloc();
      if !ok {
        assert nodes[..] == ns;
        return false;
      }
      AddSound(ns, heads, totals, chains, old(slots.InUse()), t, p, b);
      EmptyHead(ns, heads[t], chains[t]);
      if heads[t] == -1 {
        nodes[p] := Node(b.ptr, b.size, -1);
        heads := heads[t := p];
      } else {
        var last := FindTail(t);
        nodes[p] := Node(b.ptr, b.size, -1);
        nodes[last] := nodes[last].(next := p);
        assert heads[t := heads[t]] == heads;
      }
      assert nodes[..] == Extended(ns, chains[t], p, b);
      chains := chains[t := chains[t] + [p]];
      totals := totals[t := totals[t] + b.size];
    }

    /** The walk to the last node on the list of pool `t`. */
    method FindTail(t: nat) returns (last: nat)
      requires nodes.Length == SLOTS && t < POOLS && AllLinked(nodes[..], heads, chains) && chains[t] != []
      ensures last == chains[t][|chains[t]| - 1] < SLOTS
    {
      ghost var c := chains[t];
      assert Linked(nodes[..], heads[t], c);
      last := heads[t];
      ghost var i := 0;
      while nodes[last].next != -1
        invariant 0 <= i < |c| && last == c[i]
        decreases |c| - i
      {
        assert nodes[..][c[i]].next == At(c, i + 1);
        last, i := nodes[last].next, i + 1;
      }
      assert nodes[..][c[i]].next == At(c, i + 1);
    }

    /** The walk of _remove_mem_info: the first record of `ptr`, with the node before it. */
    method FindNode(t: nat, ptr: nat) returns (item: int, prev: int, ghost k: nat)
      requires nodes.Length == SLOTS && t < POOLS && AllLinked(nodes[..], heads, chains)
      ensures var c, bs := chains[t], Blocks(nodes[..], chains[t]);
        && k <= |c| && item == At(c, k) < SLOTS && prev == (if k == 0 then -1 else c[k - 1]) && prev < SLOTS
        && (forall j :: 0 <= j < k ==> bs[j].ptr != ptr)
        && (k < |c| ==> bs[k].ptr == ptr)
    {
      ghost var c, ns := chains[t], nodes[..];
      ghost var bs := Blocks(ns, c);
      assert Linked(ns, heads[t], c);
      item, prev, k := heads[t], -1, 0;
      while item != -1
        invariant 0 <= k <= |c| && item == At(c, k) && prev == if k == 0 then -1 else c[k - 1]
        invariant forall j :: 0 <= j < k ==> bs[j].ptr != ptr
        decreases |c| - k
      {
        assert ns[c[k]] == nodes[item] && bs[k].ptr == ns[c[k]].ptr && ns[c[k]].next == At(c, k + 1);
        if nodes[item].ptr == ptr { break; }
        prev, item, k := item, nodes[item].next, k + 1;
      }
    }

    /** _remove_mem_info: unlink the first record of `ptr`, take it off the total and free its slot. */
    method RemoveMemInfo(t: nat, ptr: nat) returns (found: bool, ghost k: nat)
      requires Valid() && t < POOLS
      modifies this, slots, slots.words, nodes
      ensures Valid()
      ensures var bs := old(Recorded(t));
        && k <= |bs| && (found <==> k < |bs|)
        && (forall j :: 0 <= j < k ==> bs[j].ptr != ptr) && (found ==> bs[k].ptr == ptr)
        && Recorded(t) == (if found then Without(bs, k) else bs)
      ensures forall u :: 0 <= u < POOLS && u != t ==> Recorded(u) == old(Recorded(u))
      ensures totals[t] == Sum(Recorded(t)) && slots.items == old(slots.items) - (if found then 1 else 0)
    {
      hide Words, Taken, Apart, Without, Give, Linked, Sum;
      ghost var ns, c := nodes[..], chains[t];
      ghost var bs := Blocks(ns, c);
      assert |bs| == |c|;
      var item, prev;
      item, prev, k := FindNode(t, ptr);
      hide Blocks;
      if item == -1 {
        assert nodes[..] == ns;
        return false, k;
      }
      DropSound(ns, heads, totals, chains, slots.InUse(), t, k);
      ChainInUse(chains, slots.InUse(), t, k);
      assert ns[item] == nodes[item] && item * UNIT / UNIT == item;
      totals := totals[t := totals[t] - nodes[item].size];
      if prev == -1 {
        heads := heads[t := nodes[item].next];
      } else {
        nodes[prev] := nodes[prev].(next := nodes[item].next);
        assert heads[t := heads[t]] == heads;
      }
      assert nodes[..] == Unlinked(ns, c, k);
      chains := chains[t := Without(c, k)];
      var freed := slots.FreeAt(item * UNIT);
      return true, k;
    }

    /** res_mem_alloc; `got` is what the heap hands out for the rounded size. */
    method MemAlloc(t: nat, size: nat, got: Option<nat>) returns (r: Option<nat>, recorded: bool)
      requires Valid()
      modifies this, slots, slots.words, nodes
      ensures Valid() && r == (if t < POOLS then got else None)
      ensures recorded <==> r.Some? && !AllBelow(old(slots.InUse()), SLOTS)
      ensures forall u :: 0 <= u < POOLS ==>
        Recorded(u) == old(Recorded(u)) + (if recorded && u == t then [Block(got.value, RoundUp4(size))] else [])
    {
      hide Words, Taken, AllBelow, Blocks, Apart, Linked;
      if t >= POOLS || got.None? { return None, false; }
      recorded := AddMemInfo(t, Block(got.value, RoundUp4(size)));
      return got, recorded;
    }
  }

  function RoundUp4(n: nat): (r: nat)
    ensures r % 4 == 0 && n <= r < n + 4
  {
    if n % 4 != 0 then (n / 4 + 1) * 4 else n
  }

  lemma ChainInUse(chains: seq<seq<nat>>, used: set<nat>, t: nat, k: nat)
    requires Apart(chains, used) && t < POOLS && k < |chains[t]|
    ensures chains[t][k] in used
  {
  }

  lemma EmptyHead(ns: seq<Node>, head: int, c: seq<nat>)
    requires Linked(ns, head, c)
    ensures head == -1 <==> c == []
  {
  }
}
