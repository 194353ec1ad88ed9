/** One resource cache as the firmware keeps it: a singly linked list of blocks, newest first. */
module ResCacheList {
  import opened Basics
  import opened R = ResCache

  class Block {
    var source: nat
    var id: nat
    var size: nat
    var refs: nat
    var addr: nat
    var next: Block?

    constructor (source: nat, id: nat, size: nat, addr: nat, next: Block?)
      ensures Value() == Entry(source, id, size, 1, addr) && this.next == next
    {
      this.source, this.id, this.size, this.refs, this.addr, this.next := source, id, size, 1, addr, next;
    }

    ghost function Value(): Entry
      reads this
    {
      Entry(source, id, size, refs, addr)
    }
  }

  class BlockCache {
    var head: Block?
    ghost var spine: seq<Block>
    ghost var es: seq<Entry>
    ghost var freed: seq<nat>

    ghost function Node(i: nat): Block?
      reads this
    {
      if i < |spine| then spine[i] else null
    }

    ghost predicate Valid()
      reads this, spine
    {
      && head == Node(0) && |es| == |spine|
      && (forall i {:trigger spine[i].next} :: 0 <= i < |spine| ==> spine[i].next == Node(i + 1))
      && (forall i {:trigger es[i]} {:trigger spine[i].Value()} :: 0 <= i < |spine| ==> spine[i].Value() == es[i])
      && (forall i, j :: 0 <= i < j < |spine| ==> spine[i] != spine[j])
    }

    ghost function View(): Cache
      reads this
    {
      Cache(es, freed)
    }

    constructor ()
      ensures Valid() && View() == Cache([], [])
    {
      head, spine, es, freed := null, [], [], [];
    }

    /** The search loop of _get and _try. */
    method Search(k: Key) returns (item: Block?, ghost i: nat)
      requires Valid()
      ensures i == FindKey(es, k) && item == Node(i)
    {
      item, i := head, 0;
      while item != null && !(item.source == k.source && item.id == k.id)
        invariant i <= |spine| && item == Node(i)
        invariant forall j :: 0 <= j < i ==> !Matches(es[j], k)
        decreases |spine| - i
      {
        assert spine[i].Value() == es[i];
        item, i := item.next, i + 1;
      }
      assert i < |spine| ==> spine[i].Value() == es[i];
    }

    method SetRefs(item: Block, ghost i: nat, n: nat)
      requires Valid() && i < |spine| && item == spine[i]
      modifies item`refs, this`es
      ensures Valid() && es == old(es)[i := old(es)[i].(refs := n)]
    {
      item.refs := n;
      es := es[i := es[i].(refs := n)];
    }

    /** _get_resource_scene_buffer and its text twin. */
    method GetBuffer(k: Key, size: nat, heap: Option<nat>) returns (r: Option<nat>)
      requires Valid()
      modifies this, spine
      ensures Valid() && View() == Step(old(View()), Get(k, size, heap)) && r == Handed(old(View()), Get(k, size, heap))
    {
      hide FindKey;
      var item, i := Search(k);
      if item != null {
        SetRefs(item, i, item.refs + 1);
        return Some(item.addr);
      }
      if heap.None? { return None; }
      var block := new Block(k.source, k.id, HEADER + size, heap.value + HEADER, head);
      head, spine, es := block, [block] + spine, [block.Value()] + es;
      return Some(block.addr);
    }

    /** _try_resource_scene_buffer and its text twin. */
    method TryBuffer(k: Key) returns (r: Option<nat>)
      requires Valid()
      modifies this, spine
      ensures Valid() && View() == Step(old(View()), Try(k)) && r == Handed(old(View()), Try(k))
    {
      hide FindKey;
      var item, i := Search(k);
      if item == null { return None; }
      SetRefs(item, i, item.refs + 1);
      return Some(item.addr);
    }

    /** The search loop of _free: the block at `p` and the one before it. */
    method SearchAddr(p: nat) returns (item: Block?, prev: Block?, ghost i: nat)
      requires Valid()
      ensures i == FindAddr(es, p) && item == Node(i) && prev == (if i == 0 then null else Node(i - 1))
    {
      item, prev, i := head, null, 0;
      while item != null && item.addr != p
        invariant i <= |spine| && item == Node(i) && prev == if i == 0 then null else Node(i - 1)
        invariant forall j :: 0 <= j < i ==> es[j].addr != p
        decreases |spine| - i
      {
        assert spine[i].Value() == es[i];
        prev, item, i := item, item.next, i + 1;
      }
      assert i < |spine| ==> spine[i].Value() == es[i];
    }

    /** _free_resource_scene_buffer and its text twin: drop a reference, or unlink the block with its last one. */
    method FreeBuffer(p: nat)
      requires Valid()
      modifies this, spine
      ensures Valid() && View() == Step(old(View()), Free(p))
    {
      hide FindAddr, Removed;
      var item, prev, i := SearchAddr(p);
      if item == null { return; }
      assert spine[i].Value() == es[i];
      if item.refs > 1 {
        SetRefs(item, i, item.refs - 1);
        return;
      }
      Unlink(item, prev, i);
      freed := freed + [p];
    }

    method Unlink(item: Block, prev: Block?, ghost i: nat)
      requires Valid() && i < |spine| && item == spine[i] && prev == (if i == 0 then null else Node(i - 1))
      modifies this, spine
      ensures Valid() && es == Removed(old(es), i) && freed == old(freed)
    {
      ghost var sp := spine;
      if prev == null { head := item.next; } else { prev.next := item.next; }
      spine, es := sp[..i] + sp[i + 1..], Removed(es, i);
      hide Removed;
      assert forall j :: 0 <= j < |spine| ==> spine[j] == sp[if j < i then j else j + 1];
      forall j | 0 <= j < |spine| ensures spine[j].next == Node(j + 1) && spine[j].Value() == es[j] {
        var q := if j < i then j else j + 1;
        assert spine[j] == sp[q] && old(sp[q].Value()) == old(es)[q];
      }
    }
  }
}
