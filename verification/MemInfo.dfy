/**
  The bookkeeping of the resource pools: one singly linked list per pool, whose
  nodes live in slots of the allocator it accounts for, and a running total of
  the sizes on each list.
*/
module MemInfo {
  import opened SlotBits
  import opened SlotArray

  const POOLS := 3

  datatype Node = Node(ptr: nat, size: nat, next: int)
  datatype Block = Block(ptr: nat, size: nat)

  function Sum(bs: seq<Block>): nat {
    if bs == [] then 0 else bs[0].size + Sum(bs[1..])
  }

  lemma {:induction false} SumSplit(a: seq<Block>, b: seq<Block>)
    ensures Sum(a + b) == Sum(a) + Sum(b)
  {
    if a == [] {
      assert a + b == b;
    } else {
      assert (a + b)[1..] == a[1..] + b;
      SumSplit(a[1..], b);
    }
  }

  // ----- a list in slot memory -----

  function At(c: seq<nat>, i: nat): int { if i < |c| then c[i] else -1 }

  ghost predicate InBounds(ns: seq<Node>, c: seq<nat>) {
    forall i :: 0 <= i < |c| ==> c[i] < |ns|
  }

  /** `c` lists the slots of the chain that starts at `head`. */
  ghost predicate Linked(ns: seq<Node>, head: int, c: seq<nat>) {
    && InBounds(ns, c)
    && (forall i, j :: 0 <= i < j < |c| ==> c[i] != c[j])
    && head == At(c, 0)
    && forall i {:trigger ns[c[i]]} :: 0 <= i < |c| ==> ns[c[i]].next == At(c, i + 1)
  }

  ghost function Blocks(ns: seq<Node>, c: seq<nat>): seq<Block>
    requires InBounds(ns, c)
  {
    seq(|c|, i requires 0 <= i < |c| => Block(ns[c[i]].ptr, ns[c[i]].size))
  }

  function Without<T>(s: seq<T>, k: nat): seq<T>
    requires k < |s|
  {
    s[..k] + s[k + 1..]
  }

  /** Linking a fresh slot behind the last node. */
  lemma LinkKeeps(ns: seq<Node>, head: int, c: seq<nat>, p: nat, b: Block)
    requires Linked(ns, head, c) && p < |ns| && p !in c
    ensures Linked(Extended(ns, c, p, b), if c == [] then p else head, c + [p])
  {
    var ns2, c2 := Extended(ns, c, p, b), c + [p];
    forall i | 0 <= i < |c2| ensures ns2[c2[i]].next == At(c2, i + 1) {
      if i < |c| - 1 { assert ns2[c[i]] == ns[c[i]]; }
    }
  }

  lemma LinkBlocks(ns: seq<Node>, head: int, c: seq<nat>, p: nat, b: Block)
    requires Linked(ns, head, c) && p < |ns| && p !in c
    ensures InBounds(Extended(ns, c, p, b), c + [p])
    ensures Blocks(Extended(ns, c, p, b), c + [p]) == Blocks(ns, c) + [b]
  {
  }

  lemma WithoutAt<T>(s: seq<T>, k: nat)
    requires k < |s|
    ensures forall i :: 0 <= i < |s| - 1 ==> Without(s, k)[i] == s[if i < k then i else i + 1]
  {
  }

  ghost function Unlinked(ns: seq<Node>, c: seq<nat>, k: nat): seq<Node>
    requires k < |c| && InBounds(ns, c)
  {
    if k == 0 then ns else ns[c[k - 1] := ns[c[k - 1]].(next := ns[c[k]].next)]
  }

  /** Unlinking node `k` by way of the node before it, or of the head. */
  lemma UnlinkKeeps(ns: seq<Node>, head: int, c: seq<nat>, k: nat)
    requires Linked(ns, head, c) && k < |c|
    ensures Linked(Unlinked(ns, c, k), if k == 0 then ns[c[k]].next else head, Without(c, k))
  {
    var ns1, c1 := Unlinked(ns, c, k), Without(c, k);
    WithoutAt(c, k);
    hide Without;
    forall i | 0 <= i < |c1| ensures ns1[c1[i]].next == At(c1, i + 1) {
      var j := if i < k then i else i + 1;
      assert c1[i] == c[j];
      if i + 1 == k {
        assert ns1[c[j]].next == ns[c[k]].next == At(c, k + 1);
      } else {
        assert ns1[c[j]] == ns[c[j]];
      }
    }
  }

  lemma UnlinkBlocks(ns: seq<Node>, head: int, c: seq<nat>, k: nat)
    requires Linked(ns, head, c) && k < |c|
    ensures InBounds(ns, Without(c, k)) && InBounds(Unlinked(ns, c, k), Without(c, k))
    ensures Blocks(Unlinked(ns, c, k), Without(c, k)) == Without(Blocks(ns, c), k)
  {
    WithoutAt(c, k);
    WithoutAt(Blocks(ns, c), k);
  }

  /** Memory outside a chain does not matter to it. */
  lemma OthersKeep(ns: seq<Node>, ns': seq<Node>, head: int, c: seq<nat>)
    requires Linked(ns, head, c) && |ns'| == |ns| && forall i :: 0 <= i < |c| ==> ns'[c[i]] == ns[c[i]]
    ensures Linked(ns', head, c) && Blocks(ns', c) == Blocks(ns, c)
  {
  }

  // ----- all pools together -----

  /** Every chain holds slots in use, and no slot is in two chains. */
  ghost predicate Apart(chains: seq<seq<nat>>, used: set<nat>) {
    && |chains| == POOLS
    && (forall t, x :: 0 <= t < POOLS && x in chains[t] ==> x in used)
    && (forall t, u, x :: 0 <= t < POOLS && 0 <= u < POOLS && t != u && x in chains[t] ==> x !in chains[u])
  }

  ghost predicate AllLinked(ns: seq<Node>, heads: seq<int>, chains: seq<seq<nat>>) {
    && |heads| == |chains| == POOLS
    && forall t :: 0 <= t < POOLS ==> InBounds(ns, chains[t]) && Linked(ns, heads[t], chains[t])
  }

  ghost predicate Summed(ns: seq<Node>, totals: seq<int>, chains: seq<seq<nat>>)
    requires |chains| == POOLS && forall t :: 0 <= t < POOLS ==> InBounds(ns, chains[t])
  {
    |totals| == POOLS && forall t :: 0 <= t < POOLS ==> totals[t] == Sum(Blocks(ns, chains[t]))
  }

  ghost predicate Sound(ns: seq<Node>, heads: seq<int>, totals: seq<int>, chains: seq<seq<nat>>, used: set<nat>) {
    Apart(chains, used) && AllLinked(ns, heads, chains) && Summed(ns, totals, chains)
  }

  /** The new node's memory, linked behind the last node of chain `c`. */
  ghost function Extended(ns: seq<Node>, c: seq<nat>, p: nat, b: Block): seq<Node>
    requires p < |ns| && InBounds(ns, c)
  {
    var ns1 := ns[p := Node(b.ptr, b.size, -1)];
    if c == [] then ns1 else ns1[c[|c| - 1] := ns1[c[|c| - 1]].(next := p)]
  }

  lemma AddApart(chains: seq<seq<nat>>, used: set<nat>, t: nat, p: nat)
    requires Apart(chains, used) && t < POOLS && p !in used
    ensures Apart(chains[t := chains[t] + [p]], used + {p})
  {
  }

  lemma DropApart(chains: seq<seq<nat>>, used: set<nat>, t: nat, k: nat)
    requires Apart(chains, used) && t < POOLS && k < |chains[t]|
    requires forall i, j :: 0 <= i < j < |chains[t]| ==> chains[t][i] != chains[t][j]
    ensures Apart(chains[t := Without(chains[t], k)], used - {chains[t][k]})
  {
    var p, c1 := chains[t][k], Without(chains[t], k);
    WithoutAt(chains[t], k);
    assert forall x :: x in c1 ==> x in chains[t] && x != p;
  }

  /** A change of memory that keeps the nodes of all other chains. */
  lemma OneChainChanges(
    ns: seq<Node>, ns': seq<Node>, heads: seq<int>, chains: seq<seq<nat>>, used: set<nat>,
    t: nat, head: int, c: seq<nat>)
    requires Apart(chains, used) && AllLinked(ns, heads, chains) && t < POOLS && |ns'| == |ns|
    requires InBounds(ns', c) && Linked(ns', head, c)
    requires forall p :: 0 <= p < |ns| && p in used && p !in chains[t] ==> ns'[p] == ns[p]
    ensures AllLinked(ns', heads[t := head], chains[t := c])
    ensures forall u :: 0 <= u < POOLS && u != t ==> Blocks(ns', chains[u]) == Blocks(ns, chains[u])
  {
    hide Linked, Blocks;
    forall u | 0 <= u < POOLS && u != t
      ensures InBounds(ns', chains[u]) && Linked(ns', heads[u], chains[u])
      ensures Blocks(ns', chains[u]) == Blocks(ns, chains[u])
    {
      assert Linked(ns, heads[u], chains[u]);
      forall i | 0 <= i < |chains[u]| ensures ns'[chains[u][i]] == ns[chains[u][i]] {
        assert chains[u][i] in chains[u];
      }
      OthersKeep(ns, ns', heads[u], chains[u]);
    }
  }

  lemma AddSound(
    ns: seq<Node>, heads: seq<int>, totals: seq<int>, chains: seq<seq<nat>>, used: set<nat>, t: nat, p: nat, b: Block)
    requires Sound(ns, heads, totals, chains, used) && t < POOLS && p < |ns| && p !in used
    ensures var ns', c := Extended(ns, chains[t], p, b), chains[t];
      && InBounds(ns', c + [p]) && Blocks(ns', c + [p]) == Blocks(ns, c) + [b]
      && Sound(ns', heads[t := if c == [] then p else heads[t]], totals[t := totals[t] + b.size],
               chains[t := c + [p]], used + {p})
      && forall u :: 0 <= u < POOLS && u != t ==>
        InBounds(ns', chains[u]) && Blocks(ns', chains[u]) == Blocks(ns, chains[u])
  {
    hide Linked, Blocks;
    var ns', c := Extended(ns, chains[t], p, b), chains[t];
    assert p !in c;
    assert Linked(ns, heads[t], c);
    AddApart(chains, used, t, p);
    LinkKeeps(ns, heads[t], c, p, b);
    LinkBlocks(ns, heads[t], c, p, b);
    SumSplit(Blocks(ns, c), [b]);
    OneChainChanges(ns, ns', heads, chains, used, t, if c == [] then p else heads[t], c + [p]);
  }

  lemma DropSound(
    ns: seq<Node>, heads: seq<int>, totals: seq<int>, chains: seq<seq<nat>>, used: set<nat>, t: nat, k: nat)
    requires Sound(ns, heads, totals, chains, used) && t < POOLS && k < |chains[t]|
    ensures var c, ns' := chains[t], Unlinked(ns, chains[t], k);
      var head := if k == 0 then ns[c[k]].next else heads[t];
      && InBounds(ns', Without(c, k)) && Blocks(ns', Without(c, k)) == Without(Blocks(ns, c), k)
      && Sound(ns', heads[t := head], totals[t := totals[t] - ns[c[k]].size], chains[t := Without(c, k)], used - {c[k]})
      && forall u :: 0 <= u < POOLS && u != t ==>
        InBounds(ns', chains[u]) && Blocks(ns', chains[u]) == Blocks(ns, chains[u])
  {
    var c, ns', bs := chains[t], Unlinked(ns, chains[t], k), Blocks(ns, chains[t]);
    var head := if k == 0 then ns[c[k]].next else heads[t];
    assert Linked(ns, heads[t], c);
    assert bs[k].size == ns[c[k]].size && forall i, j :: 0 <= i < j < |c| ==> c[i] != c[j];
    assert forall p :: 0 <= p < |ns| && p !in c ==> ns'[p] == ns[p];
    hide Unlinked;
    hide Linked, Blocks, Without;
    DropApart(chains, used, t, k);
    UnlinkKeeps(ns, heads[t], c, k);
    UnlinkBlocks(ns, heads[t], c, k);
    DropSum(bs, k);
    OneChainChanges(ns, ns', heads, chains, used, t, head, Without(c, k));
  }

  lemma DropSum(bs: seq<Block>, k: nat)
    requires k < |bs|
    ensures Sum(Without(bs, k)) == Sum(bs) - bs[k].size
  {
    assert bs == bs[..k] + ([bs[k]] + bs[k + 1..]);
    SumSplit(bs[..k], [bs[k]] + bs[k + 1..]);
    SumSplit([bs[k]], bs[k + 1..]);
    SumSplit(bs[..k], bs[k + 1..]);
  }
}
