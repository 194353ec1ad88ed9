/**
  The slot bitmap of the resource manager.  Words are 32-bit numbers; a slot is
  taken when its bit is set.  `Taken` is what the bitmap stands for: the set of
  slot numbers in use.
*/
module SlotBits {
  const WORD := 32
  const ALL_ONES := 0xffff_ffff

  function Pow2(n: nat): (r: nat)
    ensures r >= 1
  {
    if n == 0 then 1 else 2 * Pow2(n - 1)
  }

  predicate Bit(w: nat, k: nat) {
    if k == 0 then w % 2 == 1 else Bit(w / 2, k - 1)
  }

  /** w | (1 << k) */
  function SetBit(w: nat, k: nat): nat {
    if k == 0 then w / 2 * 2 + 1 else 2 * SetBit(w / 2, k - 1) + w % 2
  }

  /** w & ~(1 << k) */
  function ClearBit(w: nat, k: nat): nat {
    if k == 0 then w / 2 * 2 else 2 * ClearBit(w / 2, k - 1) + w % 2
  }

  lemma {:induction false} SetBitSets(w: nat, k: nat, j: nat)
    ensures Bit(SetBit(w, k), j) <==> j == k || Bit(w, j)
    decreases k
  {
    if k != 0 && j != 0 { SetBitSets(w / 2, k - 1, j - 1); }
  }

  lemma {:induction false} ClearBitClears(w: nat, k: nat, j: nat)
    ensures Bit(ClearBit(w, k), j) <==> j != k && Bit(w, j)
    decreases k
  {
    if k != 0 && j != 0 { ClearBitClears(w / 2, k - 1, j - 1); }
  }

  /** Clearing a bit that was just set gives the old word back. */
  lemma {:induction false} ClearUndoesSet(w: nat, k: nat)
    requires !Bit(w, k)
    ensures ClearBit(SetBit(w, k), k) == w
    decreases k
  {
    if k != 0 { ClearUndoesSet(w / 2, k - 1); }
  }

  lemma {:induction false} SetBitFits(w: nat, k: nat, n: nat)
    requires w < Pow2(n) && k < n
    ensures SetBit(w, k) < Pow2(n) && ClearBit(w, k) < Pow2(n)
    decreases k
  {
    var p := Pow2(n - 1);
    assert Pow2(n) == 2 * p;
    hide Pow2;
    assert w / 2 < p;
    if k != 0 {
      SetBitFits(w / 2, k - 1, n - 1);
      var s, c := SetBit(w / 2, k - 1), ClearBit(w / 2, k - 1);
      assert SetBit(w, k) == 2 * s + w % 2 && ClearBit(w, k) == 2 * c + w % 2;
    }
  }

  /** A word of `n` bits is all ones exactly when it has no clear bit. */
  lemma {:induction false} AllOnesIsSet(n: nat, k: nat)
    requires k < n
    ensures Bit(Pow2(n) - 1, k)
    decreases n
  {
    assert Pow2(n) - 1 == 2 * (Pow2(n - 1) - 1) + 1;
    if k != 0 { AllOnesIsSet(n - 1, k - 1); }
  }

  /** The lowest clear bit. */
  function Lowest(w: nat): nat {
    if w % 2 == 0 then 0 else 1 + Lowest(w / 2)
  }

  lemma {:induction false} LowestIsClear(w: nat)
    ensures !Bit(w, Lowest(w))
  {
    if w % 2 != 0 { LowestIsClear(w / 2); }
  }

  lemma {:induction false} BelowLowestIsSet(w: nat, j: nat)
    requires j < Lowest(w)
    ensures Bit(w, j)
    decreases j
  {
    if j != 0 { BelowLowestIsSet(w / 2, j - 1); }
  }

  lemma {:induction false} LowestFits(w: nat, n: nat)
    requires w < Pow2(n) && w != Pow2(n) - 1
    ensures Lowest(w) < n
    decreases n
  {
    if w % 2 != 0 { LowestFits(w / 2, n - 1); }
  }

  lemma Pow2Of32()
    ensures Pow2(WORD) == 0x1_0000_0000
  {
    assert Pow2(8) == 256;
    assert Pow2(16) == 256 * Pow2(8);
    assert Pow2(24) == 256 * Pow2(16);
    assert Pow2(32) == 256 * Pow2(24);
  }

  // ----- the whole bitmap -----

  ghost predicate Words(ws: seq<nat>) {
    forall i :: 0 <= i < |ws| ==> ws[i] < Pow2(WORD)
  }

  predicate IsTaken(ws: seq<nat>, p: nat)
    requires p < WORD * |ws|
  {
    Bit(ws[p / WORD], p % WORD)
  }

  ghost function Taken(ws: seq<nat>): set<nat> {
    set p: nat | p < WORD * |ws| && IsTaken(ws, p)
  }

  function Take(ws: seq<nat>, p: nat): seq<nat>
    requires p < WORD * |ws|
  {
    ws[p / WORD := SetBit(ws[p / WORD], p % WORD)]
  }

  function Give(ws: seq<nat>, p: nat): seq<nat>
    requires p < WORD * |ws|
  {
    ws[p / WORD := ClearBit(ws[p / WORD], p % WORD)]
  }

  lemma TakeAdds(ws: seq<nat>, p: nat)
    requires p < WORD * |ws| && Words(ws)
    ensures Taken(Take(ws, p)) == Taken(ws) + {p} && Words(Take(ws, p))
  {
    var ws' := Take(ws, p);
    forall q: nat | q < WORD * |ws| ensures IsTaken(ws', q) <==> q == p || IsTaken(ws, q) {
      SetBitSets(ws[p / WORD], p % WORD, q % WORD);
    }
    SetBitFits(ws[p / WORD], p % WORD, WORD);
  }

  lemma GiveRemoves(ws: seq<nat>, p: nat)
    requires p < WORD * |ws| && Words(ws)
    ensures Taken(Give(ws, p)) == Taken(ws) - {p} && Words(Give(ws, p))
  {
    var ws' := Give(ws, p);
    forall q: nat | q < WORD * |ws| ensures IsTaken(ws', q) <==> q != p && IsTaken(ws, q) {
      ClearBitClears(ws[p / WORD], p % WORD, q % WORD);
    }
    SetBitFits(ws[p / WORD], p % WORD, WORD);
  }

  /** Freeing the slot just allocated restores the bitmap bit for bit. */
  lemma GiveUndoesTake(ws: seq<nat>, p: nat)
    requires p < WORD * |ws| && p !in Taken(ws)
    ensures Give(Take(ws, p), p) == ws
  {
    ClearUndoesSet(ws[p / WORD], p % WORD);
  }

  ghost predicate AllBelow(s: set<nat>, n: nat) {
    forall q: nat :: q < n ==> q in s
  }

  /** A word of ones extends a run of slots in use by 32. */
  lemma FullWord(ws: seq<nat>, i: nat)
    requires i < |ws| && ws[i] == ALL_ONES && AllBelow(Taken(ws), i * WORD)
    ensures AllBelow(Taken(ws), (i + 1) * WORD)
  {
    forall q: nat | q < (i + 1) * WORD ensures q in Taken(ws) {
      if i * WORD <= q {
        Pow2Of32();
        AllOnesIsSet(WORD, q % WORD);
        assert q / WORD == i;
      }
    }
  }

  /** In any other word the lowest clear bit is the lowest free slot. */
  lemma FreeInWord(ws: seq<nat>, i: nat)
    requires Words(ws) && i < |ws| && ws[i] != ALL_ONES && AllBelow(Taken(ws), i * WORD)
    ensures Lowest(ws[i]) < WORD
    ensures var p := i * WORD + Lowest(ws[i]);
      p / WORD == i && p % WORD == Lowest(ws[i]) && p !in Taken(ws) && AllBelow(Taken(ws), p)
  {
    Pow2Of32();
    LowestFits(ws[i], WORD);
    LowestIsClear(ws[i]);
    var p := i * WORD + Lowest(ws[i]);
    forall q: nat | q < p ensures q in Taken(ws) {
      if i * WORD <= q {
        assert q / WORD == i;
        BelowLowestIsSet(ws[i], q % WORD);
      }
    }
  }

  /** sizeof(mem_info_t), the size of a slot. */
  const UNIT := 16
}
