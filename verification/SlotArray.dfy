/** The slot allocator: a bitmap scanned word by word, with a running count of slots in use. */
module SlotArray {
  import opened SlotBits

  const WORDS := 16
  const SLOTS := WORDS * WORD

  class Slots {
    const words: array<nat>
    var items: int

    ghost predicate Valid()
      reads this, words
    {
      words.Length == WORDS && Words(words[..]) && items == |Taken(words[..])|
    }

    ghost function InUse(): set<nat>
      reads words
    {
      Taken(words[..])
    }

    constructor ()
      ensures Valid() && fresh(words) && InUse() == {} && items == 0
    {
      words := new nat[WORDS](_ => 0);
      items := 0;
      new;
      forall p: nat | p < SLOTS ensures !IsTaken(words[..], p) { ZeroIsClear(p % WORD); }
      assert Taken(words[..]) == {};
    }

    /** The inner loop of res_array_alloc, shifting the word until its last bit is clear. */
    static method LowestClear(w: nat) returns (k: nat)
      ensures k == Lowest(w)
    {
      var check := w;
      k := 0;
      while check % 2 != 0
        invariant k + Lowest(check) == Lowest(w)
        decreases check
      {
        check, k := check / 2, k + 1;
      }
    }

    /** res_array_alloc: the lowest slot not in use; none exactly when all are in use. */
    method Alloc() returns (ok: bool, p: nat)
      requires Valid()
      modifies this, words
      ensures Valid()
      ensures ok <==> !AllBelow(old(InUse()), SLOTS)
      ensures ok ==> p < SLOTS && p !in old(InUse()) && AllBelow(old(InUse()), p)
      ensures ok ==> words[..] == Take(old(words[..]), p) && InUse() == old(InUse()) + {p}
      ensures !ok ==> unchanged(this) && words[..] == old(words[..])
    {
      hide Taken, AllBelow, Words;
      ghost var ws := words[..];
      var i := 0;
      NoneBelow(Taken(ws));
      while i < WORDS
        invariant 0 <= i <= WORDS && unchanged(this) && words[..] == ws
        invariant AllBelow(Taken(ws), i * WORD)
      {
        assert words[i] == ws[i];
        if words[i] != ALL_ONES {
          FreeInWord(ws, i);
          var bit := LowestClear(words[i]);
          p := i * WORD + bit;
          TakeAdds(ws, p);
          MissingOne(Taken(ws), p, SLOTS);
          words[i] := SetBit(words[i], bit);
          assert words[..] == Take(ws, p);
          items := items + 1;
          return true, p;
        }
        FullWord(ws, i);
        i := i + 1;
      }
      return false, 0;
    }

    /**
      res_array_free of a pointer `offset` bytes into the array.  The count goes
      down for any pointer inside the array, so it stays exact only for slots in use.
    */
    method FreeAt(offset: int) returns (freed: bool)
      requires Valid()
      modifies this, words
      ensures !(0 <= offset < ARRAY_SIZE) ==> !freed && unchanged(this) && words[..] == old(words[..])
      ensures 0 <= offset < ARRAY_SIZE ==>
        && (freed <==> offset / UNIT < SLOTS)
        && InUse() == old(InUse()) - {offset / UNIT}
        && (freed ==> words[..] == Give(old(words[..]), offset / UNIT))
        && (Valid() <==> offset / UNIT in old(InUse()))
    {
      hide Taken, IsTaken, Words;
      if offset < 0 || offset >= ARRAY_SIZE { return false; }
      ghost var ws := words[..];
      items := items - 1;
      var pos := offset / UNIT;
      if pos < SLOTS {
        GiveRemoves(ws, pos);
        words[pos / WORD] := ClearBit(words[pos / WORD], pos % WORD);
        assert words[..] == Give(ws, pos);
        assert pos !in Taken(ws) ==> Taken(ws) - {pos} == Taken(ws);
        return true;
      }
      assert pos !in Taken(ws) by { TakenBounded(ws, pos); }
      assert Taken(ws) - {pos} == Taken(ws);
      return false;
    }
  }

  /** MAX_ARRAY_INNER_SIZE: the array is larger than its slots. */
  const ARRAY_SIZE := 32 * 1024

  /** Slot `p` is in use in some state of the allocator. */
  ghost predicate InSomeState(ws: seq<nat>, p: nat) { |ws| == WORDS && Words(ws) && p in Taken(ws) }

  /** Data of `size` bytes at the slots `p` and `q` do not overlap. */
  predicate Disjoint(p: nat, q: nat, size: nat) { p * UNIT + size <= q * UNIT || q * UNIT + size <= p * UNIT }

  /**
    What callers keep in the slots they hold never overlaps, in any state of the
    allocator, exactly if it fits one slot; then it also lies inside the array.
  */
  lemma SlotsDisjoint(size: nat)
    ensures (forall ws, p: nat, q: nat ::
        InSomeState(ws, p) && InSomeState(ws, q) && p != q ==> Disjoint(p, q, size)) <==> size <= UNIT
    ensures size <= UNIT ==> forall ws, p: nat :: InSomeState(ws, p) ==> p * UNIT + size <= ARRAY_SIZE
  {
    if size > UNIT {
      var ws := seq(WORDS, _ => 0);
      TakeAdds(ws, 0);
      TakeAdds(Take(ws, 0), 1);
      var both := Take(Take(ws, 0), 1);
      assert InSomeState(both, 0) && InSomeState(both, 1) && !Disjoint(0, 1, size);
    }
  }

  lemma TakenBounded(ws: seq<nat>, p: nat)
    requires WORD * |ws| <= p
    ensures p !in Taken(ws)
  {
  }

  lemma NoneBelow(s: set<nat>)
    ensures AllBelow(s, 0)
  {
  }

  lemma MissingOne(s: set<nat>, p: nat, n: nat)
    requires p < n && p !in s
    ensures !AllBelow(s, n)
  {
  }

  lemma {:induction false} ZeroIsClear(k: nat)
    ensures !Bit(0, k)
  {
    if k != 0 { ZeroIsClear(k - 1); }
  }
}
