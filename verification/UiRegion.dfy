/** Rectangles of the display and their subtraction.  Coordinates are 16-bit; both corners belong to a region. */
module UiRegion {
  type int16 = x: int | -0x8000 <= x < 0x8000

  datatype Region = Region(x1: int16, y1: int16, x2: int16, y2: int16)

  predicate PointOn(r: Region, x: int, y: int) { r.x1 <= x <= r.x2 && r.y1 <= y <= r.y2 }

  predicate Empty(r: Region) { r.x2 < r.x1 || r.y2 < r.y1 }

  /** Width and height are not negative, though they may be zero. */
  predicate Upright(r: Region) { r.x1 <= r.x2 + 1 && r.y1 <= r.y2 + 1 }

  function Lesser(a: int16, b: int16): int16 { if a < b then a else b }
  function Greater(a: int16, b: int16): int16 { if a > b then a else b }

  /** ui_region_is_on. */
  predicate IsOn(a: Region, b: Region) {
    a.x1 <= b.x2 && a.x2 >= b.x1 && a.y1 <= b.y2 && a.y2 >= b.y1
  }

  /** ui_region_intersect, with its verdict whether there is a common part. */
  function Intersect(a: Region, b: Region): (r: (Region, bool))
    ensures forall x, y :: PointOn(r.0, x, y) <==> PointOn(a, x, y) && PointOn(b, x, y)
    ensures r.1 <==> exists x, y :: PointOn(a, x, y) && PointOn(b, x, y)
  {
    var r := Region(Greater(a.x1, b.x1), Greater(a.y1, b.y1), Lesser(a.x2, b.x2), Lesser(a.y2, b.y2));
    assert !Empty(r) ==> PointOn(r, r.x1, r.y1);
    (r, !Empty(r))
  }

  /** Regions have a point in common exactly if neither is empty and the overlap test says so. */
  lemma IsOnIsOverlap(a: Region, b: Region)
    ensures Intersect(a, b).1 <==> IsOn(a, b) && !Empty(a) && !Empty(b)
  {
    if IsOn(a, b) && !Empty(a) && !Empty(b) {
      var x, y := Greater(a.x1, b.x1), Greater(a.y1, b.y1);
      assert PointOn(a, x, y) && PointOn(b, x, y);
    }
  }

  // ----- subtraction -----

  /** The pieces ui_region_subtract stores: above, left, right and below the excluded part. */
  function Top(r: Region, e: Region): seq<Region> {
    if r.y1 < e.y1 then [Region(r.x1, r.y1, r.x2, e.y1 - 1)] else []
  }

  function Left(r: Region, e: Region): seq<Region> {
    if r.x1 < e.x1 then [Region(r.x1, Greater(r.y1, e.y1), e.x1 - 1, Lesser(r.y2, e.y2))] else []
  }

  function Right(r: Region, e: Region): seq<Region> {
    if r.x2 > e.x2 then [Region(e.x2 + 1, Greater(r.y1, e.y1), r.x2, Lesser(r.y2, e.y2))] else []
  }

  function Bottom(r: Region, e: Region): seq<Region> {
    if r.y2 > e.y2 then [Region(r.x1, e.y2 + 1, r.x2, r.y2)] else []
  }

  /** The early return: meant for a region inside `e`, but it compares with the corner (x1, y1) of `e` only. */
  predicate CutShort(r: Region, e: Region) {
    r.x1 >= e.x1 && r.y1 >= e.y1 && r.x2 <= e.x1 && r.y2 <= e.y1
  }

  function Subtract(r: Region, e: Region): (ps: seq<Region>)
    ensures |ps| <= 4
  {
    if CutShort(r, e) then []
    else if !IsOn(r, e) then [r]
    else Top(r, e) + Left(r, e) + Right(r, e) + Bottom(r, e)
  }

  /** How many of the pieces a point lies on. */
  function Cover(ps: seq<Region>, x: int, y: int): nat {
    if ps == [] then 0 else (if PointOn(ps[0], x, y) then 1 else 0) + Cover(ps[1..], x, y)
  }

  lemma {:induction false} CoverConcat(a: seq<Region>, b: seq<Region>, x: int, y: int)
    ensures Cover(a + b, x, y) == Cover(a, x, y) + Cover(b, x, y)
  {
    if a == [] {
      assert a + b == b;
    } else {
      assert (a + b)[1..] == a[1..] + b;
      CoverConcat(a[1..], b, x, y);
    }
  }

  lemma FourPieces(r: Region, e: Region, x: int, y: int)
    ensures Cover(Top(r, e) + Left(r, e) + Right(r, e) + Bottom(r, e), x, y)
         == Cover(Top(r, e), x, y) + Cover(Left(r, e), x, y) + Cover(Right(r, e), x, y) + Cover(Bottom(r, e), x, y)
  {
    CoverConcat(Top(r, e) + Left(r, e) + Right(r, e), Bottom(r, e), x, y);
    CoverConcat(Top(r, e) + Left(r, e), Right(r, e), x, y);
    CoverConcat(Top(r, e), Left(r, e), x, y);
  }

  /** Every point of `r` outside `e` lies on exactly one piece, and no other point on any. */
  ghost predicate Partition(ps: seq<Region>, r: Region, e: Region) {
    forall x, y :: Cover(ps, x, y) == if PointOn(r, x, y) && !PointOn(e, x, y) then 1 else 0
  }

  /**
    Subtracting is an exact partition, for any region and any upright region to
    exclude, if and only if the early return is not taken for a single pixel at
    the corner of an empty one.
  */
  lemma SubtractExact(r: Region, e: Region)
    requires Upright(e)
    ensures Partition(Subtract(r, e), r, e) <==> !(CutShort(r, e) && !Empty(r) && Empty(e))
  {
    if CutShort(r, e) && !Empty(r) && Empty(e) {
      assert PointOn(r, r.x1, r.y1) && !PointOn(e, r.x1, r.y1);
      assert Cover(Subtract(r, e), r.x1, r.y1) == 0;
    } else {
      forall x, y ensures Cover(Subtract(r, e), x, y) == if PointOn(r, x, y) && !PointOn(e, x, y) then 1 else 0 {
        PointCovered(r, e, x, y);
      }
    }
  }

  lemma PointCovered(r: Region, e: Region, x: int, y: int)
    requires Upright(e) && !(CutShort(r, e) && !Empty(r) && Empty(e))
    ensures Cover(Subtract(r, e), x, y) == if PointOn(r, x, y) && !PointOn(e, x, y) then 1 else 0
  {
    if CutShort(r, e) {
    } else if !IsOn(r, e) {
      assert [r][1..] == [];
    } else {
      FourPieces(r, e, x, y);
      OneOrNone(Top(r, e), x, y);
      OneOrNone(Left(r, e), x, y);
      OneOrNone(Right(r, e), x, y);
      OneOrNone(Bottom(r, e), x, y);
    }
  }

  lemma OneOrNone(ps: seq<Region>, x: int, y: int)
    requires |ps| <= 1
    ensures Cover(ps, x, y) == if ps != [] && PointOn(ps[0], x, y) then 1 else 0
  {
    if ps != [] { assert ps[1..] == []; }
  }

  /** Of regions that are not empty, no piece is empty. */
  lemma PiecesNotEmpty(r: Region, e: Region)
    requires !Empty(r) && !Empty(e)
    ensures forall i :: 0 <= i < |Subtract(r, e)| ==> !Empty(Subtract(r, e)[i])
  {
  }

  // ----- sizes -----

  function Area(r: Region): int { (r.x2 - r.x1 + 1) * (r.y2 - r.y1 + 1) }

  function Total(ps: seq<Region>): int { if ps == [] then 0 else Area(ps[0]) + Total(ps[1..]) }

  /** ui_region_get_size: the product in 32-bit arithmetic. */
  function GetSize(r: Region): (n: int)
    ensures -0x8000_0000 <= n < 0x8000_0000 && exists k :: n == Area(r) - k * 0x1_0000_0000
    ensures !Empty(r) ==> (n == Area(r) <==> Area(r) < 0x8000_0000)
  {
    assert !Empty(r) ==> Area(r) >= 1 by {
      if !Empty(r) { ProductPositive(r.x2 - r.x1 + 1, r.y2 - r.y1 + 1); }
    }
    var n := Area(r) % 0x1_0000_0000;
    assert n == Area(r) - (Area(r) / 0x1_0000_0000) * 0x1_0000_0000;
    assert n - 0x1_0000_0000 == Area(r) - (Area(r) / 0x1_0000_0000 + 1) * 0x1_0000_0000;
    if n < 0x8000_0000 then n else n - 0x1_0000_0000
  }

  lemma ProductPositive(a: int, b: int)
    requires 1 <= a && 1 <= b
    ensures 1 <= a * b
  {
  }

  /** The common part, and the sizes of the pieces around it. */
  function Common(r: Region, e: Region): Region {
    Region(Greater(r.x1, e.x1), Greater(r.y1, e.y1), Lesser(r.x2, e.x2), Lesser(r.y2, e.y2))
  }

  lemma BandSizes(r: Region, e: Region)
    ensures Total(Top(r, e)) == (r.x2 - r.x1 + 1) * (Common(r, e).y1 - r.y1)
    ensures Total(Bottom(r, e)) == (r.x2 - r.x1 + 1) * (r.y2 - Common(r, e).y2)
  {
    hide Total;
    Single(Top(r, e));
    Single(Bottom(r, e));
  }

  lemma SideSizes(r: Region, e: Region)
    ensures var i := Common(r, e);
      && Total(Left(r, e)) == (i.x1 - r.x1) * (i.y2 - i.y1 + 1)
      && Total(Right(r, e)) == (r.x2 - i.x2) * (i.y2 - i.y1 + 1)
  {
    hide Total;
    Single(Left(r, e));
    Single(Right(r, e));
  }

  lemma FlatIsNothing(r: Region)
    requires Upright(r) && Empty(r)
    ensures Area(r) == 0
  {
  }

  /**
    The sizes of the pieces add up to what is left of the region, for all upright
    regions, under the same condition.
  */
  lemma SizesAddUp(r: Region, e: Region)
    requires Upright(r) && Upright(e)
    ensures var i := Intersect(r, e);
      Total(Subtract(r, e)) == Area(r) - (if i.1 then Area(i.0) else 0)
      <==> !(CutShort(r, e) && !Empty(r) && Empty(e))
  {
    IsOnIsOverlap(r, e);
    assert Intersect(r, e).0 == Common(r, e);
    var i := Common(r, e);
    if CutShort(r, e) {
      if Empty(r) { FlatIsNothing(r); }
    } else if !IsOn(r, e) {
      Single([r]);
    } else {
      assert Upright(i);
      if Empty(i) { FlatIsNothing(i); }
      hide Total, Top, Left, Right, Bottom, Intersect;
      TotalOfFour(r, e);
      BandSizes(r, e);
      SideSizes(r, e);
      Grid(i.x1 - r.x1, i.x2 - i.x1 + 1, r.x2 - i.x2, i.y1 - r.y1, i.y2 - i.y1 + 1, r.y2 - i.y2);
    }
  }

  lemma Single(ps: seq<Region>)
    requires |ps| <= 1
    ensures Total(ps) == if ps == [] then 0 else Area(ps[0])
  {
    if ps != [] { assert ps[1..] == []; }
  }

  lemma {:induction false} TotalConcat(a: seq<Region>, b: seq<Region>)
    ensures Total(a + b) == Total(a) + Total(b)
  {
    if a == [] {
      assert a + b == b;
    } else {
      assert (a + b)[1..] == a[1..] + b;
      TotalConcat(a[1..], b);
    }
  }

  lemma TotalOfFour(r: Region, e: Region)
    ensures Total(Top(r, e) + Left(r, e) + Right(r, e) + Bottom(r, e))
         == Total(Top(r, e)) + Total(Left(r, e)) + Total(Right(r, e)) + Total(Bottom(r, e))
  {
    TotalConcat(Top(r, e) + Left(r, e) + Right(r, e), Bottom(r, e));
    TotalConcat(Top(r, e) + Left(r, e), Right(r, e));
    TotalConcat(Top(r, e), Left(r, e));
  }

  lemma Grid(p: int, k: int, q: int, a: int, m: int, b: int)
    ensures (p + k + q) * a + p * m + q * m + (p + k + q) * b == (p + k + q) * (a + m + b) - k * m
  {
  }

  // ----- the code -----

  /** ui_region_subtract into an array of at least four regions. */
  method SubtractInto(result: array<Region>, r: Region, e: Region) returns (cnt: nat)
    requires result.Length >= 4
    modifies result
    ensures cnt <= 4 && result[..cnt] == Subtract(r, e)
    ensures forall i :: cnt <= i < result.Length ==> result[i] == old(result[i])
  {
    var curY := r.y1;
    cnt := 0;
    if r.x1 >= e.x1 && r.y1 >= e.y1 && r.x2 <= e.x1 && r.y2 <= e.y1 { return 0; }
    if !IsOn(r, e) {
      result[0] := r;
      return 1;
    }
    if r.y1 < e.y1 {
      result[cnt] := Region(r.x1, r.y1, r.x2, e.y1 - 1);
      cnt := cnt + 1;
      curY := e.y1;
    }
    assert result[..cnt] == Top(r, e);
    if r.x1 < e.x1 {
      result[cnt] := Region(r.x1, curY, e.x1 - 1, Lesser(r.y2, e.y2));
      cnt := cnt + 1;
    }
    assert result[..cnt] == Top(r, e) + Left(r, e);
    if r.x2 > e.x2 {
      result[cnt] := Region(e.x2 + 1, curY, r.x2, Lesser(r.y2, e.y2));
      cnt := cnt + 1;
    }
    assert result[..cnt] == Top(r, e) + Left(r, e) + Right(r, e);
    if r.y2 > e.y2 {
      result[cnt] := Region(r.x1, e.y2 + 1, r.x2, r.y2);
      cnt := cnt + 1;
    }
  }
}
