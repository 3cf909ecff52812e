// Day 12 (day12/solution.ts, lines 92-190): packing presents into a region.
// The region is a height-by-width boolean grid marked and unmarked in place;
// `remaining` counts the presents of each shape still to place. The search
// places the next present at every anchor and orientation in turn, recurses,
// and undoes the placement when the recursion fails.
module Day12Packing {
  import opened Day12Shapes
  import opened Sums

  /** The cells a point list covers when anchored at (r, c). */
  function Anchored(points: seq<Point>, r: int, c: int): (cells: set<Point>)
  {
    set k | 0 <= k < |points| :: (r + points[k].0, c + points[k].1)
  }

  /** Every anchored cell lies inside the height-by-width region and is free. */
  predicate Fits(occ: set<Point>, points: seq<Point>, r: int, c: int, width: nat, height: nat) {
    forall k :: 0 <= k < |points| ==>
      0 <= r + points[k].0 < height && 0 <= c + points[k].1 < width &&
      (r + points[k].0, c + points[k].1) !in occ
  }

  /** The marked cells of the grid. Together with its dimensions this is the
      whole grid. */
  ghost function Occupied(grid: array2<bool>): (s: set<Point>)
    reads grid
    ensures forall p :: p in s <==> 0 <= p.0 < grid.Length0 && 0 <= p.1 < grid.Length1 && grid[p.0, p.1]
  {
    set i, j | 0 <= i < grid.Length0 && 0 <= j < grid.Length1 && grid[i, j] :: (i, j)
  }

  /** canPlace (lines 92-101): true exactly when every anchored cell is inside
      the region and still free. It changes nothing. */
  method CanPlace(grid: array2<bool>, points: seq<Point>, r: int, c: int, width: nat, height: nat) returns (ok: bool)
    requires grid.Length0 == height && grid.Length1 == width
    ensures ok <==> Fits(Occupied(grid), points, r, c, width, height)
  {
    for k := 0 to |points|
      invariant Fits(Occupied(grid), points[..k], r, c, width, height)
    {
      var rr, cc := r + points[k].0, c + points[k].1;
      if rr < 0 || rr >= height || cc < 0 || cc >= width || grid[rr, cc] {
        return false;
      }
    }
    assert points[..|points|] == points;
    return true;
  }

  /** place (lines 103-107): exactly the anchored cells are set to value. */
  method Place(grid: array2<bool>, points: seq<Point>, r: int, c: int, value: bool)
    requires forall k :: 0 <= k < |points| ==>
               0 <= r + points[k].0 < grid.Length0 && 0 <= c + points[k].1 < grid.Length1
    modifies grid
    ensures forall i, j :: 0 <= i < grid.Length0 && 0 <= j < grid.Length1 ==>
              grid[i, j] == if (i, j) in Anchored(points, r, c) then value else old(grid[i, j])
    ensures Occupied(grid) ==
              if value then old(Occupied(grid)) + Anchored(points, r, c) else old(Occupied(grid)) - Anchored(points, r, c)
  {
    for k := 0 to |points|
      invariant forall i, j :: 0 <= i < grid.Length0 && 0 <= j < grid.Length1 ==>
                  grid[i, j] == if (i, j) in Anchored(points[..k], r, c) then value else old(grid[i, j])
    {
      AnchoredStep(points, k, r, c);
      grid[r + points[k].0, c + points[k].1] := value;
    }
    assert points[..|points|] == points;
  }

  lemma AnchoredStep(points: seq<Point>, k: nat, r: int, c: int)
    requires k < |points|
    ensures Anchored(points[..k + 1], r, c) == Anchored(points[..k], r, c) + {(r + points[k].0, c + points[k].1)}
  {
    assert forall m :: 0 <= m < k ==> points[..k + 1][m] == points[..k][m];
  }

  /** Placing a piece where it fits and then removing it gives back the grid:
      the cells it covered were all free. */
  lemma PlaceRestores(occ: set<Point>, points: seq<Point>, r: int, c: int, width: nat, height: nat)
    requires Fits(occ, points, r, c, width, height)
    ensures (occ + Anchored(points, r, c)) - Anchored(points, r, c) == occ
  {
  }

  /** The presents still to place. */
  function Pending(rem: seq<nat>): nat {
    if rem == [] then 0 else Pending(rem[..|rem| - 1]) + rem[|rem| - 1]
  }

  lemma {:induction false} PendingTake(rem: seq<nat>, i: nat)
    requires i < |rem| && rem[i] > 0
    ensures Pending(rem[i := rem[i] - 1]) == Pending(rem) - 1
  {
    var last := |rem| - 1;
    assert rem[i := rem[i] - 1][..last] == if i < last then rem[..last][i := rem[i] - 1] else rem[..last];
    if i < last {
      PendingTake(rem[..last], i);
    }
  }

  /** The first shape from k on with presents left (the skip loop at lines
      118-120); |rem| or more when there is none. */
  function NextPiece(rem: seq<nat>, k: nat): (n: nat)
    ensures k <= n && (n < |rem| ==> rem[n] > 0)
    ensures forall i :: k <= i < n && i < |rem| ==> rem[i] == 0
    decreases |rem| - k
  {
    if k >= |rem| || rem[k] != 0 then k else NextPiece(rem, k + 1)
  }

  /** Every shape with presents left has a list of orientations. */
  predicate Covered(rem: seq<nat>, orients: seq<seq<seq<Point>>>) {
    forall i :: 0 <= i < |rem| && rem[i] > 0 ==> i < |orients|
  }

  /** Whether the presents from shape k on can all be placed on top of occ:
      none are left, or the next one fits at some anchor in some orientation
      and the rest can be placed after it. */
  ghost predicate Packable(orients: seq<seq<seq<Point>>>, width: nat, height: nat, occ: set<Point>, rem: seq<nat>, k: nat)
    decreases Pending(rem), 1
  {
    var n := NextPiece(rem, k);
    n >= |rem| ||
    (n < |orients| &&
     exists r, c, o :: 0 <= r < height && 0 <= c < width && 0 <= o < |orients[n]| &&
                       Child(orients, width, height, occ, rem, n, r, c, o))
  }

  /** Orientation o of shape n fits at (r, c), and the rest can be placed after it. */
  ghost predicate Child(orients: seq<seq<seq<Point>>>, width: nat, height: nat, occ: set<Point>, rem: seq<nat>,
                        n: nat, r: int, c: int, o: nat)
    requires n < |rem| && rem[n] > 0 && n < |orients| && o < |orients[n]|
    decreases Pending(rem), 0
  {
    PendingTake(rem, n);
    Fits(occ, orients[n][o], r, c, width, height) &&
    Packable(orients, width, height, occ + Anchored(orients[n][o], r, c), rem[n := rem[n] - 1], n)
  }

  /** solve (lines 109-147). On failure the grid and the counts are as on
      entry; on success every count from pieceIndex on is zero. */
  method Solve(grid: array2<bool>, width: nat, height: nat, orients: seq<seq<seq<Point>>>,
               remaining: array<nat>, pieceIndex: nat) returns (ok: bool)
    requires grid.Length0 == height && grid.Length1 == width && Covered(remaining[..], orients)
    modifies grid, remaining
    ensures Covered(remaining[..], orients)
    ensures ok <==> Packable(orients, width, height, old(Occupied(grid)), old(remaining[..]), pieceIndex)
    ensures !ok ==> Occupied(grid) == old(Occupied(grid)) && remaining[..] == old(remaining[..])
    ensures ok ==> forall i :: pieceIndex <= i < remaining.Length ==> remaining[i] == 0
    ensures forall i :: 0 <= i < pieceIndex && i < remaining.Length ==> remaining[i] == old(remaining[i])
    decreases Pending(remaining[..]), 3
  {
    var k := pieceIndex;
    while k < remaining.Length && remaining[k] == 0
      invariant pieceIndex <= k && NextPiece(remaining[..], k) == NextPiece(remaining[..], pieceIndex)
      invariant forall i :: pieceIndex <= i < k && i < remaining.Length ==> remaining[i] == 0
      decreases remaining.Length - k
    {
      k := k + 1;
    }
    if k >= remaining.Length {
      return true;
    }
    ghost var occ0, rem0 := Occupied(grid), remaining[..];
    for r := 0 to height
      invariant Occupied(grid) == occ0 && remaining[..] == rem0
      invariant forall r', c, o :: 0 <= r' < r && 0 <= c < width && 0 <= o < |orients[k]| ==>
                  !Child(orients, width, height, occ0, rem0, k, r', c, o)
    {
      ok := TryRow(grid, width, height, orients, remaining, k, r);
      if ok {
        return;
      }
    }
    return false;
  }

  /** The anchors (r, 0) … (r, width - 1) of the loop at line 129. */
  method TryRow(grid: array2<bool>, width: nat, height: nat, orients: seq<seq<seq<Point>>>,
                remaining: array<nat>, k: nat, r: nat) returns (ok: bool)
    requires grid.Length0 == height && grid.Length1 == width && Covered(remaining[..], orients)
    requires k < remaining.Length && remaining[k] > 0
    modifies grid, remaining
    ensures Covered(remaining[..], orients)
    ensures ok <==> exists c, o :: 0 <= c < width && 0 <= o < |orients[k]| &&
                      Child(orients, width, height, old(Occupied(grid)), old(remaining[..]), k, r, c, o)
    ensures !ok ==> Occupied(grid) == old(Occupied(grid)) && remaining[..] == old(remaining[..])
    ensures ok ==> forall i :: k <= i < remaining.Length ==> remaining[i] == 0
    ensures forall i :: 0 <= i < k ==> remaining[i] == old(remaining[i])
    decreases Pending(remaining[..]), 2
  {
    ghost var occ0, rem0 := Occupied(grid), remaining[..];
    for c := 0 to width
      invariant Occupied(grid) == occ0 && remaining[..] == rem0
      invariant forall c', o :: 0 <= c' < c && 0 <= o < |orients[k]| ==>
                  !Child(orients, width, height, occ0, rem0, k, r, c', o)
    {
      ok := TryAt(grid, width, height, orients, remaining, k, r, c);
      if ok {
        return;
      }
    }
    return false;
  }

  /** The orientations tried at one anchor (lines 130-142): place, count the
      present, recurse, and undo both on failure. */
  method TryAt(grid: array2<bool>, width: nat, height: nat, orients: seq<seq<seq<Point>>>,
               remaining: array<nat>, k: nat, r: nat, c: nat) returns (ok: bool)
    requires grid.Length0 == height && grid.Length1 == width && Covered(remaining[..], orients)
    requires k < remaining.Length && remaining[k] > 0
    modifies grid, remaining
    ensures Covered(remaining[..], orients)
    ensures ok <==> exists o :: 0 <= o < |orients[k]| &&
                      Child(orients, width, height, old(Occupied(grid)), old(remaining[..]), k, r, c, o)
    ensures !ok ==> Occupied(grid) == old(Occupied(grid)) && remaining[..] == old(remaining[..])
    ensures ok ==> forall i :: k <= i < remaining.Length ==> remaining[i] == 0
    ensures forall i :: 0 <= i < k ==> remaining[i] == old(remaining[i])
    decreases Pending(remaining[..]), 1
  {
    ghost var occ0, rem0 := Occupied(grid), remaining[..];
    for o := 0 to |orients[k]|
      invariant Occupied(grid) == occ0 && remaining[..] == rem0
      invariant forall o' :: 0 <= o' < o ==> !Child(orients, width, height, occ0, rem0, k, r, c, o')
    {
      ok := TryOrientation(grid, width, height, orients, remaining, k, r, c, o);
      if ok {
        return;
      }
    }
    return false;
  }

  /** One orientation at one anchor: place it if it fits, count the present,
      recurse, and undo both on failure. */
  method TryOrientation(grid: array2<bool>, width: nat, height: nat, orients: seq<seq<seq<Point>>>,
                        remaining: array<nat>, k: nat, r: nat, c: nat, o: nat) returns (ok: bool)
    requires grid.Length0 == height && grid.Length1 == width && Covered(remaining[..], orients)
    requires k < remaining.Length && remaining[k] > 0 && o < |orients[k]|
    modifies grid, remaining
    ensures Covered(remaining[..], orients)
    ensures ok <==> Child(orients, width, height, old(Occupied(grid)), old(remaining[..]), k, r, c, o)
    ensures !ok ==> Occupied(grid) == old(Occupied(grid)) && remaining[..] == old(remaining[..])
    ensures ok ==> forall i :: k <= i < remaining.Length ==> remaining[i] == 0
    ensures forall i :: 0 <= i < k ==> remaining[i] == old(remaining[i])
    decreases Pending(remaining[..]), 0
  {
    ghost var occ0, rem0 := Occupied(grid), remaining[..];
    var points := orients[k][o];
    var fits := CanPlace(grid, points, r, c, width, height);
    if !fits {
      return false;
    }
    Place(grid, points, r, c, true);
    remaining[k] := remaining[k] - 1;
    assert remaining[..] == rem0[k := rem0[k] - 1];
    PendingTake(rem0, k);
    ok := Solve(grid, width, height, orients, remaining, k);
    if ok {
      return;
    }
    remaining[k] := remaining[k] + 1;
    assert remaining[..] == rem0;
    Place(grid, points, r, c, false);
    PlaceRestores(occ0, points, r, c, width, height);
  }

  // canFitAll (lines 149-172).

  /** The cells shape i needs: its count times the size of its first orientation. */
  function Cost(orients: seq<seq<seq<Point>>>, counts: seq<nat>, i: nat): nat
    requires i < |counts| && Covered(counts, orients)
  {
    if counts[i] > 0 && |orients[i]| > 0 then counts[i] * |orients[i][0]| else 0
  }

  /** The cells the shapes from i on need, as the pre-check sums them. */
  function DemandFrom(orients: seq<seq<seq<Point>>>, counts: seq<nat>, i: nat): nat
    requires Covered(counts, orients)
    decreases |counts| - i
  {
    if i >= |counts| then 0 else Cost(orients, counts, i) + DemandFrom(orients, counts, i + 1)
  }

  /** Whether a region fits all its presents: the area check passes and the
      search places them all on the empty grid. */
  ghost predicate Fillable(orients: seq<seq<seq<Point>>>, width: nat, height: nat, counts: seq<nat>)
    requires Covered(counts, orients)
  {
    DemandFrom(orients, counts, 0) <= width * height && Packable(orients, width, height, {}, counts, 0)
  }

  /** canFitAll: the area pre-check, then the search on an empty grid. */
  method CanFitAll(width: nat, height: nat, orients: seq<seq<seq<Point>>>, counts: seq<nat>) returns (ok: bool)
    requires Covered(counts, orients)
    ensures ok <==> Fillable(orients, width, height, counts)
  {
    var total := 0;
    for i := 0 to |counts|
      invariant total + DemandFrom(orients, counts, i) == DemandFrom(orients, counts, 0)
    {
      if counts[i] > 0 && |orients[i]| > 0 {
        total := total + counts[i] * |orients[i][0]|;
      }
    }
    if total > width * height {
      return false;
    }
    var grid := new bool[height, width]((i, j) => false);
    var remaining := new nat[|counts|](i requires 0 <= i < |counts| => counts[i]);
    assert Occupied(grid) == {};
    assert remaining[..] == counts;
    ok := Solve(grid, width, height, orients, remaining, 0);
  }

  /** A region with no presents always fits. */
  lemma {:induction false} NothingToPlace(orients: seq<seq<seq<Point>>>, width: nat, height: nat, counts: seq<nat>, i: nat)
    requires forall j :: 0 <= j < |counts| ==> counts[j] == 0
    ensures DemandFrom(orients, counts, i) == 0
    ensures Packable(orients, width, height, {}, counts, i)
    decreases |counts| - i
  {
    if i < |counts| {
      NothingToPlace(orients, width, height, counts, i + 1);
    }
  }

  // The area pre-check never rejects a region the search can fill, provided
  // every orientation of a shape lists as many distinct points as the first.

  /** What the pre-check assumes of the orientation lists. */
  predicate Uniform(orients: seq<seq<seq<Point>>>) {
    forall i, o :: 0 <= i < |orients| && 0 <= o < |orients[i]| ==>
      DistinctPoints(orients[i][o]) && |orients[i][o]| == |orients[i][0]|
  }

  /** The height-by-width region. */
  function Box(width: nat, height: nat): set<Point> {
    set i, j | 0 <= i < height && 0 <= j < width :: (i, j)
  }

  function RowBox(width: nat, row: int): set<Point> {
    set j | 0 <= j < width :: (row, j)
  }

  lemma {:induction false} RowBoxSize(width: nat, row: int)
    ensures |RowBox(width, row)| == width
  {
    if width > 0 {
      RowBoxSize(width - 1, row);
      assert RowBox(width, row) == RowBox(width - 1, row) + {(row, width - 1)};
    }
  }

  lemma {:induction false} BoxSize(width: nat, height: nat)
    ensures |Box(width, height)| == width * height
  {
    if height > 0 {
      BoxSize(width, height - 1);
      RowBoxSize(width, height - 1);
      BoxRow(width, height);
      assert width * height == width * (height - 1) + width;
    }
  }

  lemma BoxRow(width: nat, height: nat)
    requires height > 0
    ensures Box(width, height) == Box(width, height - 1) + RowBox(width, height - 1)
    ensures Box(width, height - 1) !! RowBox(width, height - 1)
  {
  }

  /** Distinct points cover as many cells as they are. */
  lemma {:induction false} AnchoredSize(points: seq<Point>, r: int, c: int, k: nat)
    requires DistinctPoints(points) && k <= |points|
    ensures |Anchored(points[..k], r, c)| == k
  {
    if k == 0 {
      assert Anchored(points[..k], r, c) == {};
      assert |Anchored(points[..k], r, c)| == k;
    } else {
      AnchoredSize(points, r, c, k - 1);
      AnchoredStep(points, k - 1, r, c);
      AnchoredFresh(points, r, c, k - 1);
      AddFresh(Anchored(points[..k - 1], r, c), (r + points[k - 1].0, c + points[k - 1].1));
      assert |Anchored(points[..k], r, c)| == k;
    }
  }

  lemma AddFresh(a: set<Point>, p: Point)
    requires p !in a
    ensures |a + {p}| == |a| + 1
  {
  }

  lemma AnchoredFresh(points: seq<Point>, r: int, c: int, k: nat)
    requires DistinctPoints(points) && k < |points|
    ensures (r + points[k].0, c + points[k].1) !in Anchored(points[..k], r, c)
  {
    forall m | 0 <= m < k ensures (r + points[..k][m].0, c + points[..k][m].1) != (r + points[k].0, c + points[k].1) {
      assert points[..k][m] == points[m] != points[k];
    }
  }

  /** Shapes whose counts are all zero from i on need no cells. */
  lemma {:induction false} DemandOfZeros(orients: seq<seq<seq<Point>>>, rem: seq<nat>, i: nat, n: nat)
    requires Covered(rem, orients) && i <= n
    requires forall j :: i <= j < n && j < |rem| ==> rem[j] == 0
    ensures DemandFrom(orients, rem, i) == DemandFrom(orients, rem, n)
    decreases n - i
  {
    if i < n && i < |rem| {
      DemandOfZeros(orients, rem, i + 1, n);
    }
  }

  /** The demand from i on reads only the counts from i on. */
  lemma {:induction false} DemandSuffix(orients: seq<seq<seq<Point>>>, a: seq<nat>, b: seq<nat>, i: nat)
    requires Covered(a, orients) && Covered(b, orients) && |a| == |b|
    requires forall j :: i <= j < |a| ==> a[j] == b[j]
    ensures DemandFrom(orients, a, i) == DemandFrom(orients, b, i)
    decreases |a| - i
  {
    if i < |a| {
      DemandSuffix(orients, a, b, i + 1);
    }
  }

  /** Placing one present of shape n lowers the demand by its size. */
  lemma DemandTake(orients: seq<seq<seq<Point>>>, rem: seq<nat>, n: nat)
    requires Covered(rem, orients) && n < |rem| && rem[n] > 0 && |orients[n]| > 0
    ensures Covered(rem[n := rem[n] - 1], orients)
    ensures DemandFrom(orients, rem[n := rem[n] - 1], n) + |orients[n][0]| == DemandFrom(orients, rem, n)
  {
    var rem' := rem[n := rem[n] - 1];
    DemandSuffix(orients, rem', rem, n + 1);
    assert rem[n] * |orients[n][0]| == (rem[n] - 1) * |orients[n][0]| + |orients[n][0]|;
  }

  /** Whatever the search can still place fits in the cells left free. */
  lemma {:induction false} PackableWithinArea(orients: seq<seq<seq<Point>>>, width: nat, height: nat,
                                              occ: set<Point>, rem: seq<nat>, k: nat)
    requires Covered(rem, orients) && Uniform(orients) && occ <= Box(width, height)
    requires Packable(orients, width, height, occ, rem, k)
    ensures |occ| + DemandFrom(orients, rem, k) <= width * height
    decreases Pending(rem)
  {
    var n := NextPiece(rem, k);
    DemandOfZeros(orients, rem, k, n);
    if n >= |rem| {
      BoxSize(width, height);
      SubsetCard(occ, Box(width, height));
    } else {
      var r, c, o :| 0 <= r < height && 0 <= c < width && 0 <= o < |orients[n]| &&
                     Child(orients, width, height, occ, rem, n, r, c, o);
      var points := orients[n][o];
      var cells := Anchored(points, r, c);
      PendingTake(rem, n);
      DemandTake(orients, rem, n);
      assert occ + cells <= Box(width, height);
      PackableWithinArea(orients, width, height, occ + cells, rem[n := rem[n] - 1], n);
      AnchoredSize(points, r, c, |points|);
      assert points[..|points|] == points;
      assert occ !! cells;
    }
  }

  /** With uniform orientation lists the area pre-check rejects only regions
      the search would reject as well: canFitAll is the search alone. */
  lemma PrecheckSound(orients: seq<seq<seq<Point>>>, width: nat, height: nat, counts: seq<nat>)
    requires Covered(counts, orients) && Uniform(orients)
    ensures Fillable(orients, width, height, counts) <==> Packable(orients, width, height, {}, counts, 0)
  {
    if Packable(orients, width, height, {}, counts, 0) {
      PackableWithinArea(orients, width, height, {}, counts, 0);
    }
  }

  // main (lines 178-186): the orientations of every shape, then the count of
  // regions that fit their presents.

  /** A region: its size and how many presents of each shape it must hold. */
  datatype Region = Region(width: nat, height: nat, counts: seq<nat>)

  /** Every region asks only for shapes that have orientation lists. */
  predicate AllCovered(orients: seq<seq<seq<Point>>>, regions: seq<Region>) {
    forall i :: 0 <= i < |regions| ==> Covered(regions[i].counts, orients)
  }

  /** How many regions canFitAll accepts. */
  ghost function FillableCount(orients: seq<seq<seq<Point>>>, regions: seq<Region>): (n: nat)
    requires AllCovered(orients, regions)
    ensures n <= |regions|
  {
    if regions == [] then 0
    else
      var last := regions[|regions| - 1];
      FillableCount(orients, regions[..|regions| - 1]) +
      (if Fillable(orients, last.width, last.height, last.counts) then 1 else 0)
  }

  /** How many regions the search alone can fill. */
  ghost function PackableCount(orients: seq<seq<seq<Point>>>, regions: seq<Region>): (n: nat)
    ensures n <= |regions|
  {
    if regions == [] then 0
    else
      var last := regions[|regions| - 1];
      PackableCount(orients, regions[..|regions| - 1]) +
      (if Packable(orients, last.width, last.height, {}, last.counts, 0) then 1 else 0)
  }

  /** The counting loop at lines 182-186. */
  method CountFillable(orients: seq<seq<seq<Point>>>, regions: seq<Region>) returns (count: nat)
    requires AllCovered(orients, regions)
    ensures count == FillableCount(orients, regions)
  {
    count := 0;
    for i := 0 to |regions|
      invariant count == FillableCount(orients, regions[..i])
    {
      assert regions[..i + 1][..i] == regions[..i];
      var fits := CanFitAll(regions[i].width, regions[i].height, orients, regions[i].counts);
      if fits {
        count := count + 1;
      }
    }
    assert regions[..|regions|] == regions;
  }

  /** The orientation lists main precomputes, one per shape. */
  function OrientationsOf(shapes: seq<Shape>): (orients: seq<seq<seq<Point>>>)
    ensures |orients| == |shapes|
  {
    seq(|shapes|, i requires 0 <= i < |shapes| => Dedupe(Candidates(Cells(shapes[i]))))
  }

  lemma PrefixSnoc<T>(s: seq<T>, i: nat)
    requires i <= |s|
    ensures i < |s| ==> s[..i] + [s[i]] == s[..i + 1]
    ensures s[..|s|] == s
  {
  }

  /** main without the input parsing and the logging: the answer. */
  method Answer(shapes: seq<Shape>, regions: seq<Region>) returns (count: nat)
    requires AllCovered(OrientationsOf(shapes), regions)
    ensures count == FillableCount(OrientationsOf(shapes), regions)
  {
    ghost var all := OrientationsOf(shapes);
    var orients: seq<seq<seq<Point>>> := [];
    for i := 0 to |shapes|
      invariant orients == all[..i]
    {
      var o := AllOrientations(shapes[i]);
      PrefixSnoc(all, i);
      orients := orients + [o];
    }
    PrefixSnoc(all, |shapes|);
    count := CountFillable(orients, regions);
  }

  /** The precomputed lists satisfy what the pre-check assumes. */
  lemma OrientationsUniform(shapes: seq<Shape>)
    ensures Uniform(OrientationsOf(shapes))
  {
    var orients := OrientationsOf(shapes);
    forall i, o | 0 <= i < |orients| && 0 <= o < |orients[i]|
      ensures DistinctPoints(orients[i][o]) && |orients[i][o]| == |orients[i][0]|
    {
      var ps := Cells(shapes[i]);
      CellsExact(shapes[i]);
      OrientationsFacts(ps);
      OrientationsDistinctPoints(ps);
      assert orients[i][o] in orients[i] && orients[i][0] in orients[i];
    }
  }

  /** The answer is the number of regions the search alone can fill. */
  lemma {:induction false} AnswerBySearch(shapes: seq<Shape>, regions: seq<Region>)
    requires AllCovered(OrientationsOf(shapes), regions)
    ensures FillableCount(OrientationsOf(shapes), regions) == PackableCount(OrientationsOf(shapes), regions)
  {
    if regions != [] {
      var last := regions[|regions| - 1];
      AnswerBySearch(shapes, regions[..|regions| - 1]);
      OrientationsUniform(shapes);
      PrecheckSound(OrientationsOf(shapes), last.width, last.height, last.counts);
    }
  }
}
