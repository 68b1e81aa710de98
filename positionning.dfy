// The object-placement example individual: rectangles of given widths and
// heights are anchored on a grid of cells, and the fitness counts the cells
// where two of them overlap. An anchor (x, y) is the top-left cell of its
// rectangle: it covers the columns x .. x + width - 1 and the rows
// y - high + 1 .. y. Random draws are oracle sequences passed in.

module Positionning {
  import opened Errors
  import SelfOptimize

  datatype Pos = Pos(x: int, y: int)

  /** One entry of the objects to place: its width and its height. */
  datatype Shape = Shape(width: int, high: int)

  /** The size of the grid: columns 1 .. w, rows 1 .. h. */
  datatype Space = Space(w: int, h: int)

  /** The outcome of an operation that draws: a value, an exception, or the
      draws running out. */
  datatype Placed<T> = Placed(value: T) | Raised(error: Error) | OutOfDraws

  // ---------------------------------------------------------------------
  // Conflicts between two objects
  // ---------------------------------------------------------------------

  function Max(a: int, b: int): int { if a < b then b else a }
  function Min(a: int, b: int): int { if a < b then a else b }

  /** The number of integers in both [a1, b1) and [a2, b2). */
  function Overlap(a1: int, b1: int, a2: int, b2: int): (n: nat)
    ensures n <= Max(b1 - a1, 0)
  {
    if Min(b1, b2) - Max(a1, a2) > 0 then Min(b1, b2) - Max(a1, a2) else 0
  }

  /** Column x lies under the second object (the column test of __conflict). */
  predicate InCols(x: int, x2: int, w2: int) {
    x < x2 + w2 && x + 1 > x2
  }

  /** Row y lies under the second object (the row test of __conflict). */
  predicate InRows(y: int, y2: int, h2: int) {
    y > y2 - h2 && y - 1 < y2
  }

  /** How many of the columns x1 .. x1 + n - 1 lie under the second object. */
  function ColHits(x1: int, n: int, x2: int, w2: int): (c: nat)
    ensures c <= Max(n, 0)
    decreases Max(n, 0)
  {
    if n <= 0 then 0
    else ColHits(x1, n - 1, x2, w2) + (if InCols(x1 + n - 1, x2, w2) then 1 else 0)
  }

  /** How many of the rows y1, y1 - 1, .., y1 - n + 1 lie under the second object. */
  function RowHits(y1: int, n: int, y2: int, h2: int): (c: nat)
    ensures c <= Max(n, 0)
    decreases Max(n, 0)
  {
    if n <= 0 then 0
    else RowHits(y1, n - 1, y2, h2) + (if InRows(y1 - (n - 1), y2, h2) then 1 else 0)
  }

  lemma {:induction false} ColHitsOverlap(x1: int, n: int, x2: int, w2: int)
    ensures ColHits(x1, n, x2, w2) == Overlap(x1, x1 + Max(n, 0), x2, x2 + w2)
    decreases Max(n, 0)
  {
    if n > 0 {
      ColHitsOverlap(x1, n - 1, x2, w2);
    }
  }

  lemma {:induction false} RowHitsOverlap(y1: int, n: int, y2: int, h2: int)
    ensures RowHits(y1, n, y2, h2) == Overlap(y1 - Max(n, 0) + 1, y1 + 1, y2 - h2 + 1, y2 + 1)
    decreases Max(n, 0)
  {
    if n > 0 {
      RowHitsOverlap(y1, n - 1, y2, h2);
    }
  }

  /** The cells of the first object's rectangle that the second covers. */
  function ConflictOf(p1: Pos, s1: Shape, p2: Pos, s2: Shape): nat {
    ColHits(p1.x, s1.width, p2.x, s2.width) * RowHits(p1.y, s1.high, p2.y, s2.high)
  }

  /** The conflict is the product of the overlaps of the column and row ranges. */
  lemma ConflictIsOverlap(p1: Pos, s1: Shape, p2: Pos, s2: Shape)
    requires s1.width >= 0 && s1.high >= 0 && s2.width >= 0 && s2.high >= 0
    ensures ConflictOf(p1, s1, p2, s2) ==
              Overlap(p1.x, p1.x + s1.width, p2.x, p2.x + s2.width)
              * Overlap(p1.y - s1.high + 1, p1.y + 1, p2.y - s2.high + 1, p2.y + 1)
  {
    ColHitsOverlap(p1.x, s1.width, p2.x, s2.width);
    RowHitsOverlap(p1.y, s1.high, p2.y, s2.high);
  }

  /** Two objects conflict on as many cells seen from either. */
  lemma ConflictSymmetric(p1: Pos, s1: Shape, p2: Pos, s2: Shape)
    requires s1.width >= 0 && s1.high >= 0 && s2.width >= 0 && s2.high >= 0
    ensures ConflictOf(p1, s1, p2, s2) == ConflictOf(p2, s2, p1, s1)
  {
    ConflictIsOverlap(p1, s1, p2, s2);
    ConflictIsOverlap(p2, s2, p1, s1);
  }

  lemma ProductBound(a: nat, b: nat, c: nat, d: nat)
    requires a <= c && b <= d
    ensures a * b <= c * d
  {
    assert a * b <= c * b by { assert c * b - a * b == (c - a) * b; }
    assert c * b <= c * d by { assert c * d - c * b == c * (d - b); }
  }

  /** A conflict never exceeds the first object's area. */
  lemma ConflictBounded(p1: Pos, s1: Shape, p2: Pos, s2: Shape)
    ensures ConflictOf(p1, s1, p2, s2) <= Max(s1.width, 0) * Max(s1.high, 0)
  {
    ProductBound(ColHits(p1.x, s1.width, p2.x, s2.width), RowHits(p1.y, s1.high, p2.y, s2.high),
                 Max(s1.width, 0), Max(s1.high, 0));
  }

  /** __conflict (with __canTouch, which every individual has): count the
      cells of the first rectangle that lie under the second. */
  method Conflict(positions: seq<Pos>, shapes: seq<Shape>, i1: nat, i2: nat) returns (nbConflict: int)
    requires i1 < |positions| && i2 < |positions| && |positions| <= |shapes|
    ensures nbConflict == ConflictOf(positions[i1], shapes[i1], positions[i2], shapes[i2])
  {
    var e1 := positions[i1];
    var e2 := positions[i2];
    var s1 := shapes[i1];
    var s2 := shapes[i2];
    var rows := RowHits(e1.y, s1.high, e2.y, s2.high);
    nbConflict := 0;
    var x := 0;
    while x < s1.width
      invariant 0 <= x <= Max(s1.width, 0)
      invariant nbConflict == ColHits(e1.x, x, e2.x, s2.width) * rows
    {
      var base := nbConflict;
      var inCols := InCols(e1.x + x, e2.x, s2.width);
      var y := 0;
      while y < s1.high
        invariant 0 <= y <= Max(s1.high, 0)
        invariant nbConflict == base + (if inCols then RowHits(e1.y, y, e2.y, s2.high) else 0)
      {
        var yAnchor := e1.y - y;
        if inCols && InRows(yAnchor, e2.y, s2.high) {
          nbConflict := nbConflict + 1;
        }
        y := y + 1;
      }
      var c := ColHits(e1.x, x, e2.x, s2.width);
      assert nbConflict == c * rows + (if inCols then rows else 0);
      assert ColHits(e1.x, x + 1, e2.x, s2.width) == c + (if inCols then 1 else 0);
      assert (c + 1) * rows == c * rows + rows;
      x := x + 1;
    }
  }

  // ---------------------------------------------------------------------
  // Fitness
  // ---------------------------------------------------------------------

  function ConflictAt(positions: seq<Pos>, shapes: seq<Shape>, i1: nat, i2: nat): nat
    requires i1 < |positions| && i2 < |positions| && |positions| <= |shapes|
  {
    ConflictOf(positions[i1], shapes[i1], positions[i2], shapes[i2])
  }

  /** The conflicts of object i1 with the objects after it, among the first m. */
  function RowTotal(positions: seq<Pos>, shapes: seq<Shape>, i1: nat, m: nat): (t: nat)
    requires i1 < |positions| && m <= |positions| <= |shapes|
  {
    if m == 0 then 0
    else RowTotal(positions, shapes, i1, m - 1) + (if m - 1 > i1 then ConflictAt(positions, shapes, i1, m - 1) else 0)
  }

  /** The conflicts of the first k objects with the objects after them. */
  function Total(positions: seq<Pos>, shapes: seq<Shape>, k: nat): (t: nat)
    requires k <= |positions| <= |shapes|
  {
    if k == 0 then 0
    else Total(positions, shapes, k - 1) + RowTotal(positions, shapes, k - 1, |positions|)
  }

  /** fitness: the number of overlapping cells, summed over the pairs i1 < i2. */
  method Fitness(positions: seq<Pos>, shapes: seq<Shape>) returns (fitness: int)
    requires |positions| <= |shapes|
    ensures fitness == Total(positions, shapes, |positions|)
    ensures fitness >= 0
  {
    var n := |positions|;
    fitness := 0;
    var i1 := 0;
    while i1 < n
      invariant 0 <= i1 <= n
      invariant fitness == Total(positions, shapes, i1)
    {
      var i2 := 0;
      var row := 0;
      while i2 < n
        invariant 0 <= i2 <= n
        invariant row == RowTotal(positions, shapes, i1, i2)
      {
        if i2 > i1 {
          var c := Conflict(positions, shapes, i1, i2);
          row := row + c;
        }
        i2 := i2 + 1;
      }
      fitness := fitness + row;
      i1 := i1 + 1;
    }
  }

  lemma {:induction false} RowTotalZero(positions: seq<Pos>, shapes: seq<Shape>, i1: nat, m: nat)
    requires i1 < |positions| && m <= |positions| <= |shapes|
    ensures RowTotal(positions, shapes, i1, m) == 0 <==>
              forall i2 :: i1 < i2 < m ==> ConflictAt(positions, shapes, i1, i2) == 0
  {
    if m > 0 {
      RowTotalZero(positions, shapes, i1, m - 1);
    }
  }

  /** A placement has fitness zero exactly when no two objects overlap. */
  lemma {:induction false} TotalZero(positions: seq<Pos>, shapes: seq<Shape>, k: nat)
    requires k <= |positions| <= |shapes|
    ensures Total(positions, shapes, k) == 0 <==>
              forall i1, i2 :: 0 <= i1 < k && i1 < i2 < |positions| ==> ConflictAt(positions, shapes, i1, i2) == 0
  {
    if k > 0 {
      TotalZero(positions, shapes, k - 1);
      RowTotalZero(positions, shapes, k - 1, |positions|);
    }
  }

  // ---------------------------------------------------------------------
  // Space and free cells
  // ---------------------------------------------------------------------

  /** __isOutOfSpace: the rectangle anchored at a leaves the grid. */
  predicate OutOfSpace(s: Shape, a: Pos, space: Space) {
    a.x < 1 || a.y - s.high + 1 < 1 || a.x + s.width - 1 > space.w || a.y > space.h
  }

  predicate InGrid(a: Pos, space: Space) {
    1 <= a.x <= space.w && 1 <= a.y <= space.h
  }

  /** The cell dx columns right of and dy rows below the anchor. */
  function Cell(a: Pos, dx: int, dy: int): Pos {
    Pos(a.x + dx, a.y - dy)
  }

  /** A rectangle is in space exactly when every one of its cells is on the grid. */
  lemma InSpaceIffCellsInGrid(s: Shape, a: Pos, space: Space)
    requires s.width >= 1 && s.high >= 1
    ensures !OutOfSpace(s, a, space) <==>
              forall dx, dy :: 0 <= dx < s.width && 0 <= dy < s.high ==> InGrid(Cell(a, dx, dy), space)
  {
    if OutOfSpace(s, a, space) {
      assert !InGrid(Cell(a, 0, 0), space) || !InGrid(Cell(a, s.width - 1, s.high - 1), space);
    }
  }

  /** Cell c lies in the rectangle anchored at e (the test of __isOnFreeCase). */
  predicate Covers(e: Pos, s: Shape, c: Pos) {
    e.x < c.x + 1 && e.x + s.width > c.x && e.y > c.y - 1 && e.y - s.high < c.y
  }

  /** __isOnFreeCase: no object other than `index` covers the anchor cell. */
  predicate Free(positions: seq<Pos>, shapes: seq<Shape>, index: int, a: Pos)
    requires |positions| <= |shapes|
  {
    forall i :: 0 <= i < |positions| && i != index ==> !Covers(positions[i], shapes[i], a)
  }

  predicate Acceptable(positions: seq<Pos>, shapes: seq<Shape>, index: nat, a: Pos, space: Space)
    requires |positions| <= |shapes| && index < |shapes|
  {
    !OutOfSpace(shapes[index], a, space) && Free(positions, shapes, index, a)
  }

  /** The number of redraws __generateAnchor allows. */
  const NbTry: nat := 100

  /** `randint(1, W), randint(1, H)` draws. */
  predicate AnchorDraws(draws: seq<Pos>, space: Space) {
    forall k :: 0 <= k < |draws| ==> InGrid(draws[k], space)
  }

  /** __generateAnchor: draw grid cells until one is acceptable for object
      `index`, giving up after 100 redraws and keeping the last draw. */
  method GenerateAnchor(positions: seq<Pos>, shapes: seq<Shape>, index: nat, space: Space, draws: seq<Pos>)
    returns (anchor: Placed<Pos>, used: nat)
    requires |positions| <= |shapes| && index < |shapes|
    requires AnchorDraws(draws, space)
    ensures used <= |draws| && used <= NbTry + 1
    ensures space.w < 1 || space.h < 1 ==> anchor == Raised(ValueError)
    ensures anchor.Raised? ==> space.w < 1 || space.h < 1
    ensures anchor.Placed? ==> 1 <= used && anchor.value == draws[used - 1] && InGrid(anchor.value, space)
    ensures anchor.Placed? ==> Acceptable(positions, shapes, index, anchor.value, space) || used == NbTry + 1
    ensures anchor.Placed? ==> forall k :: 0 <= k < used - 1 ==> !Acceptable(positions, shapes, index, draws[k], space)
    ensures anchor.OutOfDraws? ==> used == |draws| <= NbTry
  {
    used := 0;
    if space.w < 1 || space.h < 1 {
      return Raised(ValueError), used;
    }
    if |draws| == 0 {
      return OutOfDraws, used;
    }
    var a := draws[0];
    used := 1;
    var i := 0;
    while i < NbTry && !Acceptable(positions, shapes, index, a, space)
      invariant 0 <= i <= NbTry && used == i + 1 <= |draws|
      invariant a == draws[used - 1]
      invariant forall k :: 0 <= k < used - 1 ==> !Acceptable(positions, shapes, index, draws[k], space)
    {
      if used == |draws| {
        return OutOfDraws, used;
      }
      a := draws[used];
      used := used + 1;
      i := i + 1;
    }
    anchor := Placed(a);
  }

  /** generate: anchor every object in turn, each against those already placed. */
  method Generate(shapes: seq<Shape>, space: Space, draws: seq<Pos>) returns (r: Placed<seq<Pos>>, used: nat)
    requires AnchorDraws(draws, space)
    ensures used <= |draws|
    ensures r.Placed? ==> |r.value| == |shapes|
    ensures r.Placed? ==> forall i :: 0 <= i < |r.value| ==> InGrid(r.value[i], space)
    ensures r.Raised? <==> |shapes| > 0 && (space.w < 1 || space.h < 1)
    ensures r.Raised? ==> r.error == ValueError
    ensures r.OutOfDraws? ==> used == |draws|
  {
    var positions: seq<Pos> := [];
    used := 0;
    var stop := false;
    r := OutOfDraws;
    while |positions| < |shapes| && !stop
      invariant |positions| <= |shapes| && 0 <= used <= |draws|
      invariant forall i :: 0 <= i < |positions| ==> InGrid(positions[i], space)
      invariant stop ==> r.Raised? || r.OutOfDraws?
      invariant stop && r.Raised? ==> r.error == ValueError && (space.w < 1 || space.h < 1) && |shapes| > 0
      invariant stop && r.OutOfDraws? ==> used == |draws|
      invariant !stop && |positions| == 0 ==> used == 0
      invariant space.w < 1 || space.h < 1 ==> |positions| == 0 && (stop ==> r.Raised?)
      decreases |shapes| - |positions|, if stop then 0 else 1
    {
      var a, k := GenerateAnchor(positions, shapes, |positions|, space, draws[used..]);
      if a.Raised? {
        r, stop := Raised(a.error), true;
      } else if a.OutOfDraws? {
        r, stop, used := OutOfDraws, true, used + k;
      } else {
        positions := positions + [a.value];
        used := used + k;
      }
    }
    if !stop {
      r := Placed(positions);
    }
  }

  // ---------------------------------------------------------------------
  // Crossover and mutation
  // ---------------------------------------------------------------------

  predicate Distinct(s: seq<int>) {
    forall i, j :: 0 <= i < j < |s| ==> s[i] != s[j]
  }

  /** `random.sample(xrange(n), k)` draws: distinct indices below n. */
  predicate SampleOf(s: seq<int>, n: int) {
    Distinct(s) && forall k :: 0 <= k < |s| ==> 0 <= s[k] < n
  }

  /** crossover: the two children are copies of their parents with the
      positions at the `exchanged` indices (a sample of randint(0, n - 1)
      of them) swapped between them. */
  method Crossover(p1: seq<Pos>, p2: seq<Pos>, exchanged: seq<int>) returns (r: Placed<(seq<Pos>, seq<Pos>)>)
    requires |p1| == |p2|
    requires SampleOf(exchanged, |p1|) && |exchanged| <= Max(|p1| - 1, 0)
    ensures |p1| == 0 <==> r == Raised(ValueError)
    ensures r.Placed? ==> |r.value.0| == |p1| && |r.value.1| == |p2|
    ensures r.Placed? ==> forall i :: 0 <= i < |p1| ==>
              r.value.0[i] == (if i in exchanged then p2[i] else p1[i]) &&
              r.value.1[i] == (if i in exchanged then p1[i] else p2[i])
    ensures r.Placed? ==> forall i :: 0 <= i < |p1| ==> multiset{r.value.0[i], r.value.1[i]} == multiset{p1[i], p2[i]}
    ensures !r.OutOfDraws?
  {
    if |p1| == 0 {
      return Raised(ValueError);
    }
    var c1, c2 := p1, p2;
    var j := 0;
    while j < |exchanged|
      invariant 0 <= j <= |exchanged| && |c1| == |p1| && |c2| == |p2|
      invariant forall i :: 0 <= i < |p1| ==>
                  c1[i] == (if i in exchanged[..j] then p2[i] else p1[i]) &&
                  c2[i] == (if i in exchanged[..j] then p1[i] else p2[i])
    {
      var i := exchanged[j];
      assert exchanged[..j + 1] == exchanged[..j] + [i];
      c1 := c1[i := p2[i]];
      c2 := c2[i := p1[i]];
      j := j + 1;
    }
    assert exchanged[..j] == exchanged;
    r := Placed((c1, c2));
  }

  /** The swap branch of mutation: draw two distinct indices until exchanging
      their positions keeps both objects in space, then exchange them. */
  method SwapMutation(p: seq<Pos>, shapes: seq<Shape>, space: Space, swaps: seq<(int, int)>)
    returns (child: Placed<seq<Pos>>, a: int, b: int, used: nat)
    requires |p| == |shapes|
    requires forall k :: 0 <= k < |swaps| ==> swaps[k].0 != swaps[k].1 && 0 <= swaps[k].0 < |p| && 0 <= swaps[k].1 < |p|
    ensures |p| < 2 <==> child == Raised(ValueError)
    ensures child.Placed? ==> 0 <= a < |p| && 0 <= b < |p| && a != b
    ensures child.Placed? ==> child.value == p[a := p[b]][b := p[a]]
    ensures child.Placed? ==> !OutOfSpace(shapes[a], p[b], space) && !OutOfSpace(shapes[b], p[a], space)
    ensures child.Placed? ==> 1 <= used <= |swaps| && swaps[used - 1] == (a, b)
    ensures child.Placed? ==> forall k :: 0 <= k < used - 1 ==> SwapRejected(p, shapes, space, swaps[k])
    ensures child.OutOfDraws? ==> forall k :: 0 <= k < |swaps| ==> SwapRejected(p, shapes, space, swaps[k])
  {
    a, b, used := 0, 0, 0;
    if |p| < 2 {
      return Raised(ValueError), a, b, used;
    }
    while used < |swaps|
      invariant used <= |swaps|
      invariant forall k :: 0 <= k < used ==> SwapRejected(p, shapes, space, swaps[k])
    {
      a, b := swaps[used].0, swaps[used].1;
      used := used + 1;
      var outSide := OutOfSpace(shapes[a], p[b], space) || OutOfSpace(shapes[b], p[a], space);
      if !outSide {
        var tmp, tmp2 := p[a], p[b];
        return Placed(p[a := tmp2][b := tmp]), a, b, used;
      }
    }
    child := OutOfDraws;
  }

  predicate SwapRejected(p: seq<Pos>, shapes: seq<Shape>, space: Space, s: (int, int))
    requires |p| == |shapes| && 0 <= s.0 < |p| && 0 <= s.1 < |p|
  {
    OutOfSpace(shapes[s.0], p[s.1], space) || OutOfSpace(shapes[s.1], p[s.0], space)
  }

  /** The index list of the anchor branch of mutation: when `fromConflicts`,
      one index of each conflicting pair (chosen by a coin) while fewer than
      nbMuted are listed; then drawn indices not yet listed until there are
      nbMuted. */
  method MutedIndexes(p: seq<Pos>, shapes: seq<Shape>, nbMuted: int, fromConflicts: bool,
                      coins: seq<bool>, indexDraws: seq<int>)
    returns (muted: Option<seq<int>>, c: nat, d: nat)
    requires |p| == |shapes| && 0 <= nbMuted < |p|
    requires forall k :: 0 <= k < |indexDraws| ==> 0 <= indexDraws[k] < |p|
    ensures c <= |coins| && d <= |indexDraws| && (!fromConflicts ==> c == 0)
    ensures muted.Some? ==> |muted.value| == nbMuted
    ensures muted.Some? ==> forall k :: 0 <= k < |muted.value| ==> 0 <= muted.value[k] < |p|
    ensures muted.None? ==> (fromConflicts && c == |coins|) || d == |indexDraws|
  {
    var listed: seq<int> := [];
    c, d := 0, 0;
    if fromConflicts {
      var ip1 := 0;
      while ip1 < |p|
        invariant |listed| <= nbMuted && c <= |coins|
        invariant forall k :: 0 <= k < |listed| ==> 0 <= listed[k] < |p|
      {
        var ip2 := 0;
        while ip2 < |p|
          invariant |listed| <= nbMuted && c <= |coins| && 0 <= ip1 < |p|
          invariant forall k :: 0 <= k < |listed| ==> 0 <= listed[k] < |p|
        {
          if ip2 > ip1 {
            var nbConflict := Conflict(p, shapes, ip1, ip2);
            if nbConflict > 0 && |listed| < nbMuted {
              if c == |coins| {
                return None, c, d;
              }
              listed := listed + [if coins[c] then ip1 else ip2];
              c := c + 1;
            }
          }
          ip2 := ip2 + 1;
        }
        ip1 := ip1 + 1;
      }
    }
    while |listed| < nbMuted
      invariant |listed| <= nbMuted && d <= |indexDraws| && c <= |coins| && (!fromConflicts ==> c == 0)
      invariant forall k :: 0 <= k < |listed| ==> 0 <= listed[k] < |p|
      decreases |indexDraws| - d
    {
      if d == |indexDraws| {
        return None, c, d;
      }
      var ind := indexDraws[d];
      d := d + 1;
      if ind !in listed {
        listed := listed + [ind];
      }
    }
    muted := Some(listed);
  }

  /** The position a listed object takes: a fresh anchor's x only (r <= 0.3),
      its y only (r <= 0.6), or both. */
  function Moved(before: Pos, drawn: Pos, r: real): (q: Pos)
    ensures q.x == before.x || q.x == drawn.x
    ensures q.y == before.y || q.y == drawn.y
    ensures q != before ==> (r <= 0.3 ==> q.y == before.y) && (0.3 < r <= 0.6 ==> q.x == before.x)
  {
    if r <= 0.3 then Pos(drawn.x, before.y)
    else if r <= 0.6 then Pos(before.x, drawn.y)
    else drawn
  }

  /** The change a listed object may undergo: each coordinate is kept or
      comes from a grid cell. */
  predicate MovedInGrid(before: Pos, after: Pos, space: Space) {
    (after.x == before.x || 1 <= after.x <= space.w) && (after.y == before.y || 1 <= after.y <= space.h)
  }

  /** The anchor branch of mutation, once the index list is drawn: each
      listed object in turn gets a new anchor coordinate, drawn against the
      positions as they stand. */
  method MoveListed(p: seq<Pos>, shapes: seq<Shape>, space: Space, muted: seq<int>,
                    components: seq<real>, anchorDraws: seq<Pos>)
    returns (child: Placed<seq<Pos>>, pos: nat)
    requires |p| == |shapes|
    requires forall k :: 0 <= k < |muted| ==> 0 <= muted[k] < |p|
    requires AnchorDraws(anchorDraws, space)
    ensures pos <= |anchorDraws|
    ensures child.OutOfDraws? ==> |components| < |muted| || pos == |anchorDraws|
    ensures child.Placed? ==> |child.value| == |p|
    ensures child.Placed? ==> forall i :: 0 <= i < |p| && i !in muted ==> child.value[i] == p[i]
    ensures child.Placed? ==> forall i :: 0 <= i < |p| ==> MovedInGrid(p[i], child.value[i], space)
    ensures child.Raised? ==> child.error == ValueError && |muted| > 0
  {
    var cur := p;
    var j := 0;
    pos := 0;
    while j < |muted|
      invariant 0 <= j <= |muted| && |cur| == |p| && 0 <= pos <= |anchorDraws|
      invariant forall i :: 0 <= i < |p| && i !in muted ==> cur[i] == p[i]
      invariant forall i :: 0 <= i < |p| ==> MovedInGrid(p[i], cur[i], space)
    {
      var i := muted[j];
      if j >= |components| {
        return OutOfDraws, pos;
      }
      var a, used := GenerateAnchor(cur, shapes, i, space, anchorDraws[pos..]);
      if a.Raised? {
        return Raised(a.error), pos;
      }
      if a.OutOfDraws? {
        return OutOfDraws, pos + used;
      }
      pos := pos + used;
      var q := Moved(cur[i], a.value, components[j]);
      assert MovedInGrid(cur[i], q, space);
      cur := cur[i := q];
      j := j + 1;
    }
    child := Placed(cur);
  }

  /** mutation: with `anchorBranch` (random() < 0.5), move randomly listed
      objects to newly drawn anchors; otherwise swap two objects that stay in
      space. */
  method Mutation(p: seq<Pos>, shapes: seq<Shape>, space: Space, anchorBranch: bool,
                  nbMuted: int, fromConflicts: bool, coins: seq<bool>, indexDraws: seq<int>,
                  components: seq<real>, anchorDraws: seq<Pos>, swaps: seq<(int, int)>)
    returns (child: Placed<seq<Pos>>, coinsUsed: nat, indexUsed: nat, anchorsUsed: nat)
    requires |p| == |shapes|
    requires |p| > 0 ==> 0 <= nbMuted < |p|
    requires forall k :: 0 <= k < |indexDraws| ==> 0 <= indexDraws[k] < |p|
    requires AnchorDraws(anchorDraws, space)
    requires forall k :: 0 <= k < |swaps| ==> swaps[k].0 != swaps[k].1 && 0 <= swaps[k].0 < |p| && 0 <= swaps[k].1 < |p|
    ensures anchorBranch && |p| == 0 ==> child == Raised(ValueError)
    ensures !anchorBranch ==> (|p| < 2 <==> child == Raised(ValueError))
    ensures child.Placed? ==> |child.value| == |p|
    ensures child.Placed? && !anchorBranch ==>
              exists a, b :: 0 <= a < |p| && 0 <= b < |p| && a != b && child.value == p[a := p[b]][b := p[a]]
                && !OutOfSpace(shapes[a], p[b], space) && !OutOfSpace(shapes[b], p[a], space)
    ensures child.Placed? && anchorBranch ==> forall i :: 0 <= i < |p| ==> MovedInGrid(p[i], child.value[i], space)
    ensures !anchorBranch && child.OutOfDraws? ==> forall k :: 0 <= k < |swaps| ==> SwapRejected(p, shapes, space, swaps[k])
    ensures anchorBranch && child.OutOfDraws? ==>
              (fromConflicts && coinsUsed == |coins|) || indexUsed == |indexDraws| || |components| < nbMuted
              || anchorsUsed == |anchorDraws|
  {
    coinsUsed, indexUsed, anchorsUsed := 0, 0, 0;
    if anchorBranch {
      if |p| == 0 {
        return Raised(ValueError), coinsUsed, indexUsed, anchorsUsed;
      }
      var muted;
      muted, coinsUsed, indexUsed := MutedIndexes(p, shapes, nbMuted, fromConflicts, coins, indexDraws);
      if muted.None? {
        return OutOfDraws, coinsUsed, indexUsed, anchorsUsed;
      }
      child, anchorsUsed := MoveListed(p, shapes, space, muted.value, components, anchorDraws);
    } else {
      var a, b, used;
      child, a, b, used := SwapMutation(p, shapes, space, swaps);
    }
  }

  // ---------------------------------------------------------------------
  // The individual
  // ---------------------------------------------------------------------

  class PositionningIndiv {
    /** The anchors; None until `generate` or a crossover sets them. */
    var positions: Option<seq<Pos>>
    /** The base class's optimised fitness, the one `getFitness` returns. */
    var optimised: Option<real>

    constructor()
      ensures positions == None && optimised == None
    {
      positions := None;
      optimised := None;
    }

    /** duplicate: a new individual with a copy of the anchors and no
        fitness; iterating over unset anchors raises a TypeError. */
    method Duplicate() returns (r: Result<PositionningIndiv>)
      ensures r.Err? <==> positions == None
      ensures r.Err? ==> r.error == TypeError
      ensures r.Ok? ==> fresh(r.value) && r.value.positions == positions && r.value.optimised == None
    {
      if positions == None {
        return Err(TypeError);
      }
      var src := positions.value;
      var copy: seq<Pos> := [];
      var i := 0;
      while i < |src|
        invariant 0 <= i <= |src| && copy == src[..i]
      {
        copy := copy + [Pos(src[i].x, src[i].y)];
        i := i + 1;
      }
      assert copy == src;
      var d := new PositionningIndiv();
      d.positions := Some(copy);
      r := Ok(d);
    }

    /** isBetter: a smaller fitness, None below every number. */
    predicate IsBetter(other: PositionningIndiv)
      reads this, other
    {
      SelfOptimize.Lt(optimised, other.optimised)
    }
  }

  /** isBetter is a strict order on individuals: never better than itself,
      never both ways, and transitive. */
  lemma IsBetterStrictOrder(a: PositionningIndiv, b: PositionningIndiv, c: PositionningIndiv)
    ensures !a.IsBetter(a)
    ensures a.IsBetter(b) ==> !b.IsBetter(a)
    ensures a.IsBetter(b) && b.IsBetter(c) ==> a.IsBetter(c)
  {
  }
}
