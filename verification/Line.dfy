/**
  The cells of a straight line: along the longer axis one cell per step, along
  the shorter one the ideal line rounded to the nearest cell, halves away from
  the origin.
 */
module Line {
  import opened Arithmetic
  import opened WalkGrid

  /** The coordinate `i` cells from `from` in the direction of `to`. */
  function Along(from: int, to: int, i: int): int {
    if from >= to then from - i else from + i
  }

  /** Number of steps of the line: the Chebyshev distance. */
  function Steps(a: Point, b: Point): nat {
    Max(Abs(b.x - a.x), Abs(b.y - a.y))
  }

  /** `k * minor / major` rounded to the nearest integer, halves up. */
  function Rounded(k: nat, minor: nat, major: nat): int
    requires major > 0
  {
    (2 * (k * minor) + major) / (2 * major)
  }

  /** The cell reached after `k` steps. */
  function LinePoint(a: Point, b: Point, k: nat): Point {
    var dx, dy := Abs(b.x - a.x), Abs(b.y - a.y);
    if dx == 0 && dy == 0 then a
    else if dx >= dy then Point(Along(a.x, b.x, k), Along(a.y, b.y, Rounded(k, dy, dx)))
    else Point(Along(a.x, b.x, Rounded(k, dx, dy)), Along(a.y, b.y, k))
  }

  /** Line of sight: every cell strictly between the ends is walkable. */
  ghost predicate Clear(g: Grid, a: Point, b: Point) {
    forall k: nat {:trigger LinePoint(a, b, k)} :: 0 < k < Steps(a, b) ==>
      g.walkable(LinePoint(a, b, k).x, LinePoint(a, b, k).y)
  }

  /** A rounded value is the one integer within half a cell, the upper one on ties. */
  lemma RoundedUnique(k: nat, minor: nat, major: nat, j: int)
    requires major > 0
    ensures j == Rounded(k, minor, major) <==> 2 * (k * minor) - major < 2 * (j * major) <= 2 * (k * minor) + major
  {
    var n, q := 2 * (k * minor) + major, Rounded(k, minor, major);
    assert n == 2 * major * q + n % (2 * major);
    assert 2 * major * q == 2 * (q * major);
    if 2 * (k * minor) - major < 2 * (j * major) <= 2 * (k * minor) + major {
      assert 2 * (j * major) - 2 * (q * major) == (j - q) * (2 * major);
      assert -(2 * major) < (j - q) * (2 * major) < 2 * major;
      OnlyZero(j - q, 2 * major);
    }
  }

  lemma RoundedEnds(minor: nat, major: nat)
    requires 0 < major && minor <= major
    ensures Rounded(0, minor, major) == 0 && Rounded(major, minor, major) == minor
  {
    assert minor * major == major * minor;
    RoundedUnique(0, minor, major, 0);
    RoundedUnique(major, minor, major, minor);
  }

  /** The line starts and ends where it should. */
  lemma LineEnds(a: Point, b: Point)
    ensures LinePoint(a, b, 0) == a && LinePoint(a, b, Steps(a, b)) == b
  {
    var dx, dy := Abs(b.x - a.x), Abs(b.y - a.y);
    if dx >= dy && dx > 0 {
      RoundedEnds(dy, dx);
    } else if dy > dx {
      RoundedEnds(dx, dy);
    }
  }

  /** No cell of the line is further than half a cell from the ideal line. */
  lemma LineDeviation(a: Point, b: Point, k: nat)
    requires k <= Steps(a, b)
    ensures var p := LinePoint(a, b, k);
      var i, j, dx, dy := Abs(p.x - a.x), Abs(p.y - a.y), Abs(b.x - a.x), Abs(b.y - a.y);
      2 * Abs(j * dx - i * dy) <= Steps(a, b) && Max(i, j) == k
  {
    var dx, dy := Abs(b.x - a.x), Abs(b.y - a.y);
    if dx >= dy && dx > 0 {
      RoundedBetween(k, dy, dx);
      RoundedUnique(k, dy, dx, Rounded(k, dy, dx));
    } else if dy > dx {
      RoundedBetween(k, dx, dy);
      RoundedUnique(k, dx, dy, Rounded(k, dx, dy));
    }
  }

  lemma RoundedBetween(k: nat, minor: nat, major: nat)
    requires 0 < major && minor <= major
    ensures 0 <= Rounded(k, minor, major) <= k
  {
    assert 0 <= k * minor <= k * major;
    QuotientBetween(2 * (k * minor) + major, 2 * major, k);
  }

  lemma QuotientBetween(n: nat, m: nat, k: nat)
    requires m > 0 && 2 * n <= 2 * (k * m) + m
    ensures 0 <= n / m <= k
  {
    var q := n / m;
    assert n == m * q + n % m;
    Product(q, k + 1, m);
    assert k * m + m == (k + 1) * m;
  }

  // ----- the cells between, by their coordinates -----

  /** How far `at` lies from `from` in the direction of `to`. */
  function Offset(from: int, to: int, at: int): int {
    if from >= to then from - at else at - from
  }

  /** `j` is i * minor / major within half a cell, the upper one on ties. */
  predicate Nearest(i: int, minor: int, j: int, major: int) {
    2 * (i * minor) - major < 2 * (j * major) <= 2 * (i * minor) + major
  }

  /** A cell strictly between the ends and nearest to the straight line through them. */
  predicate Between(a: Point, b: Point, p: Point) {
    var dx, dy := Abs(b.x - a.x), Abs(b.y - a.y);
    var i, j := Offset(a.x, b.x, p.x), Offset(a.y, b.y, p.y);
    if dx >= dy then 0 < i < dx && Nearest(i, dy, j, dx) else 0 < j < dy && Nearest(j, dx, i, dy)
  }

  lemma PointIsBetween(a: Point, b: Point, k: nat)
    requires 0 < k < Steps(a, b)
    ensures Between(a, b, LinePoint(a, b, k))
  {
    var dx, dy := Abs(b.x - a.x), Abs(b.y - a.y);
    if dx >= dy {
      RoundedUnique(k, dy, dx, Rounded(k, dy, dx));
    } else {
      RoundedUnique(k, dx, dy, Rounded(k, dx, dy));
    }
    hide Rounded;
  }

  lemma BetweenIsPoint(a: Point, b: Point, p: Point) returns (k: nat)
    requires Between(a, b, p)
    ensures 0 < k < Steps(a, b) && p == LinePoint(a, b, k)
  {
    var dx, dy := Abs(b.x - a.x), Abs(b.y - a.y);
    if dx >= dy {
      k := Offset(a.x, b.x, p.x);
      RoundedUnique(k, dy, dx, Offset(a.y, b.y, p.y));
    } else {
      k := Offset(a.y, b.y, p.y);
      RoundedUnique(k, dx, dy, Offset(a.x, b.x, p.x));
    }
    hide Rounded;
  }

  /** Sight is clear exactly when every such cell is walkable. */
  lemma ClearMeans(g: Grid, a: Point, b: Point)
    ensures Clear(g, a, b) <==> forall p :: Between(a, b, p) ==> g.walkable(p.x, p.y)
  {
    hide LinePoint, Between, Steps;
    if Clear(g, a, b) {
      forall p | Between(a, b, p) ensures g.walkable(p.x, p.y) {
        var k := BetweenIsPoint(a, b, p);
      }
    }
    if forall p :: Between(a, b, p) ==> g.walkable(p.x, p.y) {
      forall k: nat {:trigger LinePoint(a, b, k)} | 0 < k < Steps(a, b)
        ensures g.walkable(LinePoint(a, b, k).x, LinePoint(a, b, k).y)
      {
        PointIsBetween(a, b, k);
      }
    }
  }

  // ----- the error-term loop -----

  /** After k turns, i steps were taken along x and j along y, on the rounded line. */
  ghost predicate OnLine(dx: nat, dy: nat, i: int, j: int, k: nat) {
    if dx == 0 && dy == 0 then i == 0 && j == 0 && k == 0
    else if dx >= dy then i == k <= dx && j == Rounded(k, dy, dx)
    else j == k <= dy && i == Rounded(k, dx, dy)
  }

  lemma OnLineStart(dx: nat, dy: nat)
    ensures OnLine(dx, dy, 0, 0, 0)
  {
    if dx >= dy && dx > 0 {
      RoundedEnds(dy, dx);
    } else if dy > dx {
      RoundedEnds(dx, dy);
    }
  }

  /** Where the loop stands is the line's k-th cell; it is the far end exactly when all steps are done. */
  lemma OnLinePoint(a: Point, b: Point, i: int, j: int, k: nat)
    requires OnLine(Abs(b.x - a.x), Abs(b.y - a.y), i, j, k)
    ensures LinePoint(a, b, k) == Point(Along(a.x, b.x, i), Along(a.y, b.y, j))
    ensures k <= Steps(a, b)
    ensures LinePoint(a, b, k) == b <==> k == Steps(a, b)
    ensures LinePoint(a, b, k) == a <==> k == 0
  {
    LineEnds(a, b);
  }

  /** The error term after i steps along x and j along y. */
  ghost function ErrorTerm(dx: nat, dy: nat, i: int, j: int): int {
    dx * (1 + j) - dy * (1 + i)
  }

  lemma ErrorMoves(dx: nat, dy: nat, i: int, j: int)
    ensures ErrorTerm(dx, dy, 0, 0) == dx - dy
    ensures ErrorTerm(dx, dy, i + 1, j) == ErrorTerm(dx, dy, i, j) - dy
    ensures ErrorTerm(dx, dy, i, j + 1) == ErrorTerm(dx, dy, i, j) + dx
    ensures ErrorTerm(dx, dy, i + 1, j + 1) == ErrorTerm(dx, dy, i, j) + dx - dy
  {
    assert dx * (2 + j) == dx * (1 + j) + dx;
    assert dy * (2 + i) == dy * (1 + i) + dy;
  }

  lemma AlongMoves(from: int, to: int, i: int)
    ensures Along(from, to, 0) == from
    ensures Along(from, to, i + 1) == Along(from, to, i) + if from >= to then -1 else 1
  {
  }

  /** One turn: a step along the longer axis always, along the other when the error term says so. */
  lemma OnLineStep(dx: nat, dy: nat, i: int, j: int, k: nat)
    requires OnLine(dx, dy, i, j, k) && k < Max(dx, dy)
    ensures var e2 := 2 * ErrorTerm(dx, dy, i, j);
      var i' := if e2 >= -(dy as int) then i + 1 else i;
      var j' := if e2 <= dx then j + 1 else j;
      OnLine(dx, dy, i', j', k + 1) && i' <= dx && j' <= dy
  {
    hide Rounded, ErrorTerm;
    if dx >= dy {
      TurnAlongX(dx, dy, j, k);
      RoundedWithin(k + 1, dy, dx);
    } else {
      TurnAlongY(dx, dy, i, k);
      RoundedWithin(k + 1, dx, dy);
    }
  }

  lemma TurnAlongX(dx: nat, dy: nat, j: int, k: nat)
    requires dx >= dy && dx > 0 && j == Rounded(k, dy, dx)
    ensures var e2 := 2 * ErrorTerm(dx, dy, k, j);
      e2 >= -(dy as int) && Rounded(k + 1, dy, dx) == if e2 <= dx then j + 1 else j
  {
    hide Rounded, ErrorTerm;
    ErrorExpanded(dx, dy, k, j);
    NextRounded(k, dy, dx, j);
  }

  lemma TurnAlongY(dx: nat, dy: nat, i: int, k: nat)
    requires dx < dy && i == Rounded(k, dx, dy)
    ensures var e2 := 2 * ErrorTerm(dx, dy, i, k);
      e2 <= dx && Rounded(k + 1, dx, dy) == if e2 >= -(dy as int) then i + 1 else i
  {
    hide Rounded, ErrorTerm;
    ErrorExpanded(dx, dy, i, k);
    NextRounded(k, dx, dy, i);
  }

  lemma ErrorExpanded(dx: nat, dy: nat, i: int, j: int)
    ensures ErrorTerm(dx, dy, i, j) == j * dx - i * dy + dx - dy
  {
    assert dx * (1 + j) == dx + j * dx && dy * (1 + i) == dy + i * dy;
  }

  /** How the rounded value moves when k grows by one. */
  lemma NextRounded(k: nat, minor: nat, major: nat, q: int)
    requires major > 0 && minor <= major && q == Rounded(k, minor, major)
    ensures 2 * (q * major - k * minor + major) > major
    ensures 2 * (q * major - k * minor + major - minor) <= major ==> Rounded(k + 1, minor, major) == q + 1
    ensures 2 * (q * major - k * minor + major - minor) > major ==> Rounded(k + 1, minor, major) == q
  {
    hide Rounded;
    RoundedUnique(k, minor, major, q);
    RoundedUnique(k + 1, minor, major, q);
    RoundedUnique(k + 1, minor, major, q + 1);
    assert (k + 1) * minor == k * minor + minor;
    assert (q + 1) * major == q * major + major;
  }

  lemma RoundedWithin(k: nat, minor: nat, major: nat)
    requires k <= major && major > 0
    ensures 0 <= Rounded(k, minor, major) <= minor
  {
    Product(major, k, minor + 1);
    assert k * minor <= major * minor;
    assert minor * (2 * major) == 2 * (major * minor);
    QuotientBetween(2 * (k * minor) + major, 2 * major, minor);
  }

  // ----- direction dependence -----

  /** The ideal line passes exactly half way between two cells. */
  predicate Tie(k: nat, minor: nat, major: nat)
    requires major > 0
  {
    (2 * (k * minor) + major) % (2 * major) == 0
  }

  lemma RoundedReverse(k: nat, minor: nat, major: nat)
    requires 0 < major && k <= major
    ensures Rounded(major - k, minor, major) == minor - Rounded(k, minor, major) <==> !Tie(k, minor, major)
  {
    var n, q := 2 * (k * minor) + major, Rounded(k, minor, major);
    RoundedUnique(k, minor, major, q);
    RoundedUnique(major - k, minor, major, minor - q);
    assert n == 2 * major * q + n % (2 * major);
    assert 2 * major * q == 2 * (q * major);
    assert (minor - q) * major == minor * major - q * major;
    assert (major - k) * minor == major * minor - k * minor;
  }

  /**
    The lines from `a` to `b` and from `b` to `a` agree at a step exactly when that step is not a
    tie.
   */
  lemma LineReverses(a: Point, b: Point, k: nat)
    requires a != b && k <= Steps(a, b)
    ensures LinePoint(b, a, Steps(a, b) - k) == LinePoint(a, b, k)
       <==> !Tie(k, Abs(b.x - a.x) + Abs(b.y - a.y) - Steps(a, b), Steps(a, b))
  {
    var dx, dy := Abs(b.x - a.x), Abs(b.y - a.y);
    hide Rounded, Tie;
    if dx >= dy {
      RoundedReverse(k, dy, dx);
      FlatAxis(k, dy, dx);
      FlatAxis(dx - k, dy, dx);
    } else {
      RoundedReverse(k, dx, dy);
      FlatAxis(k, dx, dy);
      FlatAxis(dy - k, dx, dy);
    }
  }

  lemma FlatAxis(k: nat, minor: nat, major: nat)
    requires major > 0
    ensures minor == 0 ==> Rounded(k, minor, major) == 0
  {
    RoundedUnique(k, minor, major, 0);
  }

  /** Step `k` of the line from `a` to `b` is a tie. */
  predicate TieAt(a: Point, b: Point, k: nat)
    requires a != b
  {
    Tie(k, Abs(b.x - a.x) + Abs(b.y - a.y) - Steps(a, b), Steps(a, b))
  }

  ghost predicate SightSymmetric(a: Point, b: Point) {
    forall g :: Clear(g, a, b) <==> Clear(g, b, a)
  }

  /** On every grid sight is the same in both directions exactly when no inner step of the line is a tie. */
  lemma SightSymmetricIff(a: Point, b: Point)
    requires a != b
    ensures SightSymmetric(a, b) <==> forall k: nat :: 0 < k < Steps(a, b) ==> !TieAt(a, b, k)
  {
    hide Clear, TieAt, LinePoint;
    if k: nat :| 0 < k < Steps(a, b) && TieAt(a, b, k) {
      TieBlocks(a, b, k);
    } else {
      forall g ensures Clear(g, a, b) <==> Clear(g, b, a) {
        NoTieClear(g, a, b);
      }
    }
  }

  lemma NoTieClear(g: Grid, a: Point, b: Point)
    requires a != b && forall k: nat :: 0 < k < Steps(a, b) ==> !TieAt(a, b, k)
    ensures Clear(g, a, b) <==> Clear(g, b, a)
  {
    var n := Steps(a, b);
    forall k: nat | 0 < k < n ensures LinePoint(b, a, n - k) == LinePoint(a, b, k) {
      LineReverses(a, b, k);
      assert !TieAt(a, b, k);
    }
    hide LinePoint;
    forall k: nat | 0 < k < n ensures LinePoint(b, a, k) == LinePoint(a, b, n - k) {
      assert 0 < n - k < n && n - (n - k) == k;
    }
  }

  /** The grid on which only the tie cell is blocked tells the two directions apart. */
  lemma TieBlocks(a: Point, b: Point, k: nat)
    requires a != b && 0 < k < Steps(a, b) && TieAt(a, b, k)
    ensures !SightSymmetric(a, b)
  {
    var p, n := LinePoint(a, b, k), Steps(a, b);
    var g := Grid(0, 0, (x, y) => !(x == p.x && y == p.y));
    forall m: nat | 0 < m < n ensures LinePoint(b, a, m) != p {
      LineReverses(a, b, k);
      if m != n - k {
        AlongMajor(a, b, k, m);
      }
    }
    hide LinePoint, TieAt;
    assert !Clear(g, a, b);
    assert Clear(g, b, a);
  }

  /** Cells of opposite lines can coincide only at matching steps. */
  lemma AlongMajor(a: Point, b: Point, k: nat, m: nat)
    requires a != b && 0 < k < Steps(a, b) && 0 < m < Steps(a, b) && m != Steps(a, b) - k
    ensures LinePoint(b, a, m) != LinePoint(a, b, k)
  {
    hide Rounded;
  }

  /** With only (1,1) blocked, (0,0) does not see (2,1), but (2,1) sees (0,0). */
  lemma SightNotSymmetric(g: Grid)
    requires g.walkable(1, 0) && !g.walkable(1, 1)
    ensures !Clear(g, Point(0, 0), Point(2, 1)) && Clear(g, Point(2, 1), Point(0, 0))
  {
    hide Rounded;
    var a, b := Point(0, 0), Point(2, 1);
    RoundedUnique(1, 1, 2, 1);
    assert LinePoint(a, b, 1) == Point(1, 1);
    assert LinePoint(b, a, 1) == Point(1, 0);
  }
}
