/**
  Neighbourhood recombination: the offspring starts as parent 1 and every cell
  that is empty in the offspring but filled in parent 2 is a candidate move of
  parent 2's course into that cell, guarded by two conflict checks on the
  cell's period. Every move relocates courses that are already in the
  offspring, so the multiset of course ids never changes.

  The random choice among the positions of a course is an oracle `pick`: the
  step at cell `(i, j)` uses the index `pick(i, j)`, reduced modulo the number
  of positions.
*/
module Recombination {
  import opened Wrappers
  import opened Timetable

  /** A cell of the grid: period (row) and room (column). */
  datatype Position = Position(period: nat, room: nat)

  /** Recombination aborts when a swap needs the course's own position and there is none. */
  datatype RecombineError = NullPosition

  predicate InGrid(g: Grid, q: Position) {
    q.period < |g| && q.room < |g[q.period]|
  }

  function At(g: Grid, q: Position): Cell
    requires InGrid(g, q)
  {
    g[q.period][q.room]
  }

  /** Same number of periods and same number of rooms in every period. */
  predicate SameShape(a: Grid, b: Grid) {
    && |a| == |b|
    && forall p :: 0 <= p < |a| ==> |a[p]| == |b[p]|
  }

  /** `big` can be indexed at every cell of `small`. */
  predicate Covers(big: Grid, small: Grid) {
    && |small| <= |big|
    && forall p :: 0 <= p < |small| ==> |small[p]| <= |big[p]|
  }

  /** The grid with one cell replaced. */
  function Put(g: Grid, q: Position, c: Cell): (g': Grid)
    requires InGrid(g, q)
    ensures SameShape(g', g)
    ensures At(g', q) == c
    ensures forall q' :: InGrid(g, q') && q' != q ==> At(g', q') == At(g, q')
  {
    g[q.period := g[q.period][q.room := c]]
  }

  // ---------------------------------------------------------------------------
  // The multiset of course ids held by a grid
  // ---------------------------------------------------------------------------

  function CellIds(c: Cell): multiset<CourseId> {
    if c.Some? then multiset{c.value.id} else multiset{}
  }

  function RowIds(row: Row): multiset<CourseId> {
    if |row| == 0 then multiset{} else RowIds(row[..|row| - 1]) + CellIds(row[|row| - 1])
  }

  function GridIds(g: Grid): multiset<CourseId> {
    if |g| == 0 then multiset{} else GridIds(g[..|g| - 1]) + RowIds(g[|g| - 1])
  }

  /** Number of occupied cells in a row. */
  function OccupiedInRow(row: Row): nat {
    if |row| == 0 then 0 else OccupiedInRow(row[..|row| - 1]) + (if row[|row| - 1].Some? then 1 else 0)
  }

  /** Number of occupied cells in a grid. */
  function Occupied(g: Grid): nat {
    if |g| == 0 then 0 else Occupied(g[..|g| - 1]) + OccupiedInRow(g[|g| - 1])
  }

  /** Every occupied cell contributes exactly one id. */
  lemma {:induction false} OccupiedIsIdCount(g: Grid)
    ensures |GridIds(g)| == Occupied(g)
  {
    if |g| > 0 {
      OccupiedIsIdCount(g[..|g| - 1]);
      OccupiedInRowIsIdCount(g[|g| - 1]);
    }
  }

  lemma {:induction false} OccupiedInRowIsIdCount(row: Row)
    ensures |RowIds(row)| == OccupiedInRow(row)
  {
    if |row| > 0 {
      OccupiedInRowIsIdCount(row[..|row| - 1]);
    }
  }

  /** Replacing one cell of a row trades that cell's id for the new cell's id. */
  lemma {:induction false} RowIdsUpdate(row: Row, j: nat, c: Cell)
    requires j < |row|
    ensures RowIds(row[j := c]) + CellIds(row[j]) == RowIds(row) + CellIds(c)
  {
    var n := |row| - 1;
    var row' := row[j := c];
    var front := RowIds(row[..n]);
    assert RowIds(row) == front + CellIds(row[n]);
    if j == n {
      assert row'[..n] == row[..n];
      assert RowIds(row') == front + CellIds(c);
    } else {
      var front' := RowIds(row[..n][j := c]);
      assert row'[..n] == row[..n][j := c];
      assert RowIds(row') == front' + CellIds(row[n]);
      RowIdsUpdate(row[..n], j, c);
      assert row[..n][j] == row[j];
      assert front' + CellIds(row[j]) == front + CellIds(c);
      calc {
        RowIds(row') + CellIds(row[j]);
        front' + CellIds(row[n]) + CellIds(row[j]);
        (front' + CellIds(row[j])) + CellIds(row[n]);
        front + CellIds(c) + CellIds(row[n]);
        RowIds(row) + CellIds(c);
      }
    }
  }

  /** Replacing one cell of a grid trades that cell's id for the new cell's id. */
  lemma {:induction false} GridIdsUpdate(g: Grid, q: Position, c: Cell)
    requires InGrid(g, q)
    ensures GridIds(Put(g, q, c)) + CellIds(At(g, q)) == GridIds(g) + CellIds(c)
  {
    var n := |g| - 1;
    var g' := Put(g, q, c);
    var front := GridIds(g[..n]);
    assert GridIds(g) == front + RowIds(g[n]);
    if q.period == n {
      assert g'[..n] == g[..n];
      assert g'[n] == g[n][q.room := c];
      RowIdsUpdate(g[n], q.room, c);
      assert GridIds(g') == front + RowIds(g[n][q.room := c]);
      assert At(g, q) == g[n][q.room];
      calc {
        GridIds(g') + CellIds(At(g, q));
        front + (RowIds(g[n][q.room := c]) + CellIds(g[n][q.room]));
        front + (RowIds(g[n]) + CellIds(c));
        GridIds(g) + CellIds(c);
      }
    } else {
      var front' := GridIds(Put(g[..n], q, c));
      assert g'[..n] == Put(g[..n], q, c);
      assert g'[n] == g[n];
      assert GridIds(g') == front' + RowIds(g[n]);
      GridIdsUpdate(g[..n], q, c);
      assert At(g[..n], q) == At(g, q);
      calc {
        GridIds(g') + CellIds(At(g, q));
        (front' + CellIds(At(g, q))) + RowIds(g[n]);
        front + CellIds(c) + RowIds(g[n]);
        GridIds(g) + CellIds(c);
      }
    }
  }

  /** A cell holding the course puts its id into the row's multiset. */
  lemma {:induction false} RowIdsHas(row: Row, r: nat, id: CourseId)
    requires r < |row| && Holds(row[r], id)
    ensures id in RowIds(row)
  {
    var n := |row| - 1;
    assert RowIds(row) == RowIds(row[..n]) + CellIds(row[n]);
    if r < n {
      assert row[..n][r] == row[r];
      RowIdsHas(row[..n], r, id);
    }
  }

  /** An id in the row's multiset comes from a cell holding that course. */
  lemma {:induction false} RowIdsWitness(row: Row, id: CourseId) returns (r: nat)
    requires id in RowIds(row)
    ensures r < |row| && Holds(row[r], id)
  {
    var n := |row| - 1;
    assert RowIds(row) == RowIds(row[..n]) + CellIds(row[n]);
    if id in RowIds(row[..n]) {
      r := RowIdsWitness(row[..n], id);
      assert row[..n][r] == row[r];
    } else {
      r := n;
    }
  }

  /** A cell holding the course puts its id into the grid's multiset. */
  lemma {:induction false} GridIdsHas(g: Grid, q: Position, id: CourseId)
    requires InGrid(g, q) && Holds(At(g, q), id)
    ensures id in GridIds(g)
  {
    var n := |g| - 1;
    assert GridIds(g) == GridIds(g[..n]) + RowIds(g[n]);
    if q.period < n {
      assert At(g[..n], q) == At(g, q);
      GridIdsHas(g[..n], q, id);
    } else {
      RowIdsHas(g[n], q.room, id);
    }
  }

  /** An id in the grid's multiset comes from a cell holding that course. */
  lemma {:induction false} GridIdsWitness(g: Grid, id: CourseId) returns (q: Position)
    requires id in GridIds(g)
    ensures InGrid(g, q) && Holds(At(g, q), id)
  {
    var n := |g| - 1;
    assert GridIds(g) == GridIds(g[..n]) + RowIds(g[n]);
    if id in GridIds(g[..n]) {
      q := GridIdsWitness(g[..n], id);
      assert At(g[..n], q) == At(g, q);
    } else {
      var r := RowIdsWitness(g[n], id);
      q := Position(n, r);
    }
  }

  /** A course id is in the grid's multiset exactly when some cell holds that course. */
  lemma GridIdsMembership(g: Grid, id: CourseId)
    ensures id in GridIds(g) <==> exists q :: InGrid(g, q) && Holds(At(g, q), id)
  {
    if id in GridIds(g) {
      var q := GridIdsWitness(g, id);
    }
    if exists q :: InGrid(g, q) && Holds(At(g, q), id) {
      var q :| InGrid(g, q) && Holds(At(g, q), id);
      GridIdsHas(g, q, id);
    }
  }

  // ---------------------------------------------------------------------------
  // Lookups
  // ---------------------------------------------------------------------------

  /** The cells of period `p` among rooms `0 .. n - 1` holding the course with this id. */
  function PositionsInRow(row: Row, p: nat, id: CourseId, n: nat): (ps: seq<Position>)
    requires n <= |row|
    ensures forall q :: q in ps <==> q.period == p && q.room < n && Holds(row[q.room], id)
  {
    if n == 0 then []
    else PositionsInRow(row, p, id, n - 1) + (if Holds(row[n - 1], id) then [Position(p, n - 1)] else [])
  }

  /** The cells of periods `0 .. n - 1` holding the course with this id. */
  function PositionsUpTo(g: Grid, id: CourseId, n: nat): (ps: seq<Position>)
    requires n <= |g|
    ensures forall q :: q in ps <==> q.period < n && InGrid(g, q) && Holds(At(g, q), id)
  {
    if n == 0 then []
    else PositionsUpTo(g, id, n - 1) + PositionsInRow(g[n - 1], n - 1, id, |g[n - 1]|)
  }

  /** Every cell holding the course with this id, matched by id, in period-then-room order. */
  function PositionOfCourse(g: Grid, id: CourseId): (ps: seq<Position>)
    ensures forall q :: q in ps <==> InGrid(g, q) && Holds(At(g, q), id)
  {
    PositionsUpTo(g, id, |g|)
  }

  /** The random pick: nothing from an empty collection, otherwise the entry at the oracle's index. */
  function CoursePositionRandomly(ps: seq<Position>, k: nat): (c: Option<Position>)
    ensures c.None? <==> |ps| == 0
    ensures c.Some? ==> c.value in ps
  {
    if |ps| == 0 then None else Some(ps[k % |ps|])
  }

  /** Every position can be the one picked: the oracle covers the random choice. */
  lemma EveryPositionCanBePicked(ps: seq<Position>, q: Position)
    requires q in ps
    ensures exists k: nat :: CoursePositionRandomly(ps, k) == Some(q)
  {
    var k :| 0 <= k < |ps| && ps[k] == q;
    assert k % |ps| == k;
    assert CoursePositionRandomly(ps, k) == Some(q);
  }

  /** Some course in the row from room `from` on is taught by the same teacher. */
  function SameTeacherFrom(row: Row, x: Course, from: nat): (b: bool)
    requires from <= |row|
    ensures b <==> exists r :: from <= r < |row| && row[r].Some? && row[r].value.teacher == x.teacher
    decreases |row| - from
  {
    if from == |row| then false
    else if row[from].Some? && row[from].value.teacher == x.teacher then true
    else SameTeacherFrom(row, x, from + 1)
  }

  /** Some course in the period is taught by the teacher of `x`. */
  function ExistsSameTeacherInPeriod(g: Grid, x: Course, period: nat): (b: bool)
    requires period < |g|
    ensures b <==> exists r :: 0 <= r < |g[period]| && g[period][r].Some? && g[period][r].value.teacher == x.teacher
  {
    SameTeacherFrom(g[period], x, 0)
  }

  /** The curriculum loop over one course: does it meet a curriculum of `x`? */
  function SharesCurriculum(c: Course, x: Course): (b: bool)
    ensures b <==> exists cur :: cur in c.curricula && cur in x.curricula
  {
    !(c.curricula !! x.curricula)
  }

  /** Some course in the row from room `from` on shares a curriculum with `x`. */
  function SameCurriculumFrom(row: Row, x: Course, from: nat): (b: bool)
    requires from <= |row|
    ensures b <==> exists r, cur :: from <= r < |row| && row[r].Some? && cur in row[r].value.curricula && cur in x.curricula
    decreases |row| - from
  {
    if from == |row| then false
    else if row[from].Some? && SharesCurriculum(row[from].value, x) then true
    else SameCurriculumFrom(row, x, from + 1)
  }

  /** Some course in the period belongs to a curriculum of `x`. */
  function ExistsSameCurriculumInPeriod(g: Grid, x: Course, period: nat): (b: bool)
    requires period < |g|
    ensures b <==> exists r, cur :: 0 <= r < |g[period]| && g[period][r].Some? && cur in g[period][r].value.curricula && cur in x.curricula
  {
    SameCurriculumFrom(g[period], x, 0)
  }

  /** Two finite sets of equal size, one containing the other, are equal. */
  lemma EqualSizeSubset<T>(a: set<T>, b: set<T>)
    requires b <= a && |a| == |b|
    ensures a == b
  {
    var extra := a - b;
    assert a == b + extra;
    assert b * extra == {};
    assert |extra| == 0;
  }

  /** The cell holds a course with the teacher and exactly the curricula of `x`. */
  predicate Interchangeable(c: Cell, x: Course) {
    c.Some? && c.value.teacher == x.teacher && c.value.curricula == x.curricula
  }

  /**
    The first room from `from` on whose course has the teacher of `x` and a
    curriculum set of the same size containing all of `x`'s curricula.
  */
  function InterchangeableFrom(row: Row, x: Course, from: nat): (r: Option<nat>)
    requires from <= |row|
    ensures r.Some? ==> from <= r.value < |row| && Interchangeable(row[r.value], x)
    ensures r.Some? ==> forall k :: from <= k < r.value ==> !Interchangeable(row[k], x)
    ensures r.None? <==> forall k :: from <= k < |row| ==> !Interchangeable(row[k], x)
    decreases |row| - from
  {
    if from == |row| then None
    else if row[from].Some? && row[from].value.teacher == x.teacher then
      var cur := row[from].value.curricula;
      if |cur| == |x.curricula| && x.curricula <= cur then
        EqualSizeSubset(cur, x.curricula);
        Some(from)
      else
        assert !Interchangeable(row[from], x);
        InterchangeableFrom(row, x, from + 1)
    else InterchangeableFrom(row, x, from + 1)
  }

  /** The lowest room of the period whose course has the teacher and the curricula of `x`. */
  function GetIfSameCurriculumAndSameTeacher(g: Grid, x: Course, period: nat): (c: Option<Position>)
    requires period < |g|
    ensures c.Some? ==> c.value.period == period && InGrid(g, c.value) && Interchangeable(At(g, c.value), x)
    ensures c.Some? ==> forall k :: 0 <= k < c.value.room ==> !Interchangeable(g[period][k], x)
    ensures c.None? <==> forall k :: 0 <= k < |g[period]| ==> !Interchangeable(g[period][k], x)
  {
    match InterchangeableFrom(g[period], x, 0)
    case None => None
    case Some(r) => Some(Position(period, r))
  }

  // ---------------------------------------------------------------------------
  // Moves
  // ---------------------------------------------------------------------------

  /** Clears the cell at `from`, which holds the course `x`, and writes `x` into the empty cell `to`. */
  function MoveCourse(g: Grid, from: Position, to: Position, x: Course): (g': Grid)
    requires InGrid(g, from) && InGrid(g, to)
    requires Holds(At(g, from), x.id) && At(g, to).None?
    ensures SameShape(g', g)
    ensures GridIds(g') == GridIds(g)
    ensures At(g', to) == Some(x) && At(g', from).None?
    ensures forall q :: InGrid(g, q) && q != from && q != to ==> At(g', q) == At(g, q)
  {
    var g1 := Put(g, from, None);
    GridIdsUpdate(g, from, None);
    assert GridIds(g1) + CellIds(Some(x)) == GridIds(g);
    assert At(g1, to) == None;
    GridIdsUpdate(g1, to, Some(x));
    Put(g1, to, Some(x))
  }

  /**
    The swap of the both-conflicts case: the course at `cp2` is written over
    the course `x` at `cp1`, `x` goes into the empty target, and `cp2` is
    cleared (so when `cp1` and `cp2` coincide, `x` simply moves to the target).
  */
  function SwapCourses(g: Grid, cp1: Position, cp2: Position, target: Position, x: Course): (g': Grid)
    requires InGrid(g, cp1) && InGrid(g, cp2) && InGrid(g, target)
    requires Holds(At(g, cp1), x.id) && At(g, cp2).Some? && At(g, target).None?
    ensures SameShape(g', g)
    ensures GridIds(g') == GridIds(g)
    ensures At(g', target) == Some(x) && At(g', cp2).None?
    ensures cp1 != cp2 ==> At(g', cp1) == At(g, cp2)
    ensures forall q :: InGrid(g, q) && q != cp1 && q != cp2 && q != target ==> At(g', q) == At(g, q)
  {
    SwapConserves(g, cp1, cp2, target, x);
    Put(Put(Put(g, cp1, At(g, cp2)), target, Some(x)), cp2, None)
  }

  lemma SwapConserves(g: Grid, cp1: Position, cp2: Position, target: Position, x: Course)
    requires InGrid(g, cp1) && InGrid(g, cp2) && InGrid(g, target)
    requires Holds(At(g, cp1), x.id) && At(g, cp2).Some? && At(g, target).None?
    ensures GridIds(Put(Put(Put(g, cp1, At(g, cp2)), target, Some(x)), cp2, None)) == GridIds(g)
  {
    var y := At(g, cp2);
    var g1 := Put(g, cp1, y);
    var g2 := Put(g1, target, Some(x));
    var g3 := Put(g2, cp2, None);
    var mx := CellIds(Some(x));
    var my := CellIds(y);
    GridIdsUpdate(g, cp1, y);
    assert GridIds(g1) + mx == GridIds(g) + my;
    GridIdsUpdate(g1, target, Some(x));
    assert GridIds(g2) == GridIds(g1) + mx;
    GridIdsUpdate(g2, cp2, None);
    assert GridIds(g3) + my == GridIds(g2);
    Cancel(GridIds(g3), GridIds(g), my);
  }

  lemma Cancel<T>(a: multiset<T>, b: multiset<T>, c: multiset<T>)
    requires a + c == b + c
    ensures a == b
  {
    assert forall t :: a[t] == (a + c)[t] - c[t];
  }

  /**
    One cell of the scan. `incoming` is parent 2's course at the target cell
    and `k` the oracle's index for the random pick.
  */
  function Step(g: Grid, incoming: Cell, target: Position, k: nat): (r: Result<Grid, RecombineError>)
    requires InGrid(g, target)
    ensures r.Success? ==> SameShape(r.value, g) && GridIds(r.value) == GridIds(g)
    ensures At(g, target).Some? || incoming.None? ==> r == Success(g)
    ensures r.Success? && At(r.value, target) != At(g, target) ==> At(r.value, target) == incoming
    ensures r.Success? ==> forall q :: InGrid(g, q) && At(r.value, q).Some? ==> At(g, q).Some? || q == target
    ensures r.Failure? ==> incoming.Some? && incoming.value.id !in GridIds(g)
  {
    if At(g, target).Some? || incoming.None? then Success(g)
    else
      var x := incoming.value;
      var sameCurriculum := ExistsSameCurriculumInPeriod(g, x, target.period);
      var sameTeacher := ExistsSameTeacherInPeriod(g, x, target.period);
      if !sameCurriculum && !sameTeacher then
        match CoursePositionRandomly(PositionOfCourse(g, x.id), k)
        case None => Success(g)
        case Some(cp1) => Success(MoveCourse(g, cp1, target, x))
      else if sameCurriculum && sameTeacher then
        var cp1 := CoursePositionRandomly(PositionOfCourse(g, x.id), k);
        match GetIfSameCurriculumAndSameTeacher(g, x, target.period)
        case None => Success(g)
        case Some(cp2) =>
          if cp1.None? then
            GridIdsMembership(g, x.id);
            Failure(NullPosition)
          else Success(SwapCourses(g, cp1.value, cp2, target, x))
      else Success(g)
  }

  // ---------------------------------------------------------------------------
  // The scan
  // ---------------------------------------------------------------------------

  /** Every occupied cell of `g` is occupied in `p1` or in `p2`. */
  ghost predicate FilledFrom(g: Grid, p1: Grid, p2: Grid)
    requires SameShape(g, p1) && Covers(p2, p1)
  {
    forall q :: InGrid(g, q) && At(g, q).Some? ==> At(p1, q).Some? || At(p2, q).Some?
  }

  /** The steps at rooms `j ..` of period `i`. */
  function ScanRow(g: Grid, p1: Grid, p2: Grid, i: nat, j: nat, pick: (nat, nat) -> nat): (r: Result<Grid, RecombineError>)
    requires SameShape(g, p1) && Covers(p2, p1)
    requires i < |g| && j <= |g[i]|
    requires FilledFrom(g, p1, p2)
    ensures r.Success? ==> SameShape(r.value, g) && GridIds(r.value) == GridIds(g) && FilledFrom(r.value, p1, p2)
    ensures r.Failure? ==> exists id :: id in GridIds(p2) && id !in GridIds(g)
    ensures p2 == g ==> r == Success(g)
    decreases |g[i]| - j
  {
    if j == |g[i]| then Success(g)
    else
      var target := Position(i, j);
      var incoming := p2[i][j];
      match Step(g, incoming, target, pick(i, j))
      case Failure(e) =>
        GridIdsMembership(p2, incoming.value.id);
        assert InGrid(p2, target) && Holds(At(p2, target), incoming.value.id);
        Failure(e)
      case Success(g') =>
        assert FilledFrom(g', p1, p2) by {
          forall q | InGrid(g', q) && At(g', q).Some?
            ensures At(p1, q).Some? || At(p2, q).Some?
          {
            assert InGrid(g, q);
          }
        }
        ScanRow(g', p1, p2, i, j + 1, pick)
  }

  /** The steps at periods `i ..`. */
  function ScanRows(g: Grid, p1: Grid, p2: Grid, i: nat, pick: (nat, nat) -> nat): (r: Result<Grid, RecombineError>)
    requires SameShape(g, p1) && Covers(p2, p1)
    requires i <= |g|
    requires FilledFrom(g, p1, p2)
    ensures r.Success? ==> SameShape(r.value, g) && GridIds(r.value) == GridIds(g) && FilledFrom(r.value, p1, p2)
    ensures r.Failure? ==> exists id :: id in GridIds(p2) && id !in GridIds(g)
    ensures p2 == g ==> r == Success(g)
    decreases |g| - i
  {
    if i == |g| then Success(g)
    else
      match ScanRow(g, p1, p2, i, 0, pick)
      case Failure(e) => Failure(e)
      case Success(g') => ScanRows(g', p1, p2, i + 1, pick)
  }

  /**
    The offspring of `p1` and `p2`. It has parent 1's shape and parent 1's
    multiset of course ids, hence as many occupied cells; every occupied cell
    is occupied in one of the parents. Recombination fails only when parent 2
    holds a course parent 1 lacks, so parents with the same courses always
    produce an offspring.
  */
  function Recombine(p1: Grid, p2: Grid, pick: (nat, nat) -> nat): (r: Result<Grid, RecombineError>)
    requires Covers(p2, p1)
    ensures r.Success? ==> SameShape(r.value, p1) && GridIds(r.value) == GridIds(p1)
    ensures r.Success? ==> Occupied(r.value) == Occupied(p1)
    ensures r.Success? ==> forall q :: InGrid(p1, q) && At(r.value, q).Some? ==> At(p1, q).Some? || At(p2, q).Some?
    ensures r.Failure? ==> exists id :: id in GridIds(p2) && id !in GridIds(p1)
  {
    var r := ScanRows(p1, p1, p2, 0, pick);
    if r.Success? then
      OccupiedIsIdCount(r.value);
      OccupiedIsIdCount(p1);
      r
    else r
  }

  // ---------------------------------------------------------------------------
  // The cases of a step
  // ---------------------------------------------------------------------------

  /** A gap that parent 2 fills: the only cells where anything happens. */
  predicate Gap(g: Grid, incoming: Cell, target: Position)
    requires InGrid(g, target)
  {
    At(g, target).None? && incoming.Some?
  }

  /**
    No conflict: one occurrence of the course, at a position the oracle can
    choose, moves into the target; without an occurrence nothing changes.
  */
  lemma StepWithoutConflict(g: Grid, incoming: Cell, target: Position, k: nat)
    requires InGrid(g, target) && Gap(g, incoming, target)
    requires !ExistsSameCurriculumInPeriod(g, incoming.value, target.period)
    requires !ExistsSameTeacherInPeriod(g, incoming.value, target.period)
    ensures incoming.value.id !in GridIds(g) ==> Step(g, incoming, target, k) == Success(g)
    ensures incoming.value.id in GridIds(g) ==>
      exists from :: InGrid(g, from) && Holds(At(g, from), incoming.value.id)
        && Step(g, incoming, target, k) == Success(MoveCourse(g, from, target, incoming.value))
  {
    var x := incoming.value;
    GridIdsMembership(g, x.id);
    var ps := PositionOfCourse(g, x.id);
    if x.id in GridIds(g) {
      var from :| InGrid(g, from) && Holds(At(g, from), x.id);
      assert from in ps;
      var cp1 := CoursePositionRandomly(ps, k).value;
      assert cp1 in ps;
    }
  }

  /** Exactly one kind of conflict: the step changes nothing. */
  lemma StepWithOneConflict(g: Grid, incoming: Cell, target: Position, k: nat)
    requires InGrid(g, target) && incoming.Some?
    requires ExistsSameCurriculumInPeriod(g, incoming.value, target.period)
      != ExistsSameTeacherInPeriod(g, incoming.value, target.period)
    ensures Step(g, incoming, target, k) == Success(g)
  {
  }

  /**
    Both kinds of conflict: with no interchangeable course in the period
    nothing changes; with one, the step fails exactly when the course does not
    occur, and a step that changes anything is a swap (which swap it is:
    `StepSwapsWithLowestInterchangeable`).
  */
  lemma StepWithBothConflicts(g: Grid, incoming: Cell, target: Position, k: nat)
    requires InGrid(g, target) && Gap(g, incoming, target)
    requires ExistsSameCurriculumInPeriod(g, incoming.value, target.period)
    requires ExistsSameTeacherInPeriod(g, incoming.value, target.period)
    ensures (forall rm :: 0 <= rm < |g[target.period]| ==> !Interchangeable(g[target.period][rm], incoming.value))
      ==> Step(g, incoming, target, k) == Success(g)
    ensures (exists rm :: 0 <= rm < |g[target.period]| && Interchangeable(g[target.period][rm], incoming.value))
      ==> (Step(g, incoming, target, k).Failure? <==> incoming.value.id !in GridIds(g))
    ensures Step(g, incoming, target, k).Success? && Step(g, incoming, target, k) != Success(g) ==>
      exists cp1, cp2 ::
        && InGrid(g, cp1) && Holds(At(g, cp1), incoming.value.id)
        && InGrid(g, cp2) && cp2.period == target.period && Interchangeable(At(g, cp2), incoming.value)
        && Step(g, incoming, target, k) == Success(SwapCourses(g, cp1, cp2, target, incoming.value))
  {
    var x := incoming.value;
    GridIdsMembership(g, x.id);
    var ps := PositionOfCourse(g, x.id);
    if x.id in GridIds(g) {
      var from :| InGrid(g, from) && Holds(At(g, from), x.id);
      assert from in ps;
    }
  }

  /**
    Both kinds of conflict, an interchangeable course in the target's period
    and the course present in the offspring: the step is the swap, with the
    course taken from one of its cells and the lowest interchangeable room of
    the period as the partner.
  */
  lemma StepSwapsWithLowestInterchangeable(g: Grid, incoming: Cell, target: Position, k: nat)
    requires InGrid(g, target) && Gap(g, incoming, target)
    requires ExistsSameCurriculumInPeriod(g, incoming.value, target.period)
    requires ExistsSameTeacherInPeriod(g, incoming.value, target.period)
    requires exists rm :: 0 <= rm < |g[target.period]| && Interchangeable(g[target.period][rm], incoming.value)
    requires incoming.value.id in GridIds(g)
    ensures exists cp1 ::
      && InGrid(g, cp1) && Holds(At(g, cp1), incoming.value.id)
      && Step(g, incoming, target, k)
         == Success(SwapCourses(g, cp1, GetIfSameCurriculumAndSameTeacher(g, incoming.value, target.period).value, target, incoming.value))
  {
    var x := incoming.value;
    GridIdsMembership(g, x.id);
    var ps := PositionOfCourse(g, x.id);
    var from :| InGrid(g, from) && Holds(At(g, from), x.id);
    assert from in ps;
    var cp1 := CoursePositionRandomly(ps, k).value;
    assert cp1 in ps;
    var cp2 := GetIfSameCurriculumAndSameTeacher(g, x, target.period).value;
    assert InGrid(g, cp1) && Holds(At(g, cp1), x.id);
    assert InGrid(g, cp2) && At(g, cp2).Some?;
    assert Step(g, incoming, target, k) == Success(SwapCourses(g, cp1, cp2, target, x));
  }

  /** Recombining a solution with itself gives it back: parent 1 has no gap parent 2 fills. */
  lemma {:induction false} RecombineWithItself(p: Grid, pick: (nat, nat) -> nat)
    ensures Covers(p, p)
    ensures Recombine(p, p, pick) == Success(p)
  {
    assert Covers(p, p) && FilledFrom(p, p, p);
    assert ScanRows(p, p, p, 0, pick) == Success(p);
  }
}
