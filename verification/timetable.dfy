/**
  The timetable data model shared by the evaluator, the solution table and the
  recombination operator: courses, curricula, the problem instance and the
  `periods x rooms` grid of optional courses that encodes one candidate.
*/
module Timetable {
  import opened Wrappers

  type CourseId = string
  type TeacherId = string
  type CurriculumId = string

  /** A course. Two courses are treated as the same course exactly when their ids agree. */
  datatype Course = Course(
    id: CourseId,
    teacher: TeacherId,
    students: int,
    minWorkingDays: int,
    curricula: set<CurriculumId>)

  /**
    A curriculum and its member courses. The sequence stands for a course set;
    distinct ids are not enforced, and a repeated course would be charged once
    per occurrence.
  */
  datatype Curriculum = Curriculum(id: CurriculumId, courses: seq<Course>)

  /**
    The read-only problem description. `capacity[r]` is the seating capacity of
    the room whose unique number is `r`.
  */
  datatype Instance = Instance(
    days: nat,
    periodsPerDay: nat,
    rooms: nat,
    capacity: seq<int>,
    curricula: seq<Curriculum>)
  {
    /**
      Total number of periods of the week, `days * periodsPerDay`
      (`DayStartIsProduct`), written as the start of the day after the last.
    */
    function Periods(): nat {
      DayStart(days, periodsPerDay)
    }

    /** Every room number below `rooms` has a capacity. */
    predicate Valid() {
      |capacity| == rooms
    }
  }

  /** One slot of the grid: empty or holding one course. */
  type Cell = Option<Course>
  type Row = seq<Cell>
  /** `grid[p][r]` is the course held in period `p`, room `r`. */
  type Grid = seq<Row>

  /** A candidate solution: the grid together with the instance it solves. */
  datatype Solution = Solution(coding: Grid, instance: Instance)

  /** The cell holds the course with this id. */
  predicate Holds(c: Cell, id: CourseId) {
    c.Some? && c.value.id == id
  }

  /** The cell holds one of the courses with these ids. */
  predicate HoldsAny(c: Cell, ids: set<CourseId>) {
    c.Some? && c.value.id in ids
  }

  /** First period of day `d` when every day has `ppd` periods. */
  function DayStart(d: nat, ppd: nat): nat {
    if d == 0 then 0 else DayStart(d - 1, ppd) + ppd
  }

  /** The repeated sum is the product. */
  lemma {:induction false} DayStartIsProduct(d: nat, ppd: nat)
    ensures DayStart(d, ppd) == d * ppd
  {
    if d > 0 {
      DayStartIsProduct(d - 1, ppd);
    }
  }

  /** Later days start later. */
  lemma {:induction false} DayStartMonotone(d1: nat, d2: nat, ppd: nat)
    requires d1 <= d2
    ensures DayStart(d1, ppd) <= DayStart(d2, ppd)
    decreases d2 - d1
  {
    if d1 < d2 {
      DayStartMonotone(d1, d2 - 1, ppd);
    }
  }

  /** The sum of a sequence of integers, summed from the front as the Java loops add. */
  function SumOf(s: seq<int>): int {
    if |s| == 0 then 0 else SumOf(s[..|s| - 1]) + s[|s| - 1]
  }

  /** A sum of nonnegative entries is nonnegative. */
  lemma {:induction false} SumOfNonnegative(s: seq<int>)
    requires forall k :: 0 <= k < |s| ==> s[k] >= 0
    ensures SumOf(s) >= 0
  {
    if |s| > 0 {
      SumOfNonnegative(s[..|s| - 1]);
    }
  }

  /** The grid has one row per period and one cell per room in every row. */
  predicate Fits(g: Grid, inst: Instance) {
    && |g| == inst.Periods()
    && forall p :: 0 <= p < |g| ==> |g[p]| == inst.rooms
  }

  /** The ids of a curriculum's member courses. */
  function CourseIds(cur: Curriculum): set<CourseId> {
    set k | 0 <= k < |cur.courses| :: cur.courses[k].id
  }
}
