/**
  The soft-constraint evaluator. For one candidate grid and each curriculum it
  charges room-capacity overflow, missing working days and curriculum
  compactness / room stability, keeps the running total per curriculum, and
  turns those totals into a fairness number.

  Every cost comes twice: a declarative reference function and a method that
  follows the evaluator's loops (breaks, the day-skip arithmetic and the day
  loop that starts at 1); the method's contract ties the two together.
*/
module Evaluator {
  import opened Wrappers
  import opened Timetable

  /** The evaluator cannot score an instance without curricula. */
  datatype EvalError = NoCurricula

  /** What is submitted to the solution table for one candidate. */
  datatype Score = Score(penalty: int, fairness: int)

  // ---------------------------------------------------------------------------
  // Arithmetic helpers
  // ---------------------------------------------------------------------------

  lemma MulLe(a: nat, b: nat, c: nat)
    requires a <= b
    ensures a * c <= b * c
  {
  }

  /** Division by a positive divisor is determined by quotient and remainder. */
  lemma DivModOf(d: nat, q: nat, n: nat)
    requires q < n
    ensures (d * n + q) / n == d
    ensures (d * n + q) % n == q
  {
    var a := d * n + q;
    var k := a / n;
    var m := a % n;
    assert a == k * n + m;
    assert (d - k) * n == m - q;
    if d - k >= 1 {
      MulLe(1, d - k, n);
      assert false;
    } else if k - d >= 1 {
      MulLe(1, k - d, n);
      assert false;
    }
  }

  // ---------------------------------------------------------------------------
  // Scanning one period
  // ---------------------------------------------------------------------------

  /** The lowest room at or after `from` whose course belongs to `ids`. */
  function FirstMatchFrom(row: Row, ids: set<CourseId>, from: nat): (m: Option<nat>)
    requires from <= |row|
    ensures m.Some? ==> from <= m.value < |row| && HoldsAny(row[m.value], ids)
    ensures m.Some? ==> forall r :: from <= r < m.value ==> !HoldsAny(row[r], ids)
    ensures m.None? <==> forall r :: from <= r < |row| ==> !HoldsAny(row[r], ids)
    decreases |row| - from
  {
    if from == |row| then None
    else if HoldsAny(row[from], ids) then Some(from)
    else FirstMatchFrom(row, ids, from + 1)
  }

  /** The lowest room of the period whose course belongs to `ids`: the only one the evaluator looks at. */
  function FirstMatch(row: Row, ids: set<CourseId>): (m: Option<nat>)
    ensures m.Some? ==> m.value < |row| && HoldsAny(row[m.value], ids)
    ensures m.Some? ==> forall r :: 0 <= r < m.value ==> !HoldsAny(row[r], ids)
    ensures m.None? <==> forall r :: 0 <= r < |row| ==> !HoldsAny(row[r], ids)
  {
    FirstMatchFrom(row, ids, 0)
  }

  // ---------------------------------------------------------------------------
  // Room capacity
  // ---------------------------------------------------------------------------

  /** Seats missing when `students` attend a room with `capacity` seats. */
  function Overflow(students: int, capacity: int): nat {
    if students > capacity then students - capacity else 0
  }

  /** What one period costs: the overflow of the first curriculum course found in it, if any. */
  function PeriodCapacityCost(row: Row, ids: set<CourseId>, capacity: seq<int>): nat
    requires |row| <= |capacity|
  {
    match FirstMatch(row, ids)
    case None => 0
    case Some(r) => Overflow(row[r].value.students, capacity[r])
  }

  /** Room-capacity cost of the first `n` periods. */
  function CapacityCost(g: Grid, ids: set<CourseId>, capacity: seq<int>, n: nat): nat
    requires n <= |g|
    requires forall p :: 0 <= p < |g| ==> |g[p]| <= |capacity|
  {
    if n == 0 then 0
    else CapacityCost(g, ids, capacity, n - 1) + PeriodCapacityCost(g[n - 1], ids, capacity)
  }

  /**
    The evaluator's room-capacity loop: for every period it stops at the first
    room holding a course of the curriculum and charges that room's overflow.
  */
  method CostsOnRoomCapacity(inst: Instance, g: Grid, cur: Curriculum) returns (cost: int)
    requires inst.Valid() && Fits(g, inst)
    ensures cost == CapacityCost(g, CourseIds(cur), inst.capacity, |g|)
    ensures cost >= 0
  {
    var ids := CourseIds(cur);
    cost := 0;
    var p := 0;
    while p < inst.Periods()
      invariant 0 <= p <= inst.Periods()
      invariant cost == CapacityCost(g, ids, inst.capacity, p)
    {
      var r := 0;
      while r < inst.rooms
        invariant 0 <= r <= inst.rooms
        invariant forall r' :: 0 <= r' < r ==> !HoldsAny(g[p][r'], ids)
      {
        if g[p][r] != None && g[p][r].value.id in ids {
          var students := g[p][r].value.students;
          var roomCapacity := inst.capacity[r];
          if students > roomCapacity {
            cost := cost + (students - roomCapacity);
          }
          assert FirstMatch(g[p], ids) == Some(r);
          break;
        }
        r := r + 1;
      }
      p := p + 1;
    }
  }

  /** A period is charged only through its lowest curriculum room, and never below zero. */
  lemma PeriodChargedOnce(row: Row, ids: set<CourseId>, capacity: seq<int>, r: nat)
    requires |row| <= |capacity|
    requires r < |row| && HoldsAny(row[r], ids)
    requires forall r' :: 0 <= r' < r ==> !HoldsAny(row[r'], ids)
    ensures PeriodCapacityCost(row, ids, capacity) ==
            if row[r].value.students > capacity[r] then row[r].value.students - capacity[r] else 0
  {
  }

  // ---------------------------------------------------------------------------
  // Minimum working days
  // ---------------------------------------------------------------------------

  /** The course with this id occupies some room in some period of `[lo, hi)`. */
  predicate OccursIn(g: Grid, id: CourseId, lo: nat, hi: nat)
    requires hi <= |g|
  {
    exists p, r :: lo <= p < hi && 0 <= r < |g[p]| && Holds(g[p][r], id)
  }

  /** Number of days among the first `n` on which the course occupies some room. */
  function DaysWith(g: Grid, ppd: nat, id: CourseId, n: nat): (k: nat)
    requires DayStart(n, ppd) <= |g|
    ensures k <= n
  {
    if n == 0 then 0
    else DaysWith(g, ppd, id, n - 1) + (if OccursIn(g, id, DayStart(n - 1, ppd), DayStart(n, ppd)) then 1 else 0)
  }

  /** With no period in a day there is no working day. */
  lemma {:induction false} NoDaysWithoutPeriods(g: Grid, id: CourseId, n: nat)
    ensures DayStart(n, 0) == 0 && DaysWith(g, 0, id, n) == 0
  {
    if n > 0 {
      NoDaysWithoutPeriods(g, id, n - 1);
    }
  }

  /** Number of distinct days on which the course occupies some room of the grid. */
  function WorkingDaysOf(inst: Instance, g: Grid, id: CourseId): nat
    requires |g| == inst.Periods()
  {
    DaysWith(g, inst.periodsPerDay, id, inst.days)
  }

  /** Cost of a course held on `actual` days when it needs `required`: 5 per missing day. */
  function MissingDaysCost(required: int, actual: nat): nat {
    if actual < required then (required - actual) * 5 else 0
  }

  /** Missing-working-days cost of the courses of a curriculum. */
  function MinWorkingDaysCost(inst: Instance, g: Grid, courses: seq<Course>): nat
    requires |g| == inst.Periods()
  {
    if |courses| == 0 then 0
    else
      var c := courses[|courses| - 1];
      MinWorkingDaysCost(inst, g, courses[..|courses| - 1])
        + MissingDaysCost(c.minWorkingDays, WorkingDaysOf(inst, g, c.id))
  }

  /** A period's scan extends `OccursIn` by that period. */
  lemma OccursInExtend(g: Grid, id: CourseId, lo: nat, hi: nat)
    requires lo <= hi < |g|
    ensures OccursIn(g, id, lo, hi + 1) <==>
            OccursIn(g, id, lo, hi) || exists r :: 0 <= r < |g[hi]| && Holds(g[hi][r], id)
  {
    if OccursIn(g, id, lo, hi + 1) {
      var p, r :| lo <= p < hi + 1 && 0 <= r < |g[p]| && Holds(g[p][r], id);
      if p < hi {
        assert OccursIn(g, id, lo, hi);
      }
    }
  }

  /** An occurrence in a shorter range is an occurrence in a longer one. */
  lemma OccursInMonotone(g: Grid, id: CourseId, lo: nat, mid: nat, hi: nat)
    requires lo <= mid <= hi <= |g|
    requires OccursIn(g, id, lo, mid)
    ensures OccursIn(g, id, lo, hi)
  {
  }

  /** The evaluator's room loop for one course: it stops at the first room of period `p` holding the course. */
  method HeldInPeriod(inst: Instance, g: Grid, id: CourseId, p: nat) returns (held: bool)
    requires Fits(g, inst) && p < |g|
    ensures held <==> exists r :: 0 <= r < |g[p]| && Holds(g[p][r], id)
  {
    var r := 0;
    while r < inst.rooms
      invariant 0 <= r <= inst.rooms
      invariant forall r' :: 0 <= r' < r ==> !Holds(g[p][r'], id)
    {
      if g[p][r] != None && g[p][r].value.id == id {
        return true;
      }
      r := r + 1;
    }
    return false;
  }

  /**
    What the working-days loop knows on reaching period `p`, which is period
    `q` of day `d`: the days before `d` are counted, and when `p` is inside
    day `d`, `onDay` says the course has not been seen yet on that day.
  */
  ghost predicate CountedTo(inst: Instance, g: Grid, id: CourseId, p: nat, d: nat, q: nat, onDay: bool, workingDays: int) {
    var ppd := inst.periodsPerDay;
    && ppd > 0
    && d <= inst.days && q < ppd && p == DayStart(d, ppd) + q && p <= |g|
    && (q == 0 ==> workingDays == DaysWith(g, ppd, id, d))
    && (q > 0 ==>
          && d < inst.days
          && (onDay <==> !OccursIn(g, id, DayStart(d, ppd), p))
          && workingDays == DaysWith(g, ppd, id, d) + (if onDay then 0 else 1))
  }

  /**
    One pass of the working-days loop, including its update `p++`: a new day
    resets `onDay`; a day on which the course was already seen is skipped by
    jumping to its last period; otherwise the rooms of `p` are scanned.
  */
  method CountPeriod(inst: Instance, g: Grid, id: CourseId, p0: nat, ghost d0: nat, ghost q0: nat, onDay0: bool, workingDays0: int)
    returns (p: nat, ghost d: nat, ghost q: nat, onDay: bool, workingDays: int)
    requires Fits(g, inst) && p0 < |g|
    requires CountedTo(inst, g, id, p0, d0, q0, onDay0, workingDays0)
    ensures p0 < p
    ensures CountedTo(inst, g, id, p, d, q, onDay, workingDays)
  {
    var ppd := inst.periodsPerDay;
    DayStartMonotone(d0 + 1, inst.days, ppd);
    DayStartIsProduct(d0, ppd);
    DivModOf(d0, q0, ppd);
    onDay, workingDays := onDay0, workingDays0;
    if p0 % ppd == 0 {
      onDay := true;
    } else if !onDay {
      OccursInMonotone(g, id, DayStart(d0, ppd), p0, DayStart(d0 + 1, ppd));
      // the jump lands on the day's last period; the loop update then moves past it
      p := p0 + (ppd - (p0 % ppd)) - 1;
      p := p + 1;
      d, q := d0 + 1, 0;
      return;
    }
    var held := HeldInPeriod(inst, g, id, p0);
    if held && onDay {
      workingDays := workingDays + 1;
      onDay := false;
    }
    OccursInExtend(g, id, DayStart(d0, ppd), p0);
    p := p0 + 1;
    if q0 + 1 == ppd {
      d, q := d0 + 1, 0;
    } else {
      d, q := d0, q0 + 1;
    }
  }

  /** Past the start of day `d`, there is at least a whole day before any later day's start. */
  lemma DayStartStep(d: nat, e: nat, ppd: nat)
    ensures d < e ==> DayStart(d, ppd) + ppd <= DayStart(e, ppd)
  {
    if d < e {
      DayStartMonotone(d + 1, e, ppd);
    }
  }

  /**
    The evaluator's working-days loop for one course. The loop walks the
    periods; once the course has been seen on a day it jumps to that day's
    last period.
  */
  method WorkingDays(inst: Instance, g: Grid, course: Course) returns (workingDays: int)
    requires Fits(g, inst)
    ensures workingDays == WorkingDaysOf(inst, g, course.id)
  {
    var ppd := inst.periodsPerDay;
    if ppd == 0 {
      NoDaysWithoutPeriods(g, course.id, inst.days);
    }
    workingDays := 0;
    var onDay := true;
    var p := 0;
    ghost var d: nat := 0;
    ghost var q: nat := 0;
    while p < inst.Periods()
      invariant 0 <= p <= inst.Periods()
      invariant ppd > 0 ==> CountedTo(inst, g, course.id, p, d, q, onDay, workingDays)
      invariant ppd == 0 ==> workingDays == 0
      decreases inst.Periods() - p
    {
      p, d, q, onDay, workingDays := CountPeriod(inst, g, course.id, p, d, q, onDay, workingDays);
    }
    DayStartStep(d, inst.days, ppd);
  }

  /** The evaluator's minimum-working-days cost of one curriculum. */
  method CostsOnMinWorkingDays(inst: Instance, g: Grid, cur: Curriculum) returns (cost: int)
    requires Fits(g, inst)
    ensures cost == MinWorkingDaysCost(inst, g, cur.courses)
    ensures cost >= 0
  {
    cost := 0;
    var k := 0;
    while k < |cur.courses|
      invariant 0 <= k <= |cur.courses|
      invariant cost == MinWorkingDaysCost(inst, g, cur.courses[..k])
    {
      var course := cur.courses[k];
      var minWorkingDays := course.minWorkingDays;
      var workingDays := WorkingDays(inst, g, course);
      if workingDays < minWorkingDays {
        cost := cost + (minWorkingDays - workingDays) * 5;
      }
      assert cur.courses[..k + 1][..k] == cur.courses[..k];
      k := k + 1;
    }
    assert cur.courses[..k] == cur.courses;
  }

  // ---------------------------------------------------------------------------
  // Curriculum compactness and room stability
  // ---------------------------------------------------------------------------

  /** A period in which a curriculum course was found, with the first room holding one. */
  datatype Occurrence = Occurrence(period: nat, room: nat)

  /** The periods of `[lo, hi)` holding a curriculum course, in order, each with its first such room. */
  function Occurrences(g: Grid, ids: set<CourseId>, lo: nat, hi: nat): seq<Occurrence>
    requires lo <= hi <= |g|
    decreases hi - lo
  {
    if hi == lo then []
    else
      Occurrences(g, ids, lo, hi - 1) +
        match FirstMatch(g[hi - 1], ids)
        case None => []
        case Some(r) => [Occurrence(hi - 1, r)]
  }

  /**
    Every listed occurrence lies in `[lo, hi)` and names the lowest room of its
    period holding a curriculum course; the periods strictly increase.
  */
  lemma {:induction false} OccurrencesAreFirstRooms(g: Grid, ids: set<CourseId>, lo: nat, hi: nat)
    requires lo <= hi <= |g|
    ensures forall k :: 0 <= k < |Occurrences(g, ids, lo, hi)| ==>
      lo <= Occurrences(g, ids, lo, hi)[k].period < hi
    ensures forall k :: 0 <= k < |Occurrences(g, ids, lo, hi)| ==>
      FirstMatch(g[Occurrences(g, ids, lo, hi)[k].period], ids) == Some(Occurrences(g, ids, lo, hi)[k].room)
    ensures forall j, k :: 0 <= j < k < |Occurrences(g, ids, lo, hi)| ==>
      Occurrences(g, ids, lo, hi)[j].period < Occurrences(g, ids, lo, hi)[k].period
    decreases hi - lo
  {
    if hi > lo {
      OccurrencesAreFirstRooms(g, ids, lo, hi - 1);
      var prev := Occurrences(g, ids, lo, hi - 1);
      match FirstMatch(g[hi - 1], ids)
      case None =>
        assert Occurrences(g, ids, lo, hi) == prev;
      case Some(r) =>
        var occ := prev + [Occurrence(hi - 1, r)];
        assert Occurrences(g, ids, lo, hi) == occ;
        assert forall k :: 0 <= k < |prev| ==> occ[k] == prev[k];
    }
  }

  /** Moving from one occurrence to the next: 2 for a gap, 1 for a change of room. */
  function MoveCost(a: Occurrence, b: Occurrence): nat {
    (if a.period != b.period - 1 then 2 else 0) + (if a.room != b.room then 1 else 0)
  }

  /** Sum of the move costs between consecutive occurrences; the first one is free. */
  function PairCost(occ: seq<Occurrence>): nat {
    if |occ| <= 1 then 0
    else PairCost(occ[..|occ| - 1]) + MoveCost(occ[|occ| - 2], occ[|occ| - 1])
  }

  lemma PairCostAppend(occ: seq<Occurrence>, o: Occurrence)
    ensures PairCost(occ + [o]) == PairCost(occ) + if |occ| == 0 then 0 else MoveCost(occ[|occ| - 1], o)
  {
    assert (occ + [o])[..|occ|] == occ;
  }

  /** Compactness cost of day `d`. */
  function DayCompactness(g: Grid, ids: set<CourseId>, ppd: nat, d: nat): nat
    requires DayStart(d + 1, ppd) <= |g|
  {
    PairCost(Occurrences(g, ids, DayStart(d, ppd), DayStart(d + 1, ppd)))
  }

  /** Compactness cost of the first `n` days. */
  function CompactnessUpTo(g: Grid, ids: set<CourseId>, ppd: nat, n: nat): nat
    requires DayStart(n, ppd) <= |g|
  {
    if n == 0 then 0
    else CompactnessUpTo(g, ids, ppd, n - 1) + DayCompactness(g, ids, ppd, n - 1)
  }

  /**
    Compactness cost as the evaluator computes it: its day loop runs `d` from 1
    while `d < days`, so only the days before the last one are charged.
  */
  function CompactnessCost(g: Grid, ids: set<CourseId>, days: nat, ppd: nat): nat
    requires |g| == DayStart(days, ppd)
  {
    if days <= 1 then 0
    else
      DayStartMonotone(days - 1, days, ppd);
      CompactnessUpTo(g, ids, ppd, days - 1)
  }

  /** The evaluator's room loop that stops at the first room of period `p` holding a curriculum course. */
  method FirstRoom(inst: Instance, g: Grid, ids: set<CourseId>, p: nat) returns (found: Option<nat>)
    requires Fits(g, inst) && p < |g|
    ensures found == FirstMatch(g[p], ids)
  {
    var r := 0;
    while r < inst.rooms
      invariant 0 <= r <= inst.rooms
      invariant forall r' :: 0 <= r' < r ==> !HoldsAny(g[p][r'], ids)
    {
      if g[p][r] != None && g[p][r].value.id in ids {
        return Some(r);
      }
      r := r + 1;
    }
    return None;
  }

  /** The charge for a curriculum course found after an earlier one on the same day. */
  method ChargeMove(previousPeriod: int, previousRoom: int, p: nat, r: nat, cost0: int) returns (cost: int)
    requires previousPeriod >= 0 && previousRoom >= 0
    ensures cost == cost0 + MoveCost(Occurrence(previousPeriod, previousRoom), Occurrence(p, r))
    ensures cost0 <= cost <= cost0 + 3
  {
    cost := cost0;
    if previousPeriod != p - 1 {
      cost := cost + 2;
    }
    if r != previousRoom {
      cost := cost + 1;
    }
  }

  /** The previous period and room describe the last occurrence so far, and are -1 before the first one. */
  ghost predicate TracksLast(occ: seq<Occurrence>, previousPeriod: int, previousRoom: int) {
    && (|occ| == 0 <==> previousPeriod == -1 && previousRoom == -1)
    && (|occ| > 0 ==> occ[|occ| - 1].period == previousPeriod && occ[|occ| - 1].room == previousRoom)
  }

  /** One period of the evaluator's compactness loop: the room scan and the charge for what it finds. */
  method CompactnessOfPeriod(inst: Instance, g: Grid, ids: set<CourseId>, start: nat, p: nat,
                             cost0: int, previousPeriod0: int, previousRoom0: int)
    returns (cost: int, previousPeriod: int, previousRoom: int)
    requires Fits(g, inst) && start <= p < |g|
    requires TracksLast(Occurrences(g, ids, start, p), previousPeriod0, previousRoom0)
    ensures TracksLast(Occurrences(g, ids, start, p + 1), previousPeriod, previousRoom)
    ensures cost - cost0 == PairCost(Occurrences(g, ids, start, p + 1)) - PairCost(Occurrences(g, ids, start, p))
  {
    ghost var occ := Occurrences(g, ids, start, p);
    cost, previousPeriod, previousRoom := cost0, previousPeriod0, previousRoom0;
    var found := FirstRoom(inst, g, ids, p);
    if found.Some? {
      var r := found.value;
      assert Occurrences(g, ids, start, p + 1) == occ + [Occurrence(p, r)];
      PairCostAppend(occ, Occurrence(p, r));
      if previousPeriod == -1 && previousRoom == -1 {
        previousPeriod := p;
        previousRoom := r;
      } else if previousPeriod != -1 && previousRoom != -1 {
        cost := ChargeMove(previousPeriod, previousRoom, p, r, cost);
        previousRoom := r;
        previousPeriod := p;
      }
    } else {
      assert Occurrences(g, ids, start, p + 1) == occ;
    }
  }

  /**
    Day `d` of the evaluator's compactness loop (the loop's own counter is
    `d + 1`): the previous period and room are reset to -1, then `p` runs from
    the day's first period up to the bound `periodsPerDay * (d + 1)`, where the
    next day begins.
  */
  method CompactnessOfDay(inst: Instance, g: Grid, ids: set<CourseId>, d: nat, p0: nat, cost0: int)
    returns (p: nat, cost: int)
    requires Fits(g, inst)
    requires d + 1 < inst.days && p0 == DayStart(d, inst.periodsPerDay)
    ensures p == DayStart(d + 1, inst.periodsPerDay) && p <= |g|
    ensures cost == cost0 + DayCompactness(g, ids, inst.periodsPerDay, d)
  {
    DayStartMonotone(d + 1, inst.days, inst.periodsPerDay);
    var dayEnd := DayEnd(d + 1, inst.periodsPerDay);
    cost := cost0;
    var previousPeriod: int := -1;
    var previousRoom: int := -1;
    p := p0;
    while p < dayEnd
      invariant p0 <= p <= dayEnd
      invariant TracksLast(Occurrences(g, ids, p0, p), previousPeriod, previousRoom)
      invariant cost == cost0 + PairCost(Occurrences(g, ids, p0, p))
    {
      cost, previousPeriod, previousRoom :=
        CompactnessOfPeriod(inst, g, ids, p0, p, cost, previousPeriod, previousRoom);
      p := p + 1;
    }
  }

  /**
    The evaluator's compactness and room-stability loop over the days: `d`
    starts at 1 and the loop stops before `d` reaches the number of days.
  */
  method CostsOnCurriculumCompactnessAndRoomStability(inst: Instance, g: Grid, cur: Curriculum)
    returns (cost: int)
    requires Fits(g, inst)
    ensures cost == CompactnessCost(g, CourseIds(cur), inst.days, inst.periodsPerDay)
    ensures cost >= 0
  {
    cost := CompactnessOfDays(inst, g, CourseIds(cur));
  }

  /** The day loop of the compactness cost, for the curriculum whose course ids are `ids`. */
  method CompactnessOfDays(inst: Instance, g: Grid, ids: set<CourseId>) returns (cost: int)
    requires Fits(g, inst)
    ensures cost == CompactnessCost(g, ids, inst.days, inst.periodsPerDay)
  {
    cost := 0;
    var d := 1;
    var p := 0;
    while d < inst.days
      invariant 1 <= d && (d == 1 || d <= inst.days)
      invariant p == DayStart(d - 1, inst.periodsPerDay)
      invariant DayStart(d - 1, inst.periodsPerDay) <= |g|
      invariant cost == CompactnessUpTo(g, ids, inst.periodsPerDay, d - 1)
    {
      p, cost := CompactnessOfDay(inst, g, ids, d - 1, p, cost);
      d := d + 1;
    }
    CompactnessLoopExit(g, ids, inst.days, inst.periodsPerDay, d);
  }

  /** On leaving the day loop at `d`, the days before `d - 1` are exactly the charged ones. */
  lemma CompactnessLoopExit(g: Grid, ids: set<CourseId>, days: nat, ppd: nat, d: nat)
    requires |g| == DayStart(days, ppd)
    requires 1 <= d && (d == 1 || d <= days) && d >= days
    requires DayStart(d - 1, ppd) <= |g|
    ensures CompactnessCost(g, ids, days, ppd) == CompactnessUpTo(g, ids, ppd, d - 1)
  {
    if days > 1 {
      assert d == days;
    }
  }

  /** The loop bound `periodsPerDay * d`: the first period of day `d`, just after day `d - 1`. */
  method DayEnd(d: nat, ppd: nat) returns (e: nat)
    ensures e == DayStart(d, ppd)
  {
    DayStartIsProduct(d, ppd);
    e := ppd * d;
  }

  /** Equal rows in `[lo, hi)` give equal occurrence lists. */
  lemma {:induction false} OccurrencesAgree(g1: Grid, g2: Grid, ids: set<CourseId>, lo: nat, hi: nat)
    requires lo <= hi <= |g1| && hi <= |g2|
    requires forall p :: lo <= p < hi ==> g1[p] == g2[p]
    ensures Occurrences(g1, ids, lo, hi) == Occurrences(g2, ids, lo, hi)
    decreases hi - lo
  {
    if hi > lo {
      OccurrencesAgree(g1, g2, ids, lo, hi - 1);
    }
  }

  /** Compactness of the first `n` days reads only the periods of those days. */
  lemma {:induction false} CompactnessUpToAgree(g1: Grid, g2: Grid, ids: set<CourseId>, ppd: nat, n: nat)
    requires DayStart(n, ppd) <= |g1| && DayStart(n, ppd) <= |g2|
    requires forall p :: 0 <= p < DayStart(n, ppd) ==> g1[p] == g2[p]
    ensures CompactnessUpTo(g1, ids, ppd, n) == CompactnessUpTo(g2, ids, ppd, n)
  {
    if n > 0 {
      CompactnessUpToAgree(g1, g2, ids, ppd, n - 1);
      OccurrencesAgree(g1, g2, ids, DayStart(n - 1, ppd), DayStart(n, ppd));
    }
  }

  /**
    The compactness cost never looks at the last day: two grids that agree on
    every period before `periodsPerDay * (days - 1)` have the same cost.
  */
  lemma LastDayNeverCharged(g1: Grid, g2: Grid, ids: set<CourseId>, days: nat, ppd: nat)
    requires |g1| == DayStart(days, ppd) && |g2| == DayStart(days, ppd)
    requires forall p :: 0 <= p < |g1| && days >= 1 && p < DayStart(days - 1, ppd) ==> g1[p] == g2[p]
    ensures CompactnessCost(g1, ids, days, ppd) == CompactnessCost(g2, ids, days, ppd)
  {
    if days > 1 {
      DayStartMonotone(days - 1, days, ppd);
      CompactnessUpToAgree(g1, g2, ids, ppd, days - 1);
    }
  }

  // ---------------------------------------------------------------------------
  // Per-curriculum totals
  // ---------------------------------------------------------------------------

  /** The three soft-constraint costs of one curriculum. */
  function CurriculumCost(inst: Instance, g: Grid, cur: Curriculum): nat
    requires inst.Valid() && Fits(g, inst)
  {
    var ids := CourseIds(cur);
    CapacityCost(g, ids, inst.capacity, |g|)
      + MinWorkingDaysCost(inst, g, cur.courses)
      + CompactnessCost(g, ids, inst.days, inst.periodsPerDay)
  }

  /** Total penalty over a sequence of curricula. */
  function TotalCost(inst: Instance, g: Grid, curs: seq<Curriculum>): nat
    requires inst.Valid() && Fits(g, inst)
  {
    if |curs| == 0 then 0
    else TotalCost(inst, g, curs[..|curs| - 1]) + CurriculumCost(inst, g, curs[|curs| - 1])
  }

  /**
    The array the evaluator hands to the fairness computation: entry `k` is the
    penalty accumulated over the first `k + 1` curricula, not the cost of
    curriculum `k` alone.
  */
  function RunningCosts(inst: Instance, g: Grid, curs: seq<Curriculum>): (totals: seq<int>)
    requires inst.Valid() && Fits(g, inst)
    ensures |totals| == |curs|
    ensures forall k :: 0 <= k < |totals| ==> totals[k] == TotalCost(inst, g, curs[..k + 1])
    ensures |totals| > 0 ==> totals[|totals| - 1] == TotalCost(inst, g, curs)
  {
    if |curs| == 0 then []
    else
      var prefix := RunningCosts(inst, g, curs[..|curs| - 1]);
      assert forall k :: 0 <= k < |curs| - 1 ==> prefix[k] == TotalCost(inst, g, curs[..k + 1]) by {
        forall k | 0 <= k < |curs| - 1
          ensures prefix[k] == TotalCost(inst, g, curs[..k + 1])
        {
          assert curs[..|curs| - 1][..k + 1] == curs[..k + 1];
        }
      }
      assert curs[..|curs|] == curs;
      prefix + [TotalCost(inst, g, curs)]
  }

  /** Adding curricula never lowers the total penalty. */
  lemma {:induction false} TotalCostGrows(inst: Instance, g: Grid, curs: seq<Curriculum>, i: nat, j: nat)
    requires inst.Valid() && Fits(g, inst)
    requires i <= j <= |curs|
    ensures TotalCost(inst, g, curs[..i]) <= TotalCost(inst, g, curs[..j])
    decreases j - i
  {
    if i < j {
      TotalCostGrows(inst, g, curs, i, j - 1);
      assert curs[..j][..j - 1] == curs[..j - 1];
    }
  }

  /** The running totals are nonnegative and nondecreasing. */
  lemma RunningCostsGrow(inst: Instance, g: Grid, curs: seq<Curriculum>)
    requires inst.Valid() && Fits(g, inst)
    ensures forall j, k :: 0 <= j <= k < |curs| ==>
      0 <= RunningCosts(inst, g, curs)[j] <= RunningCosts(inst, g, curs)[k]
  {
    var totals := RunningCosts(inst, g, curs);
    forall j, k | 0 <= j <= k < |curs|
      ensures 0 <= totals[j] <= totals[k]
    {
      TotalCostGrows(inst, g, curs, j + 1, k + 1);
    }
  }

  /** Consecutive entries of the running totals differ by exactly one curriculum's cost. */
  lemma RunningCostStep(inst: Instance, g: Grid, curs: seq<Curriculum>, k: nat)
    requires inst.Valid() && Fits(g, inst)
    requires 0 < k < |curs|
    ensures RunningCosts(inst, g, curs)[k] ==
            RunningCosts(inst, g, curs)[k - 1] + CurriculumCost(inst, g, curs[k])
  {
    assert curs[..k + 1][..k] == curs[..k];
  }

  // ---------------------------------------------------------------------------
  // Fairness
  // ---------------------------------------------------------------------------

  /** Largest entry, as the evaluator's scan keeps it (replacing only on a strictly larger value). */
  function MaxOf(s: seq<int>): (m: int)
    requires |s| > 0
    ensures exists k :: 0 <= k < |s| && s[k] == m
    ensures forall k :: 0 <= k < |s| ==> s[k] <= m
  {
    if |s| == 1 then s[0]
    else
      var m := MaxOf(s[..|s| - 1]);
      assert forall k :: 0 <= k < |s| - 1 ==> s[..|s| - 1][k] == s[k];
      if s[|s| - 1] > m then s[|s| - 1] else m
  }

  /** Smallest entry, as the evaluator's scan keeps it. */
  function MinOf(s: seq<int>): (m: int)
    requires |s| > 0
    ensures exists k :: 0 <= k < |s| && s[k] == m
    ensures forall k :: 0 <= k < |s| ==> m <= s[k]
  {
    if |s| == 1 then s[0]
    else
      var m := MinOf(s[..|s| - 1]);
      assert forall k :: 0 <= k < |s| - 1 ==> s[..|s| - 1][k] == s[k];
      if s[|s| - 1] < m then s[|s| - 1] else m
  }

  /** Java's integer division, which rounds toward zero. */
  function JavaDiv(a: int, b: int): int
    requires b > 0
  {
    if a >= 0 then a / b else -((-a) / b)
  }

  function Abs(x: int): nat {
    if x >= 0 then x else -x
  }

  /**
    The fairness of a vector of curriculum costs: the distance between the
    spread above the average and the spread below it. The average divides the
    sum of the entries from index 1 on by the number of entries.
  */
  function Fairness(costs: seq<int>): int
    requires |costs| > 0
  {
    var avg := JavaDiv(SumOf(costs[1..]), |costs|);
    Abs((MaxOf(costs) - avg) - (avg - MinOf(costs)))
  }

  /** The evaluator's fairness loop; an empty cost array makes its first read fail. */
  method EvaluateFairness(costs: seq<int>) returns (r: Result<int, EvalError>)
    ensures r.Failure? <==> |costs| == 0
    ensures r.Success? ==> r.value == Fairness(costs) && r.value >= 0
  {
    if |costs| == 0 {
      return Failure(NoCurricula);
    }
    var maxPenalty, minPenalty, penaltySum := ScanCosts(costs);
    var avgPenalty := JavaDiv(penaltySum, |costs|);
    var maxAvgDiff := maxPenalty - avgPenalty;
    var minAvgDiff := avgPenalty - minPenalty;
    var fairness;
    if maxAvgDiff >= minAvgDiff {
      fairness := maxAvgDiff - minAvgDiff;
    } else {
      fairness := minAvgDiff - maxAvgDiff;
    }
    return Success(fairness);
  }

  /**
    The scan of the fairness loop: maximum and minimum start at entry 0, and
    the sum collects entries 1 onwards.
  */
  method ScanCosts(costs: seq<int>) returns (maxPenalty: int, minPenalty: int, penaltySum: int)
    requires |costs| > 0
    ensures maxPenalty == MaxOf(costs) && minPenalty == MinOf(costs)
    ensures penaltySum == SumOf(costs[1..])
  {
    maxPenalty := costs[0];
    minPenalty := costs[0];
    penaltySum := 0;
    var i := 1;
    while i < |costs|
      invariant 1 <= i <= |costs|
      invariant maxPenalty == MaxOf(costs[..i])
      invariant minPenalty == MinOf(costs[..i])
      invariant penaltySum == SumOf(costs[1..i])
    {
      ScanStep(costs, i);
      if costs[i] > maxPenalty {
        maxPenalty := costs[i];
      }
      if costs[i] < minPenalty {
        minPenalty := costs[i];
      }
      penaltySum := penaltySum + costs[i];
      i := i + 1;
    }
    assert costs[..i] == costs;
  }

  /** One step of the scan: extending the prefix by entry `i` updates maximum, minimum and sum by that entry alone. */
  lemma ScanStep(costs: seq<int>, i: nat)
    requires 1 <= i < |costs|
    ensures MaxOf(costs[..i + 1]) == if costs[i] > MaxOf(costs[..i]) then costs[i] else MaxOf(costs[..i])
    ensures MinOf(costs[..i + 1]) == if costs[i] < MinOf(costs[..i]) then costs[i] else MinOf(costs[..i])
    ensures SumOf(costs[1..i + 1]) == SumOf(costs[1..i]) + costs[i]
  {
    assert costs[..i + 1][..i] == costs[..i];
    assert costs[1..i + 1][..i - 1] == costs[1..i];
  }

  /**
    The average leaves the first entry out: `[10, 20, 30]` has average 50 / 3 = 16
    and fairness 8, not 0; `[30, 0, 0]` has average 0 and fairness 30, where an
    average over every entry (10) would give 10.
  */
  lemma FairnessLeavesFirstEntryOut()
    ensures Fairness([10, 20, 30]) == 8
    ensures Fairness([30, 0, 0]) == 30
  {
    assert [10, 20, 30][..2] == [10, 20];
    assert [10, 20][..1] == [10];
    assert MaxOf([10, 20, 30]) == 30;
    assert MinOf([10, 20, 30]) == 10;
    assert [10, 20, 30][1..] == [20, 30];
    assert [20, 30][..1] == [20];
    assert [20][..0] == [];
    assert SumOf([20, 30]) == 50;
    assert JavaDiv(50, 3) == 16;
    assert [30, 0, 0][..2] == [30, 0];
    assert [30, 0][..1] == [30];
    assert MaxOf([30, 0, 0]) == 30;
    assert MinOf([30, 0, 0]) == 0;
    assert [30, 0, 0][1..] == [0, 0];
    assert [0, 0][..1] == [0];
    assert [0][..0] == [];
    assert SumOf([0, 0]) == 0;
    assert JavaDiv(0, 3) == 0;
  }

  /** With one curriculum the average is 0, so the fairness is twice that curriculum's cost. */
  lemma SingleCurriculumFairness(c: int)
    ensures Fairness([c]) == Abs(2 * c)
  {
    assert [c][1..] == [];
  }

  /** For nonnegative sums Java's division agrees with Dafny's. */
  lemma JavaDivOfNonnegative(a: int, b: int)
    requires a >= 0 && b > 0
    ensures JavaDiv(a, b) == a / b
  {
  }

  // ---------------------------------------------------------------------------
  // One candidate
  // ---------------------------------------------------------------------------

  /**
    The score submitted for one candidate: the total penalty over all curricula
    and the fairness of the running totals. An instance without curricula makes
    the fairness computation fail.
  */
  function Evaluate(inst: Instance, g: Grid): (r: Result<Score, EvalError>)
    requires inst.Valid() && Fits(g, inst)
    ensures r.Failure? <==> |inst.curricula| == 0
    ensures r.Success? ==> r.value.penalty >= 0 && r.value.fairness >= 0
    ensures r.Success? ==>
      r.value.penalty == RunningCosts(inst, g, inst.curricula)[|inst.curricula| - 1]
  {
    if |inst.curricula| == 0 then Failure(NoCurricula)
    else Success(Score(TotalCost(inst, g, inst.curricula), Fairness(RunningCosts(inst, g, inst.curricula))))
  }

  /** In a nondecreasing sequence the scans keep the last entry as maximum and the first as minimum. */
  lemma ExtremesOfSorted(s: seq<int>)
    requires |s| > 0
    requires forall j, k :: 0 <= j <= k < |s| ==> s[j] <= s[k]
    ensures MaxOf(s) == s[|s| - 1] && MinOf(s) == s[0]
  {
  }

  /**
    `f` is the distance of the last and first entries from twice the Euclidean
    average of entries 1.. over the count.
  */
  predicate EndpointFairness(c: seq<int>, f: int)
    requires |c| > 0
  {
    f == Abs(c[|c| - 1] + c[0] - 2 * (SumOf(c[1..]) / |c|))
  }

  /**
    Fairness of a nonnegative, nondecreasing cost vector: the maximum is the
    last entry, the minimum the first, and the average (entries 1.. over the
    count) is nonnegative, so Java's division is the Euclidean one.
  */
  lemma FairnessOfGrowingCosts(c: seq<int>)
    requires |c| > 0
    requires forall j, k :: 0 <= j <= k < |c| ==> 0 <= c[j] <= c[k]
    ensures EndpointFairness(c, Fairness(c))
  {
    assert forall k :: 0 <= k < |c[1..]| ==> c[1..][k] >= 0 by {
      forall k | 0 <= k < |c[1..]|
        ensures c[1..][k] >= 0
      {
        assert c[1..][k] == c[k + 1];
      }
    }
    SumOfNonnegative(c[1..]);
    JavaDivOfNonnegative(SumOf(c[1..]), |c|);
    ExtremesOfSorted(c);
  }

  /** The fairness submitted for a candidate, in terms of its running totals. */
  lemma FairnessOfRunningCosts(inst: Instance, g: Grid)
    requires inst.Valid() && Fits(g, inst)
    requires |inst.curricula| > 0
    ensures Evaluate(inst, g).Success?
    ensures EndpointFairness(RunningCosts(inst, g, inst.curricula), Evaluate(inst, g).value.fairness)
  {
    var c := RunningCosts(inst, g, inst.curricula);
    assert Evaluate(inst, g).value.fairness == Fairness(c);
    RunningCostsGrow(inst, g, inst.curricula);
    FairnessOfGrowingCosts(c);
  }

  /** The three cost methods for one curriculum, added up as the evaluator does. */
  method CurriculumPenalty(inst: Instance, g: Grid, cur: Curriculum) returns (cost: int)
    requires inst.Valid() && Fits(g, inst)
    ensures cost == CurriculumCost(inst, g, cur)
  {
    var capacityCost := CostsOnRoomCapacity(inst, g, cur);
    var daysCost := CostsOnMinWorkingDays(inst, g, cur);
    var compactnessCost := CostsOnCurriculumCompactnessAndRoomStability(inst, g, cur);
    cost := capacityCost + daysCost + compactnessCost;
  }

  /**
    The curriculum loop of the evaluator: the penalty keeps growing across
    curricula and each entry of the cost array stores the penalty so far.
  */
  method RunningTotals(inst: Instance, g: Grid) returns (penalty: int, curriculumCosts: seq<int>)
    requires inst.Valid() && Fits(g, inst)
    ensures penalty == TotalCost(inst, g, inst.curricula)
    ensures curriculumCosts == RunningCosts(inst, g, inst.curricula)
  {
    var curricula := inst.curricula;
    curriculumCosts := [];
    penalty := 0;
    var c := 0;
    while c < |curricula|
      invariant 0 <= c <= |curricula|
      invariant penalty == TotalCost(inst, g, curricula[..c])
      invariant curriculumCosts == RunningCosts(inst, g, curricula[..c])
    {
      var cost := CurriculumPenalty(inst, g, curricula[c]);
      penalty := penalty + cost;
      assert curricula[..c + 1][..c] == curricula[..c];
      curriculumCosts := curriculumCosts + [penalty];
      c := c + 1;
    }
    assert curricula[..c] == curricula;
  }

  /** The per-candidate loop of the evaluator: three costs per curriculum, a running total, then fairness. */
  method EvaluateSolution(inst: Instance, g: Grid) returns (r: Result<Score, EvalError>)
    requires inst.Valid() && Fits(g, inst)
    ensures r == Evaluate(inst, g)
  {
    var penalty, curriculumCosts := RunningTotals(inst, g);
    var fairness := EvaluateFairness(curriculumCosts);
    if fairness.Failure? {
      return Failure(NoCurricula);
    }
    return Success(Score(penalty, fairness.value));
  }
}
